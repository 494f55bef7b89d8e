/** The tabular Q-learning agent of agent/agent.py: a table from states to
    four action values, the safety filter over the four directions, the
    epsilon-greedy choice and the one-step Q-learning update. */
module Agent {

  /** Actions are 0 = UP, 1 = RIGHT, 2 = DOWN, 3 = LEFT. */
  const NUM_ACTIONS: nat := 4

  /** The fallback when no action is safe, and the range randint(0, 3) draws from. */
  const ALL_ACTIONS: seq<nat> := [0, 1, 2, 3]

  /** One direction of the agent's state: the first thing seen that way
      ("W", "S", "G", "R", ...) and how many cells away it is. */
  datatype Percept = Percept(sym: string, dist: int)

  /** A state as the agent reads it: one percept per action, in action order. */
  type State = seq<Percept>

  /** Moving towards p is safe unless a wall or a body segment is right there. */
  predicate IsSafe(p: Percept)
  {
    !(p.dist == 1 && (p.sym == "W" || p.sym == "S"))
  }

  predicate Increasing(s: seq<nat>)
  {
    forall i, j :: 0 <= i < j < |s| ==> s[i] < s[j]
  }

  lemma IncreasingSnoc(s: seq<nat>, x: nat)
    requires Increasing(s) && forall a :: a in s ==> a < x
    ensures Increasing(s + [x])
  {
    var r := s + [x];
    forall i, j | 0 <= i < j < |r| ensures r[i] < r[j] {
      if j == |s| {
        assert r[i] == s[i] && s[i] in s;
      }
    }
  }

  lemma IncreasingCons(x: nat, s: seq<nat>)
    requires Increasing(s) && forall a :: a in s ==> x < a
    ensures Increasing([x] + s)
  {
    var r := [x] + s;
    forall i, j | 0 <= i < j < |r| ensures r[i] < r[j] {
      assert r[j] == s[j - 1] && s[j - 1] in s;
      if i > 0 {
        assert r[i] == s[i - 1];
      }
    }
  }

  /** The safe actions below n, in increasing order. */
  function SafeAmong(state: State, n: nat): (r: seq<nat>)
    requires n <= |state|
    ensures forall a: nat :: a in r <==> a < n && IsSafe(state[a])
    ensures Increasing(r)
  {
    if n == 0 then []
    else
      var before := SafeAmong(state, n - 1);
      if IsSafe(state[n - 1]) then
        IncreasingSnoc(before, n - 1);
        before + [n - 1]
      else before
  }

  /** What safe_actions_from_state returns: the safe actions, or all four
      when none is safe. */
  function SafeActions(state: State): (r: seq<nat>)
    requires |state| >= NUM_ACTIONS
    ensures |r| >= 1 && Increasing(r)
    ensures forall a :: a in r ==> a < NUM_ACTIONS
    ensures (exists a: nat :: a < NUM_ACTIONS && IsSafe(state[a])) ==>
              forall a: nat :: a in r <==> a < NUM_ACTIONS && IsSafe(state[a])
    ensures (forall a: nat :: a < NUM_ACTIONS ==> !IsSafe(state[a])) ==> r == ALL_ACTIONS
  {
    var safe := SafeAmong(state, NUM_ACTIONS);
    if safe != [] then
      assert safe[0] in safe;
      assert forall a: nat :: a in safe ==> a < NUM_ACTIONS;
      safe
    else
      assert forall a: nat :: a < NUM_ACTIONS ==> a !in safe;
      ALL_ACTIONS
  }

  /** safe_actions_from_state: one pass over the four actions. */
  method SafeActionsFromState(state: State) returns (actions: seq<nat>)
    requires |state| >= NUM_ACTIONS
    ensures actions == SafeActions(state)
    ensures |actions| >= 1 && forall a :: a in actions ==> a < NUM_ACTIONS
  {
    var safe: seq<nat> := [];
    for action := 0 to NUM_ACTIONS
      invariant safe == SafeAmong(state, action)
    {
      var p := state[action];
      if !(p.dist == 1 && (p.sym == "W" || p.sym == "S")) {
        safe := safe + [action];
      }
    }
    if |safe| > 0 {
      return safe;
    }
    return ALL_ACTIONS;
  }

  /** Python's max over a non-empty list of values. */
  function MaxOf(values: seq<real>): (m: real)
    requires |values| > 0
    ensures m in values
    ensures forall i :: 0 <= i < |values| ==> values[i] <= m
  {
    if |values| == 1 then values[0]
    else
      var rest := MaxOf(values[1..]);
      assert values == [values[0]] + values[1..];
      assert forall i :: 1 <= i < |values| ==> values[i] == values[1..][i - 1];
      if values[0] >= rest then values[0] else rest
  }

  /** The indices below n whose value is v, in increasing order. */
  function IndicesOf(values: seq<real>, v: real, n: nat): (r: seq<nat>)
    requires n <= |values|
    ensures forall i: nat :: i in r <==> i < n && values[i] == v
    ensures Increasing(r)
  {
    if n == 0 then []
    else
      var before := IndicesOf(values, v, n - 1);
      if values[n - 1] == v then
        IncreasingSnoc(before, n - 1);
        before + [n - 1]
      else before
  }

  /** The list `best` of choose_action: every index holding the maximum. */
  function Best(values: seq<real>): (r: seq<nat>)
    requires |values| > 0
    ensures |r| >= 1 && Increasing(r)
    ensures forall i: nat :: i in r <==> i < |values| && values[i] == MaxOf(values)
  {
    var r := IndicesOf(values, MaxOf(values), |values|);
    assert exists k :: 0 <= k < |values| && values[k] == MaxOf(values) && k in r;
    r
  }

  /** The comprehension [a for a in xs if a in allowed]. */
  function Keep(xs: seq<nat>, allowed: seq<nat>): (r: seq<nat>)
    ensures forall a :: a in r <==> a in xs && a in allowed
    ensures Increasing(xs) ==> Increasing(r)
  {
    if xs == [] then []
    else
      assert xs == [xs[0]] + xs[1..];
      var rest := Keep(xs[1..], allowed);
      if xs[0] in allowed then
        assert Increasing(xs) ==> forall a :: a in rest ==> xs[0] < a by {
          if Increasing(xs) {
            forall a | a in rest ensures xs[0] < a {
              var k :| 0 <= k < |xs[1..]| && xs[1..][k] == a;
              assert xs[k + 1] == a;
            }
          }
        }
        assert Increasing(xs) ==> Increasing([xs[0]] + rest) by {
          if Increasing(xs) {
            IncreasingCons(xs[0], rest);
          }
        }
        [xs[0]] + rest
      else rest
  }

  /** random.choice: the draw pick selects one element of a non-empty list. */
  function Choice(xs: seq<nat>, pick: nat): (a: nat)
    requires |xs| > 0
    ensures a in xs
  {
    xs[pick % |xs|]
  }

  /** The exploring half of choose_action: randint(0, 3), or under the
      safety filter a choice among the safe actions. */
  function Explore(state: State, useSafety: bool, pick: nat): (action: nat)
    requires useSafety ==> |state| >= NUM_ACTIONS
    ensures action < NUM_ACTIONS
    ensures useSafety ==> action in SafeActions(state)
  {
    if useSafety then Choice(SafeActions(state), pick)
    else Choice(ALL_ACTIONS, pick)
  }

  /** The exploiting half of choose_action: a choice among the maximal
      actions, among the safe maximal ones when the filter is on and
      there are any. */
  function Exploit(values: seq<real>, state: State, useSafety: bool, pick: nat): (action: nat)
    requires |values| > 0
    requires useSafety ==> |state| >= NUM_ACTIONS
    ensures action < |values| && values[action] == MaxOf(values)
    ensures useSafety && (exists a :: a in Best(values) && a in SafeActions(state)) ==>
              action in SafeActions(state)
  {
    var best := Best(values);
    if useSafety then
      var bestSafe := Keep(best, SafeActions(state));
      if bestSafe != [] then Choice(bestSafe, pick) else Choice(best, pick)
    else Choice(best, pick)
  }

  /** choose_action with its randomness made explicit: u is the value of
      random.random(), and pick is the draw of the one random.choice or
      random.randint(0, 3) that follows. */
  function ChooseAction(table: map<State, seq<real>>, state: State, epsilon: real,
                        useSafety: bool, u: real, pick: nat): (action: nat)
    requires 0.0 <= u < 1.0
    requires useSafety ==> |state| >= NUM_ACTIONS
    requires u >= epsilon ==> state in table && |table[state]| > 0
    // exploring: any action, or any safe one under the safety filter
    ensures u < epsilon ==> action < NUM_ACTIONS
    ensures u < epsilon && useSafety ==> action in SafeActions(state)
    // exploiting: an index of a maximal value
    ensures u >= epsilon ==>
              action < |table[state]| &&
              forall j :: 0 <= j < |table[state]| ==> table[state][j] <= table[state][action]
    // exploiting under the filter: safe whenever some maximal action is
    ensures u >= epsilon && useSafety && (exists a :: a in Best(table[state]) && a in SafeActions(state)) ==>
              action in SafeActions(state)
  {
    if u < epsilon then Explore(state, useSafety, pick)
    else Exploit(table[state], state, useSafety, pick)
  }

  /** With epsilon at most zero choose_action never explores, so an action
      strictly better than every other is played whatever the draws. */
  lemma GreedyPicksUniqueBest(table: map<State, seq<real>>, state: State, epsilon: real,
                              useSafety: bool, u: real, pick: nat, i: nat)
    requires epsilon <= 0.0 && 0.0 <= u < 1.0
    requires useSafety ==> |state| >= NUM_ACTIONS
    requires state in table && i < |table[state]|
    requires forall j :: 0 <= j < |table[state]| && j != i ==> table[state][j] < table[state][i]
    ensures ChooseAction(table, state, epsilon, useSafety, u, pick) == i
  {
  }

  /** Under the safety filter, greedy play never steps into a wall or a body
      segment one cell away while some maximal action avoids it. */
  lemma GreedyAvoidsDanger(table: map<State, seq<real>>, state: State, epsilon: real,
                           u: real, pick: nat, a: nat)
    requires 0.0 <= u < 1.0 && u >= epsilon
    requires |state| >= NUM_ACTIONS && state in table && |table[state]| > 0
    requires a < NUM_ACTIONS && a < |table[state]| && IsSafe(state[a])
    requires forall j :: 0 <= j < |table[state]| ==> table[state][j] <= table[state][a]
    ensures IsSafe(state[ChooseAction(table, state, epsilon, true, u, pick)])
  {
    var values := table[state];
    var k :| 0 <= k < |values| && values[k] == MaxOf(values);
    assert values[a] == MaxOf(values) by {
      assert values[k] <= values[a];
    }
    assert a in Best(values);
    assert a in SafeActions(state);
  }

  /** Every row has one value per action. */
  predicate WellFormed(m: map<State, seq<real>>)
  {
    forall s :: s in m ==> |m[s]| == NUM_ACTIONS
  }

  /** With a well-formed table, every choice is one of the four actions. */
  lemma ChosenActionInRange(table: map<State, seq<real>>, state: State, epsilon: real,
                            useSafety: bool, u: real, pick: nat)
    requires WellFormed(table)
    requires 0.0 <= u < 1.0
    requires useSafety ==> |state| >= NUM_ACTIONS
    requires u >= epsilon ==> state in table && |table[state]| > 0
    ensures ChooseAction(table, state, epsilon, useSafety, u, pick) < NUM_ACTIONS
  {
    var action := ChooseAction(table, state, epsilon, useSafety, u, pick);
    if u >= epsilon {
      assert action < |table[state]|;
    }
  }

  /** The Q table, a dictionary the agent updates in place. */
  class QTable {
    var entries: map<State, seq<real>>

    constructor ()
      ensures entries == map[]
    {
      entries := map[];
    }
  }

  /** The table init_state leaves: state added with four zero values if it
      was missing, everything else as it was. */
  function WithState(m: map<State, seq<real>>, state: State): (r: map<State, seq<real>>)
    ensures r.Keys == m.Keys + {state}
    ensures forall s :: s in m ==> r[s] == m[s]
    ensures state !in m ==> r[state] == [0.0, 0.0, 0.0, 0.0]
  {
    if state in m then m else m[state := [0.0, 0.0, 0.0, 0.0]]
  }

  lemma WithStateIdempotent(m: map<State, seq<real>>, state: State)
    ensures WithState(WithState(m, state), state) == WithState(m, state)
  {
  }

  lemma WithStateKeepsWellFormed(m: map<State, seq<real>>, state: State)
    requires WellFormed(m)
    ensures WellFormed(WithState(m, state))
  {
  }

  /** init_state */
  method InitState(q: QTable, state: State)
    modifies q
    ensures q.entries == WithState(old(q.entries), state)
  {
    if state !in q.entries {
      q.entries := q.entries[state := [0.0, 0.0, 0.0, 0.0]];
    }
  }

  /** The Bellman target of update_q: the reward plus the discounted best
      value of the next state. */
  function Target(reward: real, gamma: real, bestNext: real): real
  {
    reward + gamma * bestNext
  }

  /** The temporal-difference step: current moved a fraction alpha of the
      way towards target. */
  function TdValue(current: real, target: real, alpha: real): real
  {
    current + alpha * (target - current)
  }

  /** With a learning rate in [0, 1] the new value lies between the old one
      and the target. */
  lemma TdValueBetween(current: real, target: real, alpha: real)
    requires 0.0 <= alpha <= 1.0
    ensures current <= target ==> current <= TdValue(current, target, alpha) <= target
    ensures target <= current ==> target <= TdValue(current, target, alpha) <= current
  {
    MulDiff(alpha, current, target);
    MulDiff(1.0 - alpha, current, target);
    assert TdValue(current, target, alpha) - current == alpha * (target - current);
    assert target - TdValue(current, target, alpha) == (1.0 - alpha) * (target - current);
  }

  /** A non-negative factor keeps the sign of a difference. */
  lemma MulDiff(a: real, x: real, y: real)
    requires 0.0 <= a
    ensures x <= y ==> 0.0 <= a * (y - x)
    ensures y <= x ==> a * (y - x) <= 0.0
  {
  }

  /** The table update_q leaves: only q[state][action] changes, and it takes
      the temporal-difference step towards the target built from the best
      value of next as the table stood before the write. */
  function Updated(m: map<State, seq<real>>, state: State, action: nat, reward: real,
                   next: State, alpha: real, gamma: real): (r: map<State, seq<real>>)
    requires state in m && next in m
    requires action < |m[state]| && |m[next]| > 0
    ensures r.Keys == m.Keys
    ensures forall s :: s in m && s != state ==> r[s] == m[s]
    ensures |r[state]| == |m[state]|
    ensures forall i :: 0 <= i < |m[state]| && i != action ==> r[state][i] == m[state][i]
    ensures r[state][action] == TdValue(m[state][action], Target(reward, gamma, MaxOf(m[next])), alpha)
  {
    var row := m[state];
    m[state := row[action := TdValue(row[action], Target(reward, gamma, MaxOf(m[next])), alpha)]]
  }

  /** update_q: the best next value is read before the entry is written. */
  method UpdateQ(q: QTable, state: State, action: nat, reward: real,
                 next: State, alpha: real, gamma: real)
    requires state in q.entries && next in q.entries
    requires action < |q.entries[state]| && |q.entries[next]| > 0
    modifies q
    ensures q.entries == Updated(old(q.entries), state, action, reward, next, alpha, gamma)
  {
    var bestNext := MaxOf(q.entries[next]);
    var row := q.entries[state];
    assert row[action] + alpha * (reward + gamma * bestNext - row[action])
        == TdValue(row[action], Target(reward, gamma, bestNext), alpha);
    row := row[action := row[action] + alpha * (reward + gamma * bestNext - row[action])];
    q.entries := q.entries[state := row];
  }

  lemma UpdatedKeepsWellFormed(m: map<State, seq<real>>, state: State, action: nat, reward: real,
                               next: State, alpha: real, gamma: real)
    requires WellFormed(m) && state in m && next in m && action < NUM_ACTIONS
    ensures WellFormed(Updated(m, state, action, reward, next, alpha, gamma))
  {
  }

  /** A zero learning rate leaves the table as it was. */
  lemma UpdateWithoutLearning(m: map<State, seq<real>>, state: State, action: nat, reward: real,
                              next: State, gamma: real)
    requires state in m && next in m
    requires action < |m[state]| && |m[next]| > 0
    ensures Updated(m, state, action, reward, next, 0.0, gamma) == m
  {
    var r := Updated(m, state, action, reward, next, 0.0, gamma);
    assert r[state] == m[state];
  }

  /** An entry already at its target is a fixed point of the update. */
  lemma UpdateAtTarget(m: map<State, seq<real>>, state: State, action: nat, reward: real,
                       next: State, alpha: real, gamma: real)
    requires state in m && next in m
    requires action < |m[state]| && |m[next]| > 0
    requires m[state][action] == Target(reward, gamma, MaxOf(m[next]))
    ensures Updated(m, state, action, reward, next, alpha, gamma) == m
  {
    var r := Updated(m, state, action, reward, next, alpha, gamma);
    assert r[state] == m[state];
  }

  /** A learning rate of one replaces the entry by the Bellman target. */
  lemma UpdateToTarget(m: map<State, seq<real>>, state: State, action: nat, reward: real,
                       next: State, gamma: real)
    requires state in m && next in m
    requires action < |m[state]| && |m[next]| > 0
    ensures Updated(m, state, action, reward, next, 1.0, gamma)[state][action]
              == Target(reward, gamma, MaxOf(m[next]))
  {
  }
}
