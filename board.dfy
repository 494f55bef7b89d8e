/** The snake grid of Board/environment.py: a 10x10 board holding a snake
    (head first), a list of green apples and one red apple, the move state
    machine, the cell-code grid and the four-ray vision. */
module Board {

  datatype Option<T> = None | Some(value: T)

  const WIDTH: int := 10
  const HEIGHT: int := 10

  /** A cell, or a direction, as the (x, y) pair the source uses. */
  type Cell = (int, int)

  const UP: Cell := (0, -1)
  const DOWN: Cell := (0, 1)
  const LEFT: Cell := (-1, 0)
  const RIGHT: Cell := (1, 0)

  predicate InBounds(c: Cell)
  {
    0 <= c.0 < WIDTH && 0 <= c.1 < HEIGHT
  }

  function Step(c: Cell, d: Cell): Cell
  {
    (c.0 + d.0, c.1 + d.1)
  }

  predicate IsUnit(d: Cell)
  {
    d == UP || d == DOWN || d == LEFT || d == RIGHT
  }

  /** a comes before b in the rows-then-columns order in which the
      comprehension of random_empty_cell walks the board. */
  predicate Before(a: Cell, b: Cell)
  {
    a.1 < b.1 || (a.1 == b.1 && a.0 < b.0)
  }

  /** The cells random_empty_cell may return: on the board, not a snake
      segment, not a green apple and not the red apple. */
  predicate IsFree(c: Cell, snake: seq<Cell>, greens: seq<Cell>, red: Option<Cell>)
  {
    InBounds(c) && c !in snake && c !in greens && red != Some(c)
  }

  /** The cells of s appear in strictly increasing row-major order. */
  predicate Ordered(s: seq<Cell>)
  {
    forall i, j :: 0 <= i < j < |s| ==> Before(s[i], s[j])
  }

  /** c lies at or after row y, column x in that order. */
  predicate AtOrAfter(c: Cell, y: int, x: int)
  {
    c.1 > y || (c.1 == y && c.0 >= x)
  }

  /** The free cells from row y, column x on, in the comprehension's order. */
  function FreeCellsFrom(snake: seq<Cell>, greens: seq<Cell>, red: Option<Cell>, y: int, x: int): (r: seq<Cell>)
    requires 0 <= y <= HEIGHT && 0 <= x <= WIDTH
    ensures forall i :: 0 <= i < |r| ==> IsFree(r[i], snake, greens, red) && AtOrAfter(r[i], y, x)
    ensures forall c {:trigger c in r} :: IsFree(c, snake, greens, red) && AtOrAfter(c, y, x) ==> c in r
    // naming the snake here keeps the verifier from unrolling the whole
    // board whenever the call starts from a literal row and column
    decreases HEIGHT - y, WIDTH - x, |snake|
  {
    if y == HEIGHT then []
    else if x == WIDTH then FreeCellsFrom(snake, greens, red, y + 1, 0)
    else (if InBounds((x, y)) && (x, y) !in snake && (x, y) !in greens && red != Some((x, y))
          then [(x, y)] else [])
         + FreeCellsFrom(snake, greens, red, y, x + 1)
  }

  lemma {:induction false} FreeCellsOrdered(snake: seq<Cell>, greens: seq<Cell>, red: Option<Cell>, y: int, x: int)
    requires 0 <= y <= HEIGHT && 0 <= x <= WIDTH
    ensures Ordered(FreeCellsFrom(snake, greens, red, y, x))
    decreases HEIGHT - y, WIDTH - x
  {
    var r := FreeCellsFrom(snake, greens, red, y, x);
    if y == HEIGHT {
    } else if x == WIDTH {
      FreeCellsOrdered(snake, greens, red, y + 1, 0);
      assert r == FreeCellsFrom(snake, greens, red, y + 1, 0);
    } else {
      FreeCellsOrdered(snake, greens, red, y, x + 1);
      var rest := FreeCellsFrom(snake, greens, red, y, x + 1);
      if InBounds((x, y)) && (x, y) !in snake && (x, y) !in greens && red != Some((x, y)) {
        assert r == [(x, y)] + rest;
        assert Ordered(rest);
        forall i, j | 0 <= i < j < |r| ensures Before(r[i], r[j]) {
          if i == 0 {
            assert r[0] == (x, y);
            assert r[j] == rest[j - 1] && AtOrAfter(rest[j - 1], y, x + 1);
          } else {
            assert r[i] == rest[i - 1] && r[j] == rest[j - 1];
          }
        }
      } else {
        assert r == rest;
      }
    }
  }

  /** The list `empty` built by random_empty_cell: exactly the free cells. */
  function EmptyCells(snake: seq<Cell>, greens: seq<Cell>, red: Option<Cell>): (r: seq<Cell>)
    ensures forall i :: 0 <= i < |r| ==> IsFree(r[i], snake, greens, red)
    ensures forall c {:trigger c in r} :: IsFree(c, snake, greens, red) ==> c in r
  {
    FreeCellsFrom(snake, greens, red, 0, 0)
  }

  /** The empty-cell list holds each free cell once, in row-major order. */
  lemma EmptyCellsOrdered(snake: seq<Cell>, greens: seq<Cell>, red: Option<Cell>)
    ensures Ordered(EmptyCells(snake, greens, red))
  {
    FreeCellsOrdered(snake, greens, red, 0, 0);
    assert EmptyCells(snake, greens, red) == FreeCellsFrom(snake, greens, red, 0, 0);
  }

  /** Index of the first occurrence of c in s. */
  function IndexOf(s: seq<Cell>, c: Cell): (i: nat)
    requires c in s
    ensures i < |s| && s[i] == c && c !in s[..i]
  {
    if s[0] == c then 0
    else
      assert c in s[1..];
      1 + IndexOf(s[1..], c)
  }

  /** Python's list.remove: drops the first occurrence of c, keeping the
      order of the rest. */
  function RemoveFirst(s: seq<Cell>, c: Cell): (r: seq<Cell>)
    requires c in s
    ensures r == s[..IndexOf(s, c)] + s[IndexOf(s, c) + 1..]
  {
    if s[0] == c then s[1..]
    else
      assert s == [s[0]] + s[1..];
      var t := s[1..];
      var i := IndexOf(t, c);
      assert IndexOf(s, c) == i + 1;
      assert s[..i + 1] == [s[0]] + t[..i];
      assert s[i + 2..] == t[i + 1..];
      [s[0]] + RemoveFirst(t, c)
  }

  lemma AppendAssoc<T>(a: seq<T>, b: seq<T>, c: seq<T>)
    ensures a + (b + c) == (a + b) + c
  {
  }

  /** Every cell of s is on the board. */
  predicate OnBoard(s: seq<Cell>)
  {
    forall i :: 0 <= i < |s| ==> InBounds(s[i])
  }

  lemma OnBoardPush(c: Cell, s: seq<Cell>)
    ensures InBounds(c) && OnBoard(s) ==> OnBoard([c] + s) && OnBoard(s + [c])
  {
  }

  lemma OnBoardPrefix(s: seq<Cell>, n: nat)
    requires n <= |s|
    ensures OnBoard(s) ==> OnBoard(s[..n])
  {
  }

  lemma OnBoardRemove(s: seq<Cell>, c: Cell)
    requires c in s
    ensures OnBoard(s) ==> OnBoard(RemoveFirst(s, c))
  {
    var i := IndexOf(s, c);
    var r := RemoveFirst(s, c);
    if OnBoard(s) {
      forall k | 0 <= k < |r| ensures InBounds(r[k]) {
        if k < i {
          assert r[k] == s[k];
        } else {
          assert r[k] == s[k + 1];
        }
      }
    }
  }

  /** The snake __init__ lays out: three cells in a row, head rightmost. */
  function StartSnake(x: int, y: int): seq<Cell>
  {
    [(x, y), (x - 1, y), (x - 2, y)]
  }

  /** No cell appears twice in s. */
  predicate NoDup(s: seq<Cell>)
  {
    forall i, j :: 0 <= i < j < |s| ==> s[i] != s[j]
  }

  /** The layout the rules of the game call for: no snake segment or apple
      shares its cell with another one, and a red apple is placed. */
  predicate Apart(snake: seq<Cell>, greens: seq<Cell>, red: Option<Cell>)
  {
    && NoDup(snake) && NoDup(greens)
    && (forall i :: 0 <= i < |greens| ==> greens[i] !in snake)
    && red.Some? && red.value !in snake && red.value !in greens
  }

  lemma NoDupPush(c: Cell, s: seq<Cell>)
    requires NoDup(s) && c !in s
    ensures NoDup([c] + s)
  {
    var r := [c] + s;
    forall i, j | 0 <= i < j < |r| ensures r[i] != r[j] {
      assert r[j] == s[j - 1];
      if i > 0 {
        assert r[i] == s[i - 1];
      }
    }
  }

  lemma NoDupAppend(s: seq<Cell>, c: Cell)
    requires NoDup(s) && c !in s
    ensures NoDup(s + [c])
  {
    var r := s + [c];
    forall i, j | 0 <= i < j < |r| ensures r[i] != r[j] {
      assert r[i] == s[i];
      if j < |s| {
        assert r[j] == s[j];
      }
    }
  }

  /** A prefix keeps no cell twice and holds only cells of the whole. */
  lemma PrefixOf(s: seq<Cell>, n: nat)
    requires n <= |s|
    ensures NoDup(s) ==> NoDup(s[..n])
    ensures forall c :: c in s[..n] ==> c in s
  {
    forall c | c in s[..n] ensures c in s {
      var k :| 0 <= k < n && s[..n][k] == c;
      assert s[k] == c;
    }
  }

  /** list.remove keeps the other cells, and drops c for good when s has
      no cell twice. */
  lemma RemoveFirstOf(s: seq<Cell>, c: Cell)
    requires c in s
    ensures forall e :: e in RemoveFirst(s, c) ==> e in s
    ensures NoDup(s) ==> NoDup(RemoveFirst(s, c)) && c !in RemoveFirst(s, c)
  {
    var i := IndexOf(s, c);
    var r := RemoveFirst(s, c);
    assert |r| == |s| - 1;
    assert forall k :: 0 <= k < i ==> r[k] == s[k];
    assert forall k :: i <= k < |r| ==> r[k] == s[k + 1];
    forall e | e in r ensures e in s {
      var k :| 0 <= k < |r| && r[k] == e;
      if k < i {
        assert s[k] == e;
      } else {
        assert s[k + 1] == e;
      }
    }
    if NoDup(s) {
      forall a, b | 0 <= a < b < |r| ensures r[a] != r[b] {
        var a' := if a < i then a else a + 1;
        var b' := if b < i then b else b + 1;
        assert r[a] == s[a'] && r[b] == s[b'];
      }
    }
  }

  /** The plain move keeps the layout apart: the head enters a cell no
      segment or apple holds, and the tail leaves. */
  lemma AdvanceKeepsApart(snake: seq<Cell>, greens: seq<Cell>, red: Option<Cell>, h: Cell)
    requires Apart(snake, greens, red) && |snake| >= 1
    requires h !in snake && h !in greens && red != Some(h)
    ensures Apart([h] + snake[..|snake| - 1], greens, red)
  {
    var body := snake[..|snake| - 1];
    PrefixOf(snake, |snake| - 1);
    NoDupPush(h, body);
    var s := [h] + body;
    assert forall c :: c in s ==> c == h || c in body;
  }

  /** The red-apple move keeps the layout apart: the head enters the red
      apple's cell and the new red apple is drawn from the free cells. */
  lemma EatRedKeepsApart(snake: seq<Cell>, greens: seq<Cell>, red: Option<Cell>, h: Cell, pick: nat)
    requires Apart(snake, greens, red) && |snake| >= 1 && red == Some(h)
    requires pick < |EmptyCells(snake, greens, red)|
    ensures Apart(([h] + snake)[..|snake| - 1], greens, Some(EmptyCells(snake, greens, red)[pick]))
  {
    var c := EmptyCells(snake, greens, red)[pick];
    var grown := [h] + snake;
    NoDupPush(h, snake);
    PrefixOf(grown, |snake| - 1);
    assert forall e :: e in grown ==> e == h || e in snake;
  }

  /** The green-apple move keeps the layout apart whenever the replacement
      apple c avoids the new head. */
  lemma EatGreenKeepsApart(snake: seq<Cell>, greens: seq<Cell>, red: Option<Cell>, h: Cell, c: Cell)
    requires Apart(snake, greens, red) && h in greens
    requires c != h && c !in snake && c !in RemoveFirst(greens, h) && red != Some(c)
    ensures Apart([h] + snake, RemoveFirst(greens, h) + [c], red)
  {
    var kept := RemoveFirst(greens, h);
    RemoveFirstOf(greens, h);
    var k := IndexOf(greens, h);
    assert h !in snake by { assert greens[k] == h; }
    NoDupPush(h, snake);
    NoDupAppend(kept, c);
    var newGreens := kept + [c];
    assert forall e :: e in newGreens ==> e == c || e in kept;
    forall i | 0 <= i < |newGreens| ensures newGreens[i] !in [h] + snake {
      var e := newGreens[i];
      if e != c {
        assert e in kept;
        assert e in greens;
        var j :| 0 <= j < |greens| && greens[j] == e;
      }
    }
  }

  /** As written, move draws the replacement for an eaten green apple
      before the head enters its cell, so the draw can land on the head:
      some pick does, and that pick leaves an apple under the snake. */
  lemma ReplacementCanLandOnHead(snake: seq<Cell>, greens: seq<Cell>, red: Option<Cell>, h: Cell)
    requires Apart(snake, greens, red) && InBounds(h) && h in greens
    ensures exists pick :: 0 <= pick < |EmptyCells(snake, RemoveFirst(greens, h), red)|
                           && EmptyCells(snake, RemoveFirst(greens, h), red)[pick] == h
    ensures !Apart([h] + snake, RemoveFirst(greens, h) + [h], red)
  {
    var kept := RemoveFirst(greens, h);
    RemoveFirstOf(greens, h);
    var k := IndexOf(greens, h);
    assert h !in snake by { assert greens[k] == h; }
    assert IsFree(h, snake, kept, red);
    var empty := EmptyCells(snake, kept, red);
    assert h in empty;
    var pick :| 0 <= pick < |empty| && empty[pick] == h;
    var newGreens := kept + [h];
    assert newGreens[|newGreens| - 1] == h;
  }

  /** The replacement the rules call for: drawn from the cells that are
      free once the head has entered the eaten apple's cell. */
  function ReplacementGreen(snake: seq<Cell>, greens: seq<Cell>, red: Option<Cell>, h: Cell, pick: nat): (c: Cell)
    requires h in greens
    requires pick < |EmptyCells([h] + snake, RemoveFirst(greens, h), red)|
    ensures IsFree(c, [h] + snake, RemoveFirst(greens, h), red)
  {
    EmptyCells([h] + snake, RemoveFirst(greens, h), red)[pick]
  }

  /** With that replacement the green-apple move keeps the layout apart
      for every draw. */
  lemma ReplacementGreenKeepsApart(snake: seq<Cell>, greens: seq<Cell>, red: Option<Cell>, h: Cell, pick: nat)
    requires Apart(snake, greens, red) && h in greens
    requires pick < |EmptyCells([h] + snake, RemoveFirst(greens, h), red)|
    ensures Apart([h] + snake, RemoveFirst(greens, h) + [ReplacementGreen(snake, greens, red, h, pick)], red)
  {
    var c := ReplacementGreen(snake, greens, red, h, pick);
    assert c !in [h] + snake;
    assert c != h && c !in snake by { assert ([h] + snake)[0] == h; }
    EatGreenKeepsApart(snake, greens, red, h, c);
  }

  /** The two green apples __init__ draws as written: both from the free
      cells of the bare board, since the list is built before either is
      stored. */
  function InitialGreens(snake: seq<Cell>, pick1: nat, pick2: nat): (g: seq<Cell>)
    requires pick1 < |EmptyCells(snake, [], None)| && pick2 < |EmptyCells(snake, [], None)|
    ensures |g| == 2 && IsFree(g[0], snake, [], None) && IsFree(g[1], snake, [], None)
  {
    [EmptyCells(snake, [], None)[pick1], EmptyCells(snake, [], None)[pick2]]
  }

  /** The starting board has free cells, and drawing the same one twice
      puts both green apples on one cell. */
  lemma InitialGreensCanCoincide(x: int, y: int)
    requires 2 <= x <= WIDTH - 1 && 0 <= y <= HEIGHT - 1
    ensures exists p :: 0 <= p < |EmptyCells(StartSnake(x, y), [], None)|
                        && !NoDup(InitialGreens(StartSnake(x, y), p, p))
  {
    var snake := StartSnake(x, y);
    var free := (0, if y == 0 then 1 else 0);
    assert IsFree(free, snake, [], None);
    assert free in EmptyCells(snake, [], None);
    var g := InitialGreens(snake, 0, 0);
    assert g[0] == g[1];
  }

  /** The draw the rules call for: the second green apple from the cells
      left free by the first. */
  function InitialGreensDistinct(snake: seq<Cell>, pick1: nat, pick2: nat): (g: seq<Cell>)
    requires pick1 < |EmptyCells(snake, [], None)|
    requires pick2 < |EmptyCells(snake, [EmptyCells(snake, [], None)[pick1]], None)|
    ensures |g| == 2 && NoDup(g)
    ensures forall i :: 0 <= i < |g| ==> InBounds(g[i]) && g[i] !in snake
  {
    var first := EmptyCells(snake, [], None)[pick1];
    var second := EmptyCells(snake, [first], None)[pick2];
    assert second != first by { assert !IsFree(first, snake, [first], None); }
    [first, second]
  }

  /** With that draw the starting layout is apart for every choice. */
  lemma InitialLayoutApart(x: int, y: int, pick1: nat, pick2: nat, pick3: nat)
    requires pick1 < |EmptyCells(StartSnake(x, y), [], None)|
    requires pick2 < |EmptyCells(StartSnake(x, y), [EmptyCells(StartSnake(x, y), [], None)[pick1]], None)|
    requires pick3 < |EmptyCells(StartSnake(x, y), InitialGreensDistinct(StartSnake(x, y), pick1, pick2), None)|
    ensures var snake := StartSnake(x, y);
            var greens := InitialGreensDistinct(snake, pick1, pick2);
            Apart(snake, greens, Some(EmptyCells(snake, greens, None)[pick3]))
  {
    var snake := StartSnake(x, y);
    var greens := InitialGreensDistinct(snake, pick1, pick2);
    var c := EmptyCells(snake, greens, None)[pick3];
    assert NoDup(snake);
    assert IsFree(c, snake, greens, None);
  }

  /** The code update_grid writes for cell c: the red apple wins over
      green apples, which win over snake segments. */
  function CellCode(snake: seq<Cell>, greens: seq<Cell>, red: Option<Cell>, c: Cell): int
  {
    if red == Some(c) then 3
    else if c in greens then 2
    else if c in snake then 1
    else 0
  }

  /** What _cell_symbol returns: "W", "H", "S", "G", "R" and "0". */
  datatype Symbol = Wall | Head | Body | Green | Red | Empty

  /** Steps left before the ray from c along a non-zero d leaves the board;
      it drops on every step that stays on the board. It is only the
      termination measure of Ray, which must also cover directions that
      are not unit steps; for a unit direction from a cell on the board it
      equals WallDistance, the distance RayLength states. */
  function Fuel(c: Cell, d: Cell): nat
  {
    var n := if d.0 > 0 then WIDTH - c.0
             else if d.0 < 0 then c.0 + 1
             else if d.1 > 0 then HEIGHT - c.1
             else c.1 + 1;
    if n < 0 then 0 else n
  }

  /** Number of steps from c along a unit direction to the first cell off the board. */
  function WallDistance(c: Cell, d: Cell): int
  {
    if d == RIGHT then WIDTH - c.0
    else if d == LEFT then c.0 + 1
    else if d == DOWN then HEIGHT - c.1
    else c.1 + 1
  }

  /** How far c lies along a unit direction d; one step along d adds one. */
  function Progress(c: Cell, d: Cell): int
  {
    if d == RIGHT then c.0
    else if d == LEFT then -c.0
    else if d == DOWN then c.1
    else -c.1
  }

  class Environment {
    var grid: array2<int>
    var snake: seq<Cell>
    var greenApples: seq<Cell>
    var redApple: Option<Cell>
    var gameOver: bool

    /** The grid has the board's shape and every snake segment and apple is on the board. */
    predicate Valid()
      reads this
    {
      && grid.Length0 == HEIGHT && grid.Length1 == WIDTH
      && OnBoard(snake) && OnBoard(greenApples)
      && redApple.Some? && InBounds(redApple.value)
    }

    /** No segment or apple shares its cell with another one. */
    predicate Disjoint()
      reads this
    {
      Apart(snake, greenApples, redApple)
    }

    /** The grid is the cell-by-cell projection of the snake and the apples. */
    predicate GridMatches()
      reads this, grid
    {
      && grid.Length0 == HEIGHT && grid.Length1 == WIDTH
      && forall y, x {:trigger grid[y, x]} :: 0 <= y < HEIGHT && 0 <= x < WIDTH ==>
           grid[y, x] == CellCode(snake, greenApples, redApple, (x, y))
    }

    constructor (x: int, y: int, pick1: nat, pick2: nat, pick3: nat)
      requires 2 <= x <= WIDTH - 1 && 0 <= y <= HEIGHT - 1
      requires pick1 < |EmptyCells(StartSnake(x, y), [], None)|
      requires pick2 < |EmptyCells(StartSnake(x, y), [EmptyCells(StartSnake(x, y), [], None)[pick1]], None)|
      requires pick3 < |EmptyCells(StartSnake(x, y), InitialGreensDistinct(StartSnake(x, y), pick1, pick2), None)|
      ensures snake == StartSnake(x, y) && !gameOver
      ensures greenApples == InitialGreensDistinct(snake, pick1, pick2)
      ensures redApple == Some(EmptyCells(snake, greenApples, None)[pick3])
      ensures Valid() && Disjoint() && fresh(grid) && GridMatches()
    {
      grid := new int[HEIGHT, WIDTH];
      snake := [(x, y), (x - 1, y), (x - 2, y)];
      gameOver := false;
      greenApples := [];
      redApple := None;
      new;
      // the second green apple is drawn once the first one is in place
      var first := RandomEmptyCell(pick1);
      greenApples := [first];
      var second := RandomEmptyCell(pick2);
      greenApples := greenApples + [second];
      assert greenApples == InitialGreensDistinct(snake, pick1, pick2);
      redApple := Some(RandomEmptyCell(pick3));
      InitialLayoutApart(x, y, pick1, pick2, pick3);
      UpdateGrid();
    }

    /** random_empty_cell: random.choice over the free cells, the draw
        being the index pick. */
    function RandomEmptyCell(pick: nat): (c: Cell)
      reads this
      requires pick < |EmptyCells(snake, greenApples, redApple)|
      ensures InBounds(c) && c !in snake && c !in greenApples && redApple != Some(c)
    {
      EmptyCells(snake, greenApples, redApple)[pick]
    }

    method GameOver()
      modifies this`gameOver
      ensures gameOver
    {
      gameOver := true;
    }

    /** The draw pick is good for whichever food branch the move takes. */
    predicate PickFits(direction: Cell, pick: nat)
      reads this
      requires |snake| >= 1
    {
      var h := Step(snake[0], direction);
      InBounds(h) ==>
        && (h in greenApples ==> pick < |EmptyCells([h] + snake, RemoveFirst(greenApples, h), redApple)|)
        && (h !in greenApples && redApple == Some(h) ==> pick < |EmptyCells(snake, greenApples, redApple)|)
    }

    method Move(direction: Cell, pick: nat) returns (moved: bool)
      requires |snake| >= 1
      requires PickFits(direction, pick)
      modifies this
      ensures old(Valid()) ==> Valid()
      // the layout stays apart
      ensures old(Disjoint()) ==> Disjoint()
      ensures var h := Step(old(snake)[0], direction);
        moved <==> InBounds(h) && (h in old(greenApples) || old(redApple) == Some(h) || h !in old(snake))
      // wall: game over, nothing else changes
      ensures var h := Step(old(snake)[0], direction);
        !InBounds(h) ==>
          && gameOver && snake == old(snake)
          && greenApples == old(greenApples) && redApple == old(redApple) && grid == old(grid)
      // green apple: grow by one, replace the eaten apple, grid not rebuilt
      ensures var h := Step(old(snake)[0], direction);
        InBounds(h) && h in old(greenApples) ==>
          var kept := RemoveFirst(old(greenApples), h);
          && snake == [h] + old(snake) && |snake| == |old(snake)| + 1
          && greenApples == kept + [EmptyCells([h] + old(snake), kept, old(redApple))[pick]]
          && |greenApples| == |old(greenApples)|
          && redApple == old(redApple) && gameOver == old(gameOver) && grid == old(grid)
      // red apple: new head in, two tail cells out, game over at length 0
      ensures var h := Step(old(snake)[0], direction);
        InBounds(h) && h !in old(greenApples) && old(redApple) == Some(h) ==>
          && redApple == Some(EmptyCells(old(snake), old(greenApples), old(redApple))[pick])
          && snake == ([h] + old(snake))[..|old(snake)| - 1] && |snake| == |old(snake)| - 1
          && gameOver == (old(gameOver) || |old(snake)| == 1)
          && greenApples == old(greenApples) && fresh(grid) && GridMatches()
      // self-collision, tail included: game over, nothing else changes
      ensures var h := Step(old(snake)[0], direction);
        InBounds(h) && h !in old(greenApples) && old(redApple) != Some(h) && h in old(snake) ==>
          && gameOver && snake == old(snake)
          && greenApples == old(greenApples) && redApple == old(redApple) && grid == old(grid)
      // plain move: new head in, tail out
      ensures var h := Step(old(snake)[0], direction);
        InBounds(h) && h !in old(greenApples) && old(redApple) != Some(h) && h !in old(snake) ==>
          && snake == [h] + old(snake)[..|old(snake)| - 1] && |snake| == |old(snake)|
          && greenApples == old(greenApples) && redApple == old(redApple)
          && gameOver == old(gameOver) && fresh(grid) && GridMatches()
    {
      var head := snake[0];
      var newHead := (head.0 + direction.0, head.1 + direction.1);
      assert newHead == Step(snake[0], direction);

      if !(0 <= newHead.0 < WIDTH && 0 <= newHead.1 < HEIGHT) {
        GameOver();
        return false;
      }

      if newHead in greenApples {
        EatGreen(newHead, pick);
        return true;
      }

      if redApple == Some(newHead) {
        EatRed(newHead, pick);
        return true;
      }

      if newHead in snake {
        GameOver();
        return false;
      }

      Advance(newHead);
      return true;
    }

    /** The green-apple branch of move: the eaten apple is removed, the new
        head goes in, and the replacement is drawn from the cells left free;
        the tail stays, so the snake grows. */
    method EatGreen(h: Cell, pick: nat)
      requires InBounds(h) && h in greenApples
      requires pick < |EmptyCells([h] + snake, RemoveFirst(greenApples, h), redApple)|
      modifies this`greenApples, this`snake
      ensures var kept := RemoveFirst(old(greenApples), h);
        greenApples == kept + [EmptyCells([h] + old(snake), kept, redApple)[pick]]
      ensures |greenApples| == |old(greenApples)|
      ensures snake == [h] + old(snake)
      ensures old(Valid()) ==> Valid()
      ensures old(Disjoint()) ==> Disjoint()
    {
      ghost var wasApart, snake0, greens0 := Disjoint(), snake, greenApples;
      var kept := RemoveFirst(greenApples, h);
      OnBoardRemove(greenApples, h);
      OnBoardPush(h, snake);
      greenApples := kept;
      snake := [h] + snake;
      var apple := RandomEmptyCell(pick);
      assert apple == ReplacementGreen(snake0, greens0, redApple, h, pick);
      OnBoardPush(apple, kept);
      greenApples := greenApples + [apple];
      if wasApart {
        ReplacementGreenKeepsApart(snake0, greens0, redApple, h, pick);
      }
    }

    /** The red-apple branch of move: a new red apple is drawn, the head
        goes in, the tail comes out, and one more segment is popped when
        one is left, the game ending when that empties the snake. */
    method EatRed(h: Cell, pick: nat)
      requires InBounds(h) && |snake| >= 1 && redApple == Some(h)
      requires pick < |EmptyCells(snake, greenApples, redApple)|
      modifies this`redApple, this`snake, this`gameOver, this`grid
      ensures redApple == Some(EmptyCells(old(snake), greenApples, old(redApple))[pick])
      ensures snake == ([h] + old(snake))[..|old(snake)| - 1] && |snake| == |old(snake)| - 1
      ensures gameOver == (old(gameOver) || |old(snake)| == 1)
      ensures fresh(grid) && GridMatches()
      ensures old(Valid()) ==> Valid()
      ensures old(Disjoint()) ==> Disjoint()
    {
      if Disjoint() {
        EatRedKeepsApart(snake, greenApples, redApple, h, pick);
      }
      var apple := RandomEmptyCell(pick);
      assert apple == EmptyCells(snake, greenApples, redApple)[pick];
      redApple := Some(apple);
      OnBoardPush(h, snake);
      snake := [h] + snake;
      OnBoardPrefix(snake, |snake| - 1);
      snake := snake[..|snake| - 1];
      if |snake| > 0 {
        OnBoardPrefix(snake, |snake| - 1);
        snake := snake[..|snake| - 1];
        if |snake| == 0 {
          GameOver();
        }
      }
      UpdateGrid();
    }

    /** The plain branch of move: the head goes in and the tail comes out. */
    method Advance(h: Cell)
      requires InBounds(h) && |snake| >= 1
      requires h !in snake && h !in greenApples && redApple != Some(h)
      modifies this`snake, this`grid
      ensures snake == [h] + old(snake)[..|old(snake)| - 1] && |snake| == |old(snake)|
      ensures fresh(grid) && GridMatches()
      ensures old(Valid()) ==> Valid()
      ensures old(Disjoint()) ==> Disjoint()
    {
      if Disjoint() {
        AdvanceKeepsApart(snake, greenApples, redApple, h);
      }
      OnBoardPush(h, snake);
      snake := [h] + snake;
      OnBoardPrefix(snake, |snake| - 1);
      snake := snake[..|snake| - 1];
      UpdateGrid();
    }

    /** update_grid: a fresh all-zero grid, then snake cells 1, green
        apples 2 and the red apple 3, each written over the last. */
    method UpdateGrid()
      modifies this`grid
      ensures fresh(grid) && GridMatches()
    {
      var g := new int[HEIGHT, WIDTH]((i, j) => 0);
      for i := 0 to |snake|
        invariant forall y, x {:trigger g[y, x]} :: 0 <= y < HEIGHT && 0 <= x < WIDTH ==>
                    g[y, x] == (if (x, y) in snake[..i] then 1 else 0)
      {
        var cell := snake[i];
        assert snake[..i + 1] == snake[..i] + [cell];
        if 0 <= cell.0 < WIDTH && 0 <= cell.1 < HEIGHT {
          g[cell.1, cell.0] := 1;
        }
      }
      assert snake[..|snake|] == snake;
      for i := 0 to |greenApples|
        invariant forall y, x {:trigger g[y, x]} :: 0 <= y < HEIGHT && 0 <= x < WIDTH ==>
                    g[y, x] == (if (x, y) in greenApples[..i] then 2 else if (x, y) in snake then 1 else 0)
      {
        var cell := greenApples[i];
        assert greenApples[..i + 1] == greenApples[..i] + [cell];
        if 0 <= cell.0 < WIDTH && 0 <= cell.1 < HEIGHT {
          g[cell.1, cell.0] := 2;
        }
      }
      assert greenApples[..|greenApples|] == greenApples;
      if redApple.Some? {
        var cell := redApple.value;
        if 0 <= cell.0 < WIDTH && 0 <= cell.1 < HEIGHT {
          g[cell.1, cell.0] := 3;
        }
      }
      grid := g;
    }

    /** _cell_symbol: "W" off the board, then "H", "S", "G", "R", else "0". */
    function CellSymbol(x: int, y: int): (s: Symbol)
      reads this
      requires !InBounds((x, y)) || |snake| >= 1
      ensures s == Wall <==> !InBounds((x, y))
      ensures s == Empty <==> IsFree((x, y), snake, greenApples, redApple)
    {
      if !(0 <= x < WIDTH && 0 <= y < HEIGHT) then Wall
      else if (x, y) == snake[0] then Head
      else if (x, y) in snake then Body
      else if (x, y) in greenApples then Green
      else if Some((x, y)) == redApple then Red
      else Empty
    }

    /** The symbols of the cells after c along d, up to and including the
        first cell off the board. */
    function Ray(c: Cell, d: Cell): (r: seq<Symbol>)
      reads this
      requires d != (0, 0) && |snake| >= 1
      ensures |r| >= 1 && r[|r| - 1] == Wall
      decreases Fuel(c, d)
    {
      var n := Step(c, d);
      var s := CellSymbol(n.0, n.1);
      if s == Wall then [s] else [s] + Ray(n, d)
    }

    /** What look_direction returns: "H" followed by the ray from the head. */
    function Sight(d: Cell): seq<Symbol>
      reads this
      requires d != (0, 0) && |snake| >= 1
    {
      [Head] + Ray(snake[0], d)
    }

    /** One step of a ray: the next cell's symbol, then the ray from there
        unless that symbol is "W". */
    lemma RayStep(c: Cell, d: Cell)
      requires d != (0, 0) && |snake| >= 1
      ensures var n := Step(c, d);
        && (CellSymbol(n.0, n.1) == Wall ==> Ray(c, d) == [Wall])
        && (CellSymbol(n.0, n.1) != Wall ==>
              Ray(c, d) == [CellSymbol(n.0, n.1)] + Ray(n, d) && Fuel(n, d) < Fuel(c, d))
    {
    }

    /** A ray holds exactly one "W", at its end. */
    lemma {:induction false} RayWallOnlyLast(c: Cell, d: Cell)
      requires d != (0, 0) && |snake| >= 1
      ensures forall k :: 0 <= k < |Ray(c, d)| - 1 ==> Ray(c, d)[k] != Wall
      decreases Fuel(c, d)
    {
      var n := Step(c, d);
      RayStep(c, d);
      if CellSymbol(n.0, n.1) != Wall {
        RayWallOnlyLast(n, d);
        var r := Ray(c, d);
        forall k | 0 <= k < |r| - 1 ensures r[k] != Wall {
          if k > 0 {
            assert r[k] == Ray(n, d)[k - 1];
          }
        }
      }
    }

    lemma {:induction false} RayLength(c: Cell, d: Cell)
      requires IsUnit(d) && InBounds(c) && |snake| >= 1
      ensures |Ray(c, d)| == WallDistance(c, d)
      decreases Fuel(c, d)
    {
      var n := Step(c, d);
      if InBounds(n) {
        RayLength(n, d);
      }
    }

    lemma {:induction false} RayAvoidsHead(c: Cell, d: Cell)
      requires IsUnit(d) && |snake| >= 1
      requires Progress(snake[0], d) <= Progress(c, d)
      ensures Head !in Ray(c, d)
      decreases Fuel(c, d)
    {
      var n := Step(c, d);
      assert Progress(n, d) == Progress(c, d) + 1;
      if InBounds(n) {
        RayAvoidsHead(n, d);
      }
    }

    /** look_direction: walks from the head one step at a time, appending
        each cell's symbol, and stops after the first "W". */
    method LookDirection(dx: int, dy: int) returns (vision: seq<Symbol>)
      requires |snake| >= 1
      requires dx != 0 || dy != 0
      ensures vision == Sight((dx, dy))
      ensures |vision| >= 2 && vision[0] == Head && vision[|vision| - 1] == Wall
      ensures forall k :: 0 <= k < |vision| - 1 ==> vision[k] != Wall
      ensures IsUnit((dx, dy)) ==> forall k :: 1 <= k < |vision| - 1 ==> vision[k] in {Body, Green, Red, Empty}
      ensures IsUnit((dx, dy)) && InBounds(snake[0]) ==> |vision| == WallDistance(snake[0], (dx, dy)) + 1
    {
      vision := [];
      var x, y := snake[0].0, snake[0].1;
      vision := vision + [Head];
      while true
        invariant vision + Ray((x, y), (dx, dy)) == Sight((dx, dy))
        decreases Fuel((x, y), (dx, dy))
      {
        RayStep((x, y), (dx, dy));
        ghost var seen, here := vision, (x, y);
        x := x + dx;
        y := y + dy;
        assert (x, y) == Step(here, (dx, dy));
        var symbol := CellSymbol(x, y);
        vision := vision + [symbol];
        if symbol == Wall {
          break;
        }
        AppendAssoc(seen, [symbol], Ray((x, y), (dx, dy)));
      }
      SightShape((dx, dy));
    }

    /** The shape of a ray look_direction returns: "H" first, then cells up
        to the first "W", which ends it; along a unit direction the head
        is never seen again and the length is the distance to the edge. */
    lemma SightShape(d: Cell)
      requires |snake| >= 1 && d != (0, 0)
      ensures var v := Sight(d);
        && |v| >= 2 && v[0] == Head && v[|v| - 1] == Wall
        && (forall k :: 0 <= k < |v| - 1 ==> v[k] != Wall)
        && (IsUnit(d) ==> forall k :: 1 <= k < |v| - 1 ==> v[k] in {Body, Green, Red, Empty})
        && (IsUnit(d) && InBounds(snake[0]) ==> |v| == WallDistance(snake[0], d) + 1)
    {
      RayWallOnlyLast(snake[0], d);
      if IsUnit(d) {
        RayAvoidsHead(snake[0], d);
        if InBounds(snake[0]) {
          RayLength(snake[0], d);
        }
      }
    }

    /** get_state: the four rays in the order UP, RIGHT, DOWN, LEFT. */
    method GetState() returns (state: (seq<Symbol>, seq<Symbol>, seq<Symbol>, seq<Symbol>))
      requires |snake| >= 1
      ensures state == (Sight(UP), Sight(RIGHT), Sight(DOWN), Sight(LEFT))
    {
      var up := LookDirection(0, -1);
      var right := LookDirection(1, 0);
      var down := LookDirection(0, 1);
      var left := LookDirection(-1, 0);
      state := (up, right, down, left);
    }
  }
}
