/** Day 22, part 1: walking a flat board of open tiles and walls whose
    edges wrap around to the far end of the same row or column, following
    a path of step counts and turns, and reporting the final position as
    a password. */
module MonkeyMap {
  import opened Results
  import PyText
  import PySlice

  /** A board position `(row, column)`, both counted from 0. */
  type Tile = (int, int)

  /** The four facings, in the clockwise order of `CW_TURNS`. */
  datatype Facing = Right | Down | Left | Up

  /** A facing's place in the clockwise order, which is also what it adds
      to the password. */
  function Index(f: Facing): (i: nat)
    ensures i < 4
  {
    match f
    case Right => 0
    case Down => 1
    case Left => 2
    case Up => 3
  }

  /** `CW_TURNS[i]` */
  function FacingAt(i: nat): (f: Facing)
    requires i < 4
    ensures Index(f) == i
  {
    if i == 0 then Right else if i == 1 then Down else if i == 2 then Left else Up
  }

  /** `turn`: the letter "L" steps back through the clockwise order, index
      -1 selecting the last entry as Python list indexing does; every other
      letter steps forward, wrapping from 4 to 0. */
  function Turn(f: Facing, letter: string): (r: Facing)
    ensures letter == "L" ==> Index(r) == (Index(f) + 3) % 4
    ensures letter != "L" ==> Index(r) == (Index(f) + 1) % 4
  {
    if letter == "L" then
      var back := Index(f) - 1;
      FacingAt(if back < 0 then back + 4 else back)
    else
      var ahead := Index(f) + 1;
      FacingAt(if ahead == 4 then 0 else ahead)
  }

  /** A left turn undoes any other turn and the other way round. */
  lemma TurnInverse(f: Facing, letter: string)
    requires letter != "L"
    ensures Turn(Turn(f, letter), "L") == f
    ensures Turn(Turn(f, "L"), letter) == f
  {
  }

  /** Four turns the same way face the original way again. */
  lemma FourTurns(f: Facing, letter: string)
    ensures Turn(Turn(Turn(Turn(f, letter), letter), letter), letter) == f
  {
  }

  /** Coordinate `dim` of a tile: 0 is the row, 1 the column. */
  function Coord(t: Tile, dim: nat): int
    requires dim < 2
  {
    if dim == 0 then t.0 else t.1
  }

  /** `a` lies strictly further than `b` along `dim` in the searched
      direction (`largest` for `np.argmax`, otherwise `np.argmin`). */
  predicate Beyond(a: Tile, b: Tile, dim: nat, largest: bool)
    requires dim < 2
  {
    if largest then Coord(a, dim) > Coord(b, dim) else Coord(a, dim) < Coord(b, dim)
  }

  /** The first element of `cs` that nothing in `cs` lies beyond: what
      `list(cs)[np.argmin(...)]` selects, `np.argmin` and `np.argmax`
      returning the first extreme position. */
  function Pick(cs: seq<Tile>, dim: nat, largest: bool): (r: Option<Tile>)
    requires dim < 2
    ensures r.None? <==> cs == []
    ensures r.Some? ==> r.value in cs
    ensures r.Some? ==> forall c :: c in cs ==> !Beyond(c, r.value, dim, largest)
  {
    if cs == [] then None
    else
      assert forall c :: c in cs ==> c == cs[0] || c in cs[1..];
      match Pick(cs[1..], dim, largest)
      case None => Some(cs[0])
      case Some(t) => if Beyond(t, cs[0], dim, largest) then Some(t) else Some(cs[0])
  }

  /** The tiles of `cs` whose other coordinate is `fixed`, in order. */
  function Filter(cs: seq<Tile>, fixed: int, dim: nat): (r: seq<Tile>)
    requires dim < 2
    ensures forall t :: t in r <==> t in cs && Coord(t, 1 - dim) == fixed
  {
    if cs == [] then []
    else (if Coord(cs[0], 1 - dim) == fixed then [cs[0]] else []) + Filter(cs[1..], fixed, dim)
  }

  /** Which reading of `get_minmax_element_across_dim` a walk uses: the
      code as written only filters when `fixed_index` is truthy, so row 0
      and column 0 search the whole board; the corrected reading always
      filters. */
  datatype Variant = AsWritten | Corrected

  /** Whether tile `c` takes part in the search along `dim` with the
      other coordinate fixed at `fixed`. */
  predicate Candidate(c: Tile, fixed: int, dim: nat, v: Variant)
    requires dim < 2
  {
    (v == AsWritten && fixed == 0) || Coord(c, 1 - dim) == fixed
  }

  /** `get_minmax_element_across_dim(cs, fixed, minmax, dim)`; no candidate
      at all makes numpy index an empty array: IndexError. */
  function Extreme(cs: seq<Tile>, fixed: int, dim: nat, largest: bool, v: Variant): (r: Result<Tile>)
    requires dim < 2
    ensures r.Err? <==> forall c :: c in cs ==> !Candidate(c, fixed, dim, v)
    ensures r.Err? ==> r.error == "IndexError"
    ensures r.Ok? ==> r.value in cs && Candidate(r.value, fixed, dim, v)
    ensures r.Ok? ==> forall c :: c in cs && Candidate(c, fixed, dim, v) ==> !Beyond(c, r.value, dim, largest)
  {
    var valid := if v == AsWritten && fixed == 0 then cs else Filter(cs, fixed, dim);
    match Pick(valid, dim, largest)
    case None => Err("IndexError")
    case Some(t) => Ok(t)
  }

  /** The open tiles and the walls, each listed row by row. Python keeps
      them in sets; where the order matters (ties in `Pick`) the model
      lists the open tiles before the walls. */
  datatype Board = Board(open: seq<Tile>, walls: seq<Tile>)

  /** `open_tiles.union(walls)` */
  function Tiles(b: Board): seq<Tile>
  {
    b.open + b.walls
  }

  datatype State = State(pos: Tile, facing: Facing)

  /** The neighbouring position one step along `f`. */
  function Ahead(t: Tile, f: Facing): Tile
  {
    match f
    case Right => (t.0, t.1 + 1)
    case Left => (t.0, t.1 - 1)
    case Up => (t.0 - 1, t.1)
    case Down => (t.0 + 1, t.1)
  }

  /** Where a walk leaving the board at `next` re-enters it: the left-most
      tile of the row when facing right, the right-most when facing left,
      the bottom-most of the column when facing up and the top-most when
      facing down. */
  function Wrap(b: Board, f: Facing, next: Tile, v: Variant): (r: Result<Tile>)
    ensures r.Ok? ==> r.value in Tiles(b)
    ensures f == Right ==> r == Extreme(Tiles(b), next.0, 1, false, v)
    ensures f == Left ==> r == Extreme(Tiles(b), next.0, 1, true, v)
    ensures f == Up ==> r == Extreme(Tiles(b), next.1, 0, true, v)
    ensures f == Down ==> r == Extreme(Tiles(b), next.1, 0, false, v)
  {
    match f
    case Right => Extreme(Tiles(b), next.0, 1, false, v)
    case Left => Extreme(Tiles(b), next.0, 1, true, v)
    case Up => Extreme(Tiles(b), next.1, 0, true, v)
    case Down => Extreme(Tiles(b), next.1, 0, false, v)
  }

  /** `Grid.move`: one step, answering whether the walk may go on. A wall
      straight ahead stops the walk; a wall at the far end of a wrap keeps
      the position but lets the walk go on. */
  function Move(b: Board, s: State, v: Variant): (r: Result<(State, bool)>)
    ensures r.Ok? ==> r.value.0.facing == s.facing
    ensures r.Ok? && !r.value.1 <==> Ahead(s.pos, s.facing) in b.walls
    ensures r.Ok? && !r.value.1 ==> r.value.0 == s
    ensures r.Ok? && r.value.0.pos != s.pos ==> r.value.0.pos in b.open
    ensures r.Err? ==> r.error == "IndexError"
    ensures Ahead(s.pos, s.facing) !in b.walls && Ahead(s.pos, s.facing) in b.open ==>
              r == Ok((State(Ahead(s.pos, s.facing), s.facing), true))
    ensures Ahead(s.pos, s.facing) !in b.walls && Ahead(s.pos, s.facing) !in b.open ==>
              var w := Wrap(b, s.facing, Ahead(s.pos, s.facing), v);
              (r.Ok? <==> w.Ok?) &&
              (w.Ok? ==> r.value == (if w.value in b.walls then s else State(w.value, s.facing), true))
  {
    var next := Ahead(s.pos, s.facing);
    if next in b.walls then Ok((s, false))
    else if next in b.open then Ok((State(next, s.facing), true))
    else
      var target :- Wrap(b, s.facing, next, v);
      if target in b.walls then Ok((s, true)) else Ok((State(target, s.facing), true))
  }

  /** From a tile of the board a step never fails: the current tile itself
      is always among the wrap candidates. */
  lemma MoveSound(b: Board, s: State, v: Variant)
    requires s.pos in b.open
    ensures Move(b, s, v).Ok?
    ensures Move(b, s, v).value.0.pos in b.open
  {
    var next := Ahead(s.pos, s.facing);
    if next !in b.walls && next !in b.open {
      assert s.pos in Tiles(b);
      match s.facing
      case Right => assert Candidate(s.pos, next.0, 1, v);
      case Left => assert Candidate(s.pos, next.0, 1, v);
      case Up => assert Candidate(s.pos, next.1, 0, v);
      case Down => assert Candidate(s.pos, next.1, 0, v);
    }
  }

  /** With the corrected search a step keeps the row when facing right or
      left and the column when facing up or down. */
  lemma StaysInLine(b: Board, s: State)
    ensures Move(b, s, Corrected).Ok? && (s.facing == Right || s.facing == Left)
      ==> Move(b, s, Corrected).value.0.pos.0 == s.pos.0
    ensures Move(b, s, Corrected).Ok? && (s.facing == Up || s.facing == Down)
      ==> Move(b, s, Corrected).value.0.pos.1 == s.pos.1
  {
  }

  /** The board of the counterexample: two rows, the top one lacking its
      left-most column. */
  function Notched(): Board
  {
    Board([(0, 1), (0, 2), (1, 0), (1, 1), (1, 2)], [])
  }

  /** Walking right off the end of row 0: the code as written searches the
      whole board for the left-most tile and lands in row 1, the corrected
      search re-enters row 0. */
  lemma ZeroRowWrap()
    ensures Move(Notched(), State((0, 2), Right), AsWritten) == Ok((State((1, 0), Right), true))
    ensures Move(Notched(), State((0, 2), Right), Corrected) == Ok((State((0, 1), Right), true))
  {
    var b, s := Notched(), State((0, 2), Right);
    assert Ahead(s.pos, s.facing) !in b.walls && Ahead(s.pos, s.facing) !in b.open by {
      assert Ahead(s.pos, s.facing) == (0, 3);
    }
    NotchedWraps();
    assert Move(b, s, AsWritten) == Ok((State((1, 0), Right), true)) by {
      assert (1, 0) !in b.walls;
    }
    assert Move(b, s, Corrected) == Ok((State((0, 1), Right), true)) by {
      assert (0, 1) !in b.walls;
    }
  }

  /** Where the two searches re-enter the board from `(0, 3)`. */
  lemma NotchedWraps()
    ensures Wrap(Notched(), Right, (0, 3), AsWritten) == Ok((1, 0))
    ensures Wrap(Notched(), Right, (0, 3), Corrected) == Ok((0, 1))
  {
    var tiles := Tiles(Notched());
    assert tiles == [(0, 1), (0, 2), (1, 0), (1, 1), (1, 2)];
    var whole := Extreme(tiles, 0, 1, false, AsWritten);
    assert Candidate((1, 0), 0, 1, AsWritten) && (1, 0) in tiles;
    assert !Beyond((1, 0), whole.value, 1, false);
    var row := Extreme(tiles, 0, 1, false, Corrected);
    assert Candidate((0, 1), 0, 1, Corrected) && (0, 1) in tiles;
    assert !Beyond((0, 1), row.value, 1, false);
  }

  /** `steps` moves as `for _ in range(steps)`; when `stopAtWall` the loop
      breaks on the first move that reports a wall ahead. */
  function Steps(b: Board, s: State, steps: int, stopAtWall: bool, v: Variant): (r: Result<State>)
    decreases steps
  {
    if steps <= 0 then Ok(s)
    else
      var step :- Move(b, s, v);
      if stopAtWall && !step.1 then Ok(step.0) else Steps(b, step.0, steps - 1, stopAtWall, v)
  }

  /** Against a wall a step changes nothing, however often it is taken. */
  lemma {:induction false} Blocked(b: Board, s: State, steps: int, v: Variant)
    requires Move(b, s, v) == Ok((s, false))
    ensures Steps(b, s, steps, false, v) == Ok(s)
    decreases steps
  {
    if steps > 0 {
      Blocked(b, s, steps - 1, v);
    }
  }

  /** Breaking out of the loop at a wall is only a shortcut: the walk ends
      where the unbroken loop ends. */
  lemma {:induction false} BreakIsShortcut(b: Board, s: State, steps: int, v: Variant)
    ensures Steps(b, s, steps, true, v) == Steps(b, s, steps, false, v)
    decreases steps
  {
    if steps > 0 {
      var step := Move(b, s, v);
      if step.Ok? {
        if step.value.1 {
          BreakIsShortcut(b, step.value.0, steps - 1, v);
        } else {
          Blocked(b, s, steps - 1, v);
        }
      }
    }
  }

  /** A walk starting on an open tile never fails and stays on open tiles,
      facing the same way. */
  lemma {:induction false} StepsSound(b: Board, s: State, steps: int, stopAtWall: bool, v: Variant)
    requires s.pos in b.open
    ensures Steps(b, s, steps, stopAtWall, v).Ok?
    ensures Steps(b, s, steps, stopAtWall, v).value.pos in b.open
    ensures Steps(b, s, steps, stopAtWall, v).value.facing == s.facing
    decreases steps
  {
    if steps > 0 {
      MoveSound(b, s, v);
      StepsSound(b, Move(b, s, v).value.0, steps - 1, stopAtWall, v);
    }
  }

  /** The main loop over `(steps, letter)` pairs: walk until a wall, then
      turn. */
  function Follow(b: Board, s: State, plan: seq<(int, string)>, v: Variant): (r: Result<State>)
    decreases |plan|
  {
    if plan == [] then Ok(s)
    else
      var walked :- Steps(b, s, plan[0].0, true, v);
      Follow(b, State(walked.pos, Turn(walked.facing, plan[0].1)), plan[1..], v)
  }

  lemma {:induction false} FollowSound(b: Board, s: State, plan: seq<(int, string)>, v: Variant)
    requires s.pos in b.open
    ensures Follow(b, s, plan, v).Ok?
    ensures Follow(b, s, plan, v).value.pos in b.open
    decreases |plan|
  {
    if plan != [] {
      StepsSound(b, s, plan[0].0, true, v);
      var walked := Steps(b, s, plan[0].0, true, v).value;
      FollowSound(b, State(walked.pos, Turn(walked.facing, plan[0].1)), plan[1..], v);
    }
  }

  /** A maximal stretch of digits or of non-digits. */
  predicate Run(w: string)
  {
    w != [] && forall k :: 0 <= k < |w| ==> PyText.IsDigit(w[k]) == PyText.IsDigit(w[0])
  }

  function Concat(ws: seq<string>): string
  {
    if ws == [] then [] else ws[0] + Concat(ws[1..])
  }

  /** Runs that follow each other switch between digits and non-digits. */
  predicate Alternating(ws: seq<string>)
  {
    forall k :: 0 <= k < |ws| - 1 ==> Switches(ws[k], ws[k + 1])
  }

  /** `a` and `b` start with different kinds of character. */
  predicate Switches(a: string, b: string)
  {
    a != [] && b != [] && PyText.IsDigit(a[0]) != PyText.IsDigit(b[0])
  }

  /** `filter(None, re.split(r'(\d+)', text))`: the split with a capturing
      group keeps the digit runs and the text between them, and the filter
      drops the empty pieces, leaving the maximal runs in order. */
  function Runs(text: string): (r: seq<string>)
    ensures forall k :: 0 <= k < |r| ==> Run(r[k])
    ensures Alternating(r)
    ensures Concat(r) == text
  {
    if text == [] then []
    else
      var rest := Runs(text[1..]);
      if rest != [] && PyText.IsDigit(rest[0][0]) == PyText.IsDigit(text[0]) then
        assert text == [text[0]] + rest[0] + Concat(rest[1..]);
        [[text[0]] + rest[0]] + rest[1..]
      else
        assert text == [text[0]] + Concat(rest);
        [[text[0]]] + rest
  }

  /** A run put in front of text that starts with the other kind (or is
      empty) becomes a run of its own. */
  lemma {:induction false} RunsFront(w: string, rest: string)
    requires Run(w)
    requires rest != [] ==> PyText.IsDigit(rest[0]) != PyText.IsDigit(w[0])
    ensures Runs(w + rest) == [w] + Runs(rest)
    decreases |w|
  {
    if |w| == 1 {
      assert (w + rest)[1..] == rest;
      var r := Runs(rest);
      assert r != [] ==> r[0][0] == rest[0] by {
        if r != [] {
          assert Concat(r) == r[0] + Concat(r[1..]);
        }
      }
    } else {
      RunsFront(w[1..], rest);
      assert (w + rest)[1..] == w[1..] + rest;
      assert [w[0]] + w[1..] == w;
    }
  }

  /** Splitting alternating runs glued together gives them back. */
  lemma {:induction false} RunsConcat(ws: seq<string>)
    requires forall k :: 0 <= k < |ws| ==> Run(ws[k])
    requires Alternating(ws)
    ensures Runs(Concat(ws)) == ws
  {
    if ws != [] {
      RunsConcat(ws[1..]);
      if |ws| > 1 {
        assert Concat(ws[1..]) == ws[1] + Concat(ws[2..]);
        assert Concat(ws[1..])[0] == ws[1][0];
      }
      RunsFront(ws[0], Concat(ws[1..]));
    }
  }

  /** `(int(count), letter)`: a count that is not a number raises
      ValueError. */
  function Pair(count: string, letter: string): (r: Result<(int, string)>)
    ensures r.Ok? <==> PyText.ParseInt(count).Some?
    ensures r.Ok? ==> r.value == (PyText.ParseInt(count).value, letter)
    ensures r.Err? ==> r.error == "ValueError"
  {
    match PyText.ParseInt(count)
    case None => Err("ValueError")
    case Some(n) => Ok((n, letter))
  }

  /** The path description: `(steps, letter)` pairs, and the trailing step
      count when the runs number an odd count (kept as text: Python parses
      it only after the main loop). */
  datatype Plan = Plan(pairs: seq<(int, string)>, last: Option<string>)

  /** The runs taken two at a time, as `range(0, len(movements), 2)`
      visits them. */
  function Chunks(runs: seq<string>): (r: seq<(string, string)>)
    requires |runs| % 2 == 0
    ensures 2 * |r| == |runs|
    ensures forall k :: 0 <= k < |r| ==> r[k] == (runs[2 * k], runs[2 * k + 1])
    decreases |runs|
  {
    if runs == [] then []
    else
      var rest := Chunks(runs[2..]);
      assert forall k :: 0 <= k < |rest| ==> rest[k] == (runs[2 * (k + 1)], runs[2 * (k + 1) + 1]);
      [(runs[0], runs[1])] + rest
  }

  /** The list comprehension over the chunks: the first count that is not
      a number raises. */
  function PairsOf(chunks: seq<(string, string)>): (r: Result<seq<(int, string)>>)
    ensures r.Err? ==> r.error == "ValueError"
    ensures r.Ok? <==> forall k :: 0 <= k < |chunks| ==> Pair(chunks[k].0, chunks[k].1).Ok?
    ensures r.Ok? ==> |r.value| == |chunks|
    ensures r.Ok? ==> forall k :: 0 <= k < |chunks| ==> Pair(chunks[k].0, chunks[k].1) == Ok(r.value[k])
  {
    if chunks == [] then Ok([])
    else
      var p :- Pair(chunks[0].0, chunks[0].1);
      var rest :- PairsOf(chunks[1..]);
      Ok([p] + rest)
  }

  /** The runs of the path line, paired up after the trailing count (when
      the number of runs is odd) has been popped. */
  function PlanOf(runs: seq<string>): (r: Result<Plan>)
    ensures r.Err? ==> r.error == "ValueError"
    ensures r.Ok? <==> forall k :: 0 <= k < |runs| / 2 ==> Pair(runs[2 * k], runs[2 * k + 1]).Ok?
    ensures r.Ok? ==> (r.value.last.Some? <==> |runs| % 2 == 1)
    ensures r.Ok? && r.value.last.Some? ==> r.value.last.value == runs[|runs| - 1]
    ensures r.Ok? ==> |r.value.pairs| == |runs| / 2
    ensures r.Ok? ==> forall k :: 0 <= k < |r.value.pairs| ==> Pair(runs[2 * k], runs[2 * k + 1]) == Ok(r.value.pairs[k])
  {
    var odd := |runs| % 2 != 0;
    var body := if odd then runs[..|runs| - 1] else runs;
    assert |body| == 2 * (|runs| / 2);
    var chunks := Chunks(body);
    assert forall k :: 0 <= k < |chunks| ==> chunks[k] == (runs[2 * k], runs[2 * k + 1]);
    var pairs :- PairsOf(chunks);
    Ok(Plan(pairs, if odd then Some(runs[|runs| - 1]) else None))
  }

  function ParsePlan(text: string): Result<Plan>
  {
    PlanOf(Runs(text))
  }

  /** A path description as the puzzle writes it: each count in decimal,
      then its turn letters, then the final count. */
  function Render(pairs: seq<(nat, string)>, last: nat): (ws: seq<string>)
  {
    if pairs == [] then [PyText.ShowNat(last)]
    else [PyText.ShowNat(pairs[0].0), pairs[0].1] + Render(pairs[1..], last)
  }

  /** Turn letters are non-empty and hold no digit. */
  predicate Letters(w: string)
  {
    w != [] && forall k :: 0 <= k < |w| ==> !PyText.IsDigit(w[k])
  }

  lemma {:induction false} RenderRuns(pairs: seq<(nat, string)>, last: nat)
    requires forall k :: 0 <= k < |pairs| ==> Letters(pairs[k].1)
    ensures |Render(pairs, last)| == 2 * |pairs| + 1
    ensures forall k :: 0 <= k < |Render(pairs, last)| ==> Run(Render(pairs, last)[k])
    ensures Alternating(Render(pairs, last))
    ensures forall k :: 0 <= k < |pairs| ==> Render(pairs, last)[2 * k] == PyText.ShowNat(pairs[k].0)
    ensures forall k :: 0 <= k < |pairs| ==> Render(pairs, last)[2 * k + 1] == pairs[k].1
    ensures Render(pairs, last)[2 * |pairs|] == PyText.ShowNat(last)
    decreases |pairs|
  {
    if pairs != [] {
      RenderRuns(pairs[1..], last);
      var rest := Render(pairs[1..], last);
      var ws := Render(pairs, last);
      assert ws == [PyText.ShowNat(pairs[0].0), pairs[0].1] + rest;
      assert Letters(pairs[0].1);
      assert PyText.IsDigit(rest[0][0]);
      forall k | 1 <= k < |pairs|
        ensures ws[2 * k] == PyText.ShowNat(pairs[k].0) && ws[2 * k + 1] == pairs[k].1
      {
        assert ws[2 * k] == rest[2 * (k - 1)];
        assert ws[2 * k + 1] == rest[2 * (k - 1) + 1];
        assert pairs[k] == pairs[1..][k - 1];
      }
    }
  }

  /** Reading back a rendered path description gives its pairs and its
      final count. */
  lemma ParseRender(pairs: seq<(nat, string)>, last: nat)
    requires forall k :: 0 <= k < |pairs| ==> Letters(pairs[k].1)
    ensures ParsePlan(Concat(Render(pairs, last))).Ok?
    ensures ParsePlan(Concat(Render(pairs, last))).value.last == Some(PyText.ShowNat(last))
    ensures |ParsePlan(Concat(Render(pairs, last))).value.pairs| == |pairs|
    ensures forall k :: 0 <= k < |pairs| ==>
      ParsePlan(Concat(Render(pairs, last))).value.pairs[k] == (pairs[k].0 as int, pairs[k].1)
  {
    var ws := Render(pairs, last);
    RenderRuns(pairs, last);
    RunsConcat(ws);
    var expected := seq(|pairs|, k requires 0 <= k < |pairs| => (pairs[k].0 as int, pairs[k].1));
    forall k | 0 <= k < |pairs|
      ensures Pair(ws[2 * k], ws[2 * k + 1]) == Ok(expected[k])
    {
      PairShown(pairs[k].0, pairs[k].1);
    }
    PlanOfPaired(ws, expected);
  }

  lemma PairShown(n: nat, letter: string)
    ensures Pair(PyText.ShowNat(n), letter) == Ok((n as int, letter))
  {
    PyText.ParseShow(n);
  }

  /** Runs whose counts all parse pair up into exactly those pairs, the
      odd run out becoming the final count. */
  lemma PlanOfPaired(ws: seq<string>, pairs: seq<(int, string)>)
    requires |ws| == 2 * |pairs| + 1
    requires forall k :: 0 <= k < |pairs| ==> Pair(ws[2 * k], ws[2 * k + 1]) == Ok(pairs[k])
    ensures PlanOf(ws) == Ok(Plan(pairs, Some(ws[2 * |pairs|])))
  {
    assert |ws| / 2 == |pairs|;
    var plan := PlanOf(ws);
    assert plan.Ok?;
    assert plan.value.pairs == pairs;
  }

  /** `np.where(row == c)` for row `i`: the columns holding `c`, left to
      right. */
  function RowMarks(row: string, i: int, c: char): (r: seq<Tile>)
    ensures forall t :: t in r <==> t.0 == i && 0 <= t.1 < |row| && row[t.1] == c
    ensures forall a, b :: 0 <= a < b < |r| ==> r[a].0 == i && r[a].1 < r[b].1
  {
    if row == [] then []
    else
      var front := RowMarks(row[..|row| - 1], i, c);
      front + (if row[|row| - 1] == c then [(i, |row| - 1)] else [])
  }

  /** `a` comes before `b` reading the board row by row. */
  predicate Before(a: Tile, b: Tile)
  {
    a.0 < b.0 || (a.0 == b.0 && a.1 < b.1)
  }

  /** Every position of the map rows holding `c`, row by row. */
  function Marked(rows: seq<string>, c: char): (r: seq<Tile>)
    ensures forall t :: t in r <==> 0 <= t.0 < |rows| && 0 <= t.1 < |rows[t.0]| && rows[t.0][t.1] == c
    ensures forall a, b :: 0 <= a < b < |r| ==> Before(r[a], r[b])
  {
    if rows == [] then []
    else
      var i := |rows| - 1;
      var front := Marked(rows[..i], c);
      var last := RowMarks(rows[i], i, c);
      assert forall a :: 0 <= a < |last| ==> last[a] in last;
      assert forall a :: 0 <= a < |front| ==> front[a] in front;
      front + last
  }

  /** `.` (46) is an open tile, `#` (35) a wall; every other character,
      the padding spaces included, is off the board. */
  function ParseBoard(rows: seq<string>): (b: Board)
  {
    Board(Marked(rows, '.'), Marked(rows, '#'))
  }

  /** The start is the first open tile reading row by row. */
  lemma StartIsFirst(rows: seq<string>, t: Tile)
    requires ParseBoard(rows).open != []
    requires 0 <= t.0 < |rows| && 0 <= t.1 < |rows[t.0]| && rows[t.0][t.1] == '.'
    ensures t == ParseBoard(rows).open[0] || Before(ParseBoard(rows).open[0], t)
  {
    var open := ParseBoard(rows).open;
    assert t in open;
    var k :| 0 <= k < |open| && open[k] == t;
  }

  /** No position is both open and a wall. */
  lemma BoardDisjoint(rows: seq<string>, t: Tile)
    ensures !(t in ParseBoard(rows).open && t in ParseBoard(rows).walls)
  {
  }

  /** `determine_password` */
  function Password(s: State): int
  {
    1000 * (s.pos.0 + 1) + 4 * (s.pos.1 + 1) + Index(s.facing)
  }

  /** Reading the row, column and facing back out of a password. */
  function Decode(p: int): (s: State)
  {
    State((p / 1000 - 1, p % 1000 / 4 - 1), FacingAt(p % 4))
  }

  lemma Thousands(a: int, low: int)
    requires 0 <= low < 1000
    ensures (1000 * a + low) / 1000 == a && (1000 * a + low) % 1000 == low
  {
  }

  lemma Quarters(a: int, low: int)
    requires 0 <= low < 4
    ensures (4 * a + low) / 4 == a && (4 * a + low) % 4 == low
  {
  }

  /** The password determines the final state whenever the column leaves
      room for the facing below the thousands. */
  lemma DecodePassword(s: State)
    requires 0 <= s.pos.1 < 249
    ensures Decode(Password(s)) == s
  {
    var low := 4 * (s.pos.1 + 1) + Index(s.facing);
    Thousands(s.pos.0 + 1, low);
    Quarters(s.pos.1 + 1, Index(s.facing));
    Quarters(250 * (s.pos.0 + 1) + s.pos.1 + 1, Index(s.facing));
    assert FacingAt(Index(s.facing)) == s.facing;
  }

  /** The final state of the walk over the puzzle input: the map is every
      line but the last two, the path is the last line. No line at all
      raises IndexError; a map without open tiles leaves the start `None`,
      which the grid fails to unpack (TypeError). */
  function Finish(lines: seq<string>, v: Variant): (r: Result<State>)
    ensures lines == [] ==> r == Err("IndexError")
    ensures lines != [] && ParseBoard(PySlice.To(lines, -2)).open == [] ==> r == Err("TypeError")
  {
    if lines == [] then Err("IndexError")
    else
      var board := ParseBoard(PySlice.To(lines, -2));
      if board.open == [] then Err("TypeError")
      else
        var plan :- ParsePlan(lines[|lines| - 1]);
        var walked :- Follow(board, State(board.open[0], Right), plan.pairs, v);
        match plan.last
        case None => Ok(walked)
        case Some(count) =>
          match PyText.ParseInt(count)
          case None => Err("ValueError")
          case Some(n) => Steps(board, walked, n, false, v)
  }

  /** The part-1 answer: with `AsWritten` the password the script prints,
      with `Corrected` the one the intended wrap search gives. */
  function Part1(lines: seq<string>, v: Variant): (r: Result<int>)
  {
    var s :- Finish(lines, v);
    Ok(Password(s))
  }

  /** A walk that gets going ends on an open tile of the map, and only a
      malformed path can stop it. */
  lemma FinishSound(lines: seq<string>, v: Variant)
    requires lines != [] && ParseBoard(PySlice.To(lines, -2)).open != []
    ensures Finish(lines, v).Err? ==> Finish(lines, v).error == "ValueError"
    ensures Finish(lines, v).Ok? ==> Finish(lines, v).value.pos in ParseBoard(PySlice.To(lines, -2)).open
  {
    var board := ParseBoard(PySlice.To(lines, -2));
    var plan := ParsePlan(lines[|lines| - 1]);
    if plan.Ok? {
      var start := State(board.open[0], Right);
      FollowSound(board, start, plan.value.pairs, v);
      var walked := Follow(board, start, plan.value.pairs, v).value;
      if plan.value.last.Some? && PyText.ParseInt(plan.value.last.value).Some? {
        StepsSound(board, walked, PyText.ParseInt(plan.value.last.value).value, false, v);
      }
    }
  }

  /** The part-1 password names an open tile of the map, with the search
      as written and with the corrected one. */
  lemma Part1OnMap(lines: seq<string>, v: Variant)
    requires Part1(lines, v).Ok?
    ensures var s := Finish(lines, v).value; var rows := PySlice.To(lines, -2);
      Part1(lines, v).value == Password(s) && 0 <= s.pos.0 < |rows| && 0 <= s.pos.1 < |rows[s.pos.0]|
      && rows[s.pos.0][s.pos.1] == '.'
  {
    FinishSound(lines, v);
  }
}
