/** Day 17: rocks falling into a chamber seven units wide.  Each rock
    appears with its lowest row four above the highest stopped rock, is
    pushed sideways by the next jet when that does not collide, and falls
    one row while that does not hit the floor or a stopped rock.  Rows grow
    upwards; the floor is row 0 and the walls are columns 0 and 8. */
module FallingRocks {
  import opened Results
  import opened Plane
  import PyText
  import Iteration

  // ------------------------------------------------------------- rocks

  /** A rock: shape `kind` shifted up by `row` rows and right by `col`
      columns.  `Rock.move` shifts every cell alike, so each rock the chamber
      ever holds is such a translate of its shape. */
  datatype Rock = Rock(kind: int, row: int, col: int)

  /** `Rock.indices`: the cells of the five shapes, shifted by the rock's
      offset; shape 1 is the horizontal bar, 4 the vertical one, and any
      kind beyond 4 the square. */
  function Cells(rock: Rock): set<Coord>
  {
    var i := rock.row;
    var j := rock.col;
    if rock.kind == 1 then {(i, j + 3), (i, j + 4), (i, j + 5), (i, j + 6)}
    else if rock.kind == 2 then {(i, j + 4), (i + 1, j + 3), (i + 1, j + 4), (i + 1, j + 5), (i + 2, j + 4)}
    else if rock.kind == 3 then {(i + 2, j + 5), (i + 1, j + 5), (i, j + 3), (i, j + 4), (i, j + 5)}
    else if rock.kind == 4 then {(i, j + 3), (i + 1, j + 3), (i + 2, j + 3), (i + 3, j + 3)}
    else {(i, j + 3), (i, j + 4), (i + 1, j + 3), (i + 1, j + 4)}
  }

  /** The shape itself, before any offset. */
  function Shape(kind: int): set<Coord>
  {
    Cells(Rock(kind, 0, 0))
  }

  /** Every shape starts in row 0, is at most four rows tall, keeps to
      columns 3 to 6 (two units from the left wall). */
  lemma ShapeBounds(kind: int)
    ensures forall c :: c in Shape(kind) ==> 0 <= c.0 <= 3 && 3 <= c.1 <= 6
    ensures Cell(0, 3) in Shape(kind) || Cell(0, 4) in Shape(kind)
  {
  }

  /** Every shape has four or five cells. */
  lemma ShapeSize(kind: int)
    ensures 4 <= |Shape(kind)| <= 5
  {
    if kind == 1 {
      Cells4((0, 3), (0, 4), (0, 5), (0, 6));
    } else if kind == 2 {
      Cells5((0, 4), (1, 3), (1, 4), (1, 5), (2, 4));
    } else if kind == 3 {
      Cells5((2, 5), (1, 5), (0, 3), (0, 4), (0, 5));
    } else if kind == 4 {
      Cells4((0, 3), (1, 3), (2, 3), (3, 3));
    } else {
      Cells4((0, 3), (0, 4), (1, 3), (1, 4));
    }
  }

  /** Four different cells make a set of four. */
  lemma Cells4(a: Coord, b: Coord, c: Coord, d: Coord)
    requires a != b && a != c && a != d && b != c && b != d && c != d
    ensures |{a, b, c, d}| == 4
  {
    assert {a, b, c, d} == {a, b, c} + {d};
    assert {a, b, c} == {a, b} + {c};
  }

  /** Five different cells make a set of five. */
  lemma Cells5(a: Coord, b: Coord, c: Coord, d: Coord, e: Coord)
    requires a != b && a != c && a != d && a != e && b != c && b != d && b != e
    requires c != d && c != e && d != e
    ensures |{a, b, c, d, e}| == 5
  {
    Cells4(a, b, c, d);
    assert {a, b, c, d, e} == {a, b, c, d} + {e};
  }

  /** A cell belongs to a rock exactly when it is a cell of its shape
      shifted by the rock's offset. */
  lemma CellsMember(rock: Rock, c: Coord)
    ensures c in Cells(rock) <==> (c.0 - rock.row, c.1 - rock.col) in Shape(rock.kind)
  {
  }

  /** A rock's cells are its shape translated by its offset, the way
      `Rock.__init__` lifts the shape. */
  lemma CellsTranslate(rock: Rock)
    ensures Cells(rock) == Translate(Shape(rock.kind), (rock.row, rock.col))
    ensures |Cells(rock)| == |Shape(rock.kind)|
  {
    forall c
      ensures c in Cells(rock) <==> c in Translate(Shape(rock.kind), (rock.row, rock.col))
    {
      CellsMember(rock, c);
      TranslateMember(Shape(rock.kind), (rock.row, rock.col), c);
    }
    TranslateSize(Shape(rock.kind), (rock.row, rock.col));
  }

  /** `Rock(shape, offset)`: the shape lifted by `offset` rows. */
  function Spawn(kind: int, offset: int): (r: Rock)
    ensures r.kind == kind && r.row == offset
  {
    Rock(kind, offset, 0)
  }

  /** A spawned rock holds the shape's cells lifted by the offset. */
  lemma SpawnCells(kind: int, offset: int)
    ensures Cells(Spawn(kind, offset)) == Translate(Shape(kind), (offset, 0))
  {
    CellsTranslate(Spawn(kind, offset));
  }

  /** A rock spans at most four rows from its offset, keeps to columns 3
      to 6 shifted by its column, and has a cell in its lowest row. */
  lemma RockBounds(rock: Rock)
    ensures forall c :: c in Cells(rock) ==> rock.row <= c.0 <= rock.row + 3 && rock.col + 3 <= c.1 <= rock.col + 6
    ensures Cell(rock.row, rock.col + 3) in Cells(rock) || Cell(rock.row, rock.col + 4) in Cells(rock)
  {
  }

  /** The four ways `Rock.move` can shift a rock. */
  datatype Move = Left | Right | Down | Up

  /** The move a jet character asks for: '<' and '>' push sideways, and
      `Rock.move` treats any other character as Up. */
  function JetMove(jet: char): Move
  {
    if jet == '<' then Left else if jet == '>' then Right else Up
  }

  function Delta(m: Move): Coord
  {
    match m
    case Left => (0, -1)
    case Right => (0, 1)
    case Down => (-1, 0)
    case Up => (1, 0)
  }

  /** `Rock.move`. */
  function MoveRock(rock: Rock, m: Move): (r: Rock)
    ensures r.kind == rock.kind
  {
    rock.(row := rock.row + Delta(m).0, col := rock.col + Delta(m).1)
  }

  /** Moving the rock moves every one of its cells by one unit, as
      `Rock.move` rewrites its index set. */
  lemma MoveCells(rock: Rock, m: Move)
    ensures Cells(MoveRock(rock, m)) == Translate(Cells(rock), Delta(m))
  {
    var moved := MoveRock(rock, m);
    forall c
      ensures c in Cells(moved) <==> c in Translate(Cells(rock), Delta(m))
    {
      MoveMember(rock, m, c);
      TranslateMember(Cells(rock), Delta(m), c);
    }
  }

  /** A cell is in the moved rock exactly when the cell one step back is
      in the rock. */
  lemma MoveMember(rock: Rock, m: Move, c: Coord)
    ensures c in Cells(MoveRock(rock, m)) <==> (c.0 - Delta(m).0, c.1 - Delta(m).1) in Cells(rock)
  {
    CellsMember(MoveRock(rock, m), c);
    CellsMember(rock, (c.0 - Delta(m).0, c.1 - Delta(m).1));
  }

  /** Whether a rock overlaps some of `parts`, the test `Tower.move` makes
      with `rock.indices.intersection(...)`. */
  predicate Hits(rock: Rock, parts: set<Coord>)
  {
    exists c :: c in Cells(rock) && c in parts
  }

  /** A hit is a non-empty intersection. */
  lemma HitsMeet(rock: Rock, parts: set<Coord>)
    ensures Hits(rock, parts) <==> Cells(rock) * parts != {}
  {
    if Hits(rock, parts) {
      var c :| c in Cells(rock) && c in parts;
      assert c in Cells(rock) * parts;
    }
    if Cells(rock) * parts != {} {
      var c :| c in Cells(rock) * parts;
      assert c in Cells(rock) && c in parts;
    }
  }

  /** `Tower._invert_lr`: '<' turns into '>', and every other character
      into '<'. */
  function Invert(jet: char): Move
  {
    if jet == '<' then Right else Left
  }

  predicate IsPush(jet: char)
  {
    jet == '<' || jet == '>'
  }

  /** The sideways step of `Tower.move`: the jet's move, reverted with the
      inverted direction when it collides with a static part. */
  function Push(rock: Rock, jet: char, fixed: set<Coord>): (r: Rock)
    ensures !Hits(MoveRock(rock, JetMove(jet)), fixed) ==> r == MoveRock(rock, JetMove(jet))
    ensures IsPush(jet) && Hits(MoveRock(rock, JetMove(jet)), fixed) ==> r == rock
    ensures r.kind == rock.kind
  {
    var pushed := MoveRock(rock, JetMove(jet));
    if Hits(pushed, fixed) then MoveRock(pushed, Invert(jet)) else pushed
  }

  // ------------------------------------------------------------- tower

  /** The highest row of a set of cells; 0 for no cells
      (`max_from_set(..., dim=0)`). */
  ghost function MaxRow(cells: set<Coord>): (m: int)
    ensures cells == {} ==> m == 0
    ensures forall c :: c in cells ==> c.0 <= m
    ensures cells != {} ==> exists c :: c in cells && c.0 == m
  {
    if cells == {} then 0 else Highest(cells, true)
  }

  /** The state of `Tower`: the jet pattern and the next jet, the floor,
      both walls, the stopped rock cells and the next shape. */
  datatype Tower = Tower(jets: string, jetIndex: nat, floor: set<Coord>, leftWall: set<Coord>,
                         rightWall: set<Coord>, stopped: set<Coord>, nextKind: int)

  /** `Tower.__init__`: a floor nine cells wide and walls three rows
      high. */
  function InitialTower(jets: string): Tower
  {
    Tower(jets, 0, {(0, 0), (0, 1), (0, 2), (0, 3), (0, 4), (0, 5), (0, 6), (0, 7), (0, 8)},
          {(1, 0), (2, 0), (3, 0)}, {(1, 8), (2, 8), (3, 8)}, {}, 1)
  }

  /** `get_all_static_parts`. */
  function Static(t: Tower): set<Coord>
  {
    t.floor + t.leftWall + t.rightWall + t.stopped
  }

  /** `_update_rock_index`. */
  function NextKind(kind: int): int
  {
    if kind + 1 == 6 then 1 else kind + 1
  }

  /** The shapes come round in the order 1, 2, 3, 4, 5, 1, ... */
  lemma KindCycles(kind: int)
    requires 1 <= kind <= 5
    ensures 1 <= NextKind(kind) <= 5
    ensures NextKind(kind) == kind % 5 + 1
  {
  }

  /** `_update_movement_index`. */
  function NextJet(index: nat, length: nat): nat
  {
    if index + 1 >= length then 0 else index + 1
  }

  /** The jets come round modulo the pattern's length. */
  lemma JetCycles(index: nat, length: nat)
    requires index < length
    ensures NextJet(index, length) < length
    ensures NextJet(index, length) == (index + 1) % length
  {
  }

  /** `_add_wall`: both walls grow from their current top up to
      `height`. */
  ghost function AddWall(t: Tower, height: int): (r: Tower)
    ensures r == t.(leftWall := r.leftWall, rightWall := r.rightWall)
    ensures forall c :: c in r.leftWall <==> c in t.leftWall || (c.1 == 0 && MaxRow(t.leftWall) <= c.0 <= height)
    ensures forall c :: c in r.rightWall <==> c in t.rightWall || (c.1 == 8 && MaxRow(t.leftWall) <= c.0 <= height)
  {
    WallRows(t, MaxRow(t.leftWall), height)
  }

  /** The loop of `_add_wall`: rows `from` to `height` join both walls, one
      row at a time. */
  ghost function WallRows(t: Tower, from: int, height: int): (r: Tower)
    ensures r == t.(leftWall := r.leftWall, rightWall := r.rightWall)
    ensures forall c :: c in r.leftWall <==> c in t.leftWall || (c.1 == 0 && from <= c.0 <= height)
    ensures forall c :: c in r.rightWall <==> c in t.rightWall || (c.1 == 8 && from <= c.0 <= height)
    decreases height - from
  {
    if from > height then t
    else WallRows(t.(leftWall := t.leftWall + {Cell(from, 0)}, rightWall := t.rightWall + {Cell(from, 8)}),
                  from + 1, height)
  }

  /** `Tower.move`: push, then fall one row, and repeat until the fall is
      blocked by the floor or a stopped rock; the rock then stops where it
      was.  Returns the tower and the rock where it stopped.  The
      recursion is bounded by `fuel`. */
  function Fall(t: Tower, rock: Rock, fuel: nat): (r: Result<(Tower, Rock)>)
    ensures r.Ok? ==> r.value.0 == t.(jetIndex := r.value.0.jetIndex, stopped := t.stopped + Cells(r.value.1))
    ensures r.Ok? ==> r.value.0.jetIndex < |t.jets| && r.value.1.kind == rock.kind
    ensures r.Ok? ==> Hits(MoveRock(r.value.1, Down), t.floor + t.stopped)
    ensures r.Err? && t.jetIndex < |t.jets| ==> r.error == "RecursionError"
    decreases fuel, 1
  {
    if fuel == 0 then Err("RecursionError")
    else if t.jetIndex >= |t.jets| then Err("IndexError")
    else Round(t, rock, fuel)
  }

  /** One pass of the loop in `Tower.move`: push with the current jet,
      step to the next jet, and either stop the rock or go on one row
      lower. */
  function Round(t: Tower, rock: Rock, fuel: nat): (r: Result<(Tower, Rock)>)
    requires 0 < fuel && t.jetIndex < |t.jets|
    ensures r.Ok? ==> r.value.0 == t.(jetIndex := r.value.0.jetIndex, stopped := t.stopped + Cells(r.value.1))
    ensures r.Ok? ==> r.value.0.jetIndex < |t.jets| && r.value.1.kind == rock.kind
    ensures r.Ok? ==> Hits(MoveRock(r.value.1, Down), t.floor + t.stopped)
    ensures r.Err? ==> r.error == "RecursionError"
    decreases fuel, 0
  {
    var pushed := Push(rock, t.jets[t.jetIndex], Static(t));
    var next := t.(jetIndex := NextJet(t.jetIndex, |t.jets|));
    var down := MoveRock(pushed, Down);
    if Hits(down, t.floor + t.stopped) then
      var rest := MoveRock(down, Up);
      Ok((next.(stopped := t.stopped + Cells(rest)), rest))
    else
      Fall(next, down, fuel - 1)
  }

  /** `Tower.add_rock`: the next shape four rows above the highest stopped
      cell, the walls raised to its top row, and the rock dropped. */
  ghost function AddRock(t: Tower, fuel: nat): (r: Result<Tower>)
    ensures r.Ok? ==> r.value.jets == t.jets && r.value.floor == t.floor && r.value.nextKind == NextKind(t.nextKind)
    ensures r.Ok? ==> t.stopped <= r.value.stopped
    ensures r.Err? && t.jetIndex < |t.jets| ==> r.error == "RecursionError"
  {
    var rock := Spawn(t.nextKind, MaxRow(t.stopped) + 4);
    var raised := AddWall(t.(nextKind := NextKind(t.nextKind)), MaxRow(Cells(rock)));
    match Fall(raised, rock, fuel)
    case Ok((done, _)) => Ok(done)
    case Err(e) => Err(e)
  }

  /** `n` calls of `add_rock`. */
  ghost function Simulate(t: Tower, n: nat, fuel: nat): Result<Tower>
  {
    Iteration.Repeat(t, n, Step(fuel))
  }

  /** `add_rock` as a step of the simulation. */
  ghost function Step(fuel: nat): Tower -> Result<Tower>
  {
    (t: Tower) => AddRock(t, fuel)
  }

  // ------------------------------------------------------------- the chamber stays sound

  /** Every jet is '<' or '>'. */
  predicate Pushes(jets: string)
  {
    forall k :: 0 <= k < |jets| ==> jets[k] == '<' || jets[k] == '>'
  }

  /** The floor is row 0 from column 0 to 8, and the walls are columns 0
      and 8 from row 1 up to `top`. */
  ghost predicate Chamber(t: Tower, top: int)
  {
    && (forall c :: c in t.floor <==> c.0 == 0 && 0 <= c.1 <= 8)
    && (forall c :: c in t.leftWall <==> c.1 == 0 && 1 <= c.0 <= top)
    && (forall c :: c in t.rightWall <==> c.1 == 8 && 1 <= c.0 <= top)
  }

  /** Cells strictly between the walls, above the floor and no higher than
      `top`. */
  predicate InShaft(cells: set<Coord>, top: int)
  {
    forall c :: c in cells ==> 1 <= c.0 <= top && 1 <= c.1 <= 7
  }

  predicate RowsAtMost(cells: set<Coord>, bound: int)
  {
    forall c :: c in cells ==> c.0 <= bound
  }

  /** The top row of the walls. */
  ghost function Top(t: Tower): int
  {
    MaxRow(t.leftWall)
  }

  /** What holds between two rocks when every jet is a push: the floor as
      built, walls solid up to their top, every stopped cell in the shaft
      below that top, and a valid next jet. */
  ghost predicate Sound(t: Tower)
  {
    && Top(t) >= 3
    && Chamber(t, Top(t))
    && 0 < |t.jets| && t.jetIndex < |t.jets| && Pushes(t.jets)
    && InShaft(t.stopped, Top(t))
  }

  lemma InitialSound(jets: string)
    requires jets != [] && Pushes(jets)
    ensures Sound(InitialTower(jets)) && Top(InitialTower(jets)) == 3
  {
    WallTop(InitialTower(jets), 3);
  }

  /** A rock in the shaft, clear of the stopped rocks. */
  predicate Free(t: Tower, top: int, rock: Rock, bound: int)
  {
    InShaft(Cells(rock), top) && !Hits(rock, t.stopped) && RowsAtMost(Cells(rock), bound)
  }

  /** A push keeps a rock in the shaft and off the stopped rocks. */
  lemma PushInShaft(t: Tower, top: int, rock: Rock, jet: char, bound: int)
    requires Chamber(t, top) && IsPush(jet) && Free(t, top, rock, bound)
    ensures Free(t, top, Push(rock, jet, Static(t)), bound)
  {
    var moved := MoveRock(rock, JetMove(jet));
    if !Hits(moved, Static(t)) {
      forall c | c in Cells(moved)
        ensures 1 <= c.0 <= top && 1 <= c.1 <= 7 && c.0 <= bound && c !in t.stopped
      {
        MoveMember(rock, JetMove(jet), c);
        var from := (c.0 - Delta(JetMove(jet)).0, c.1 - Delta(JetMove(jet)).1);
        assert from in Cells(rock) && from.0 == c.0;
        assert c !in t.leftWall && c !in t.rightWall && c !in t.stopped;
      }
    }
  }

  /** A rock in the shaft off the stopped rocks touches no static part,
      and a fall by one row that meets neither floor nor stopped rock stays
      in the shaft and one row lower. */
  lemma DropInShaft(t: Tower, top: int, p: Rock, bound: int)
    requires Chamber(t, top) && Free(t, top, p, bound)
    ensures !Hits(p, Static(t))
    ensures var d := MoveRock(p, Down);
            !Hits(d, t.floor + t.stopped) ==> Free(t, top, d, bound - 1)
  {
    var d := MoveRock(p, Down);
    forall c | c in Cells(p)
      ensures c !in Static(t)
    {
      assert c !in t.stopped;
      assert c !in t.floor && c !in t.leftWall && c !in t.rightWall && c !in t.stopped;
    }
    if !Hits(d, t.floor + t.stopped) {
      forall c | c in Cells(d)
        ensures 1 <= c.0 <= top && 1 <= c.1 <= 7 && c.0 <= bound - 1 && c !in t.stopped
      {
        MoveMember(p, Down, c);
        var from := (c.0 + 1, c.1);
        assert from in Cells(p);
        assert c !in t.floor + t.stopped;
        assert c !in t.floor;
      }
    }
  }

  /** One round of `Tower.move`, unfolded: the rock stops where the push
      left it when the fall is blocked, and otherwise the rock moves on
      from one row lower with the next jet. */
  lemma FallStep(t: Tower, rock: Rock, fuel: nat)
    requires fuel > 0 && t.jetIndex < |t.jets|
    ensures var pushed := Push(rock, t.jets[t.jetIndex], Static(t));
            var next := t.(jetIndex := NextJet(t.jetIndex, |t.jets|));
            var down := MoveRock(pushed, Down);
            if Hits(down, t.floor + t.stopped) then
              Fall(t, rock, fuel) == Ok((next.(stopped := t.stopped + Cells(pushed)), pushed))
            else
              Fall(t, rock, fuel) == Fall(next, down, fuel - 1)
  {
    assert Fall(t, rock, fuel) == Round(t, rock, fuel);
  }

  /** A rock that stopped in the shaft, clear of every static part. */
  predicate Settled(t: Tower, top: int, rock: Rock)
  {
    InShaft(Cells(rock), top) && !Hits(rock, Static(t))
  }

  /** The first round of the fall of a free rock: the rock either stops
      settled, or moves on from one row lower, still free, with the next
      jet and the same static parts. */
  lemma FallOnce(t: Tower, top: int, rock: Rock, fuel: nat, bound: int) returns (stops: bool, next: Tower, down: Rock)
    requires Chamber(t, top)
    requires t.jetIndex < |t.jets| && Pushes(t.jets)
    requires Free(t, top, rock, bound) && fuel >= bound
    ensures fuel > 0
    ensures down == MoveRock(Push(rock, t.jets[t.jetIndex], Static(t)), Down)
    ensures next == t.(jetIndex := NextJet(t.jetIndex, |t.jets|))
    ensures stops == Hits(down, t.floor + t.stopped)
    ensures stops ==> FallsSettled(t, top, rock, fuel)
    ensures !stops ==>
              && Fall(t, rock, fuel) == Fall(next, down, fuel - 1) && Static(next) == Static(t)
              && Chamber(next, top) && next.jetIndex < |next.jets| && Pushes(next.jets)
              && Free(next, top, down, bound - 1)
  {
    RockBounds(rock);
    assert Cell(rock.row, rock.col + 3) in Cells(rock) || Cell(rock.row, rock.col + 4) in Cells(rock);
    var jet := t.jets[t.jetIndex];
    var pushed := Push(rock, jet, Static(t));
    PushInShaft(t, top, rock, jet, bound);
    DropInShaft(t, top, pushed, bound);
    FallStep(t, rock, fuel);
    down := MoveRock(pushed, Down);
    next := t.(jetIndex := NextJet(t.jetIndex, |t.jets|));
    stops := Hits(down, t.floor + t.stopped);
  }

  /** The fall of `rock` ends with the rock settled. */
  ghost predicate FallsSettled(t: Tower, top: int, rock: Rock, fuel: nat)
  {
    match Fall(t, rock, fuel)
    case Ok((_, stopped)) => Settled(t, top, stopped)
    case Err(_) => false
  }

  /** With pushes only, a rock in the shaft whose rows are at most `bound`
      stops within `bound` steps, and it stops in the shaft, touching no
      floor, wall or stopped rock. */
  lemma {:induction false} FallSettles(t: Tower, top: int, rock: Rock, fuel: nat, bound: int)
    requires Chamber(t, top)
    requires t.jetIndex < |t.jets| && Pushes(t.jets)
    requires Free(t, top, rock, bound) && fuel >= bound
    ensures FallsSettled(t, top, rock, fuel)
    decreases fuel
  {
    var stops, next, down := FallOnce(t, top, rock, fuel, bound);
    if !stops {
      FallContinues(t, top, rock, fuel, next, down);
      FallSettles(next, top, down, fuel - 1, bound - 1);
    }
  }

  /** A fall that goes on as another one ends as that one does. */
  lemma FallContinues(t: Tower, top: int, rock: Rock, fuel: nat, next: Tower, down: Rock)
    requires fuel > 0 && Fall(t, rock, fuel) == Fall(next, down, fuel - 1) && Static(next) == Static(t)
    ensures FallsSettled(next, top, down, fuel - 1) ==> FallsSettled(t, top, rock, fuel)
  {
  }

  /** `add_rock` before the drop: the new rock appears in the shaft, clear
      of the stopped rocks, and the walls are raised to its top row, at
      most seven rows above the old top. */
  lemma SpawnFree(t: Tower)
    requires Sound(t)
    ensures var rock := Spawn(t.nextKind, MaxRow(t.stopped) + 4);
            var height := MaxRow(Cells(rock));
            var newTop := if Top(t) >= height then Top(t) else height;
            var raised := AddWall(t.(nextKind := NextKind(t.nextKind)), height);
            && Top(t) <= newTop <= Top(t) + 7
            && Chamber(raised, newTop) && Free(raised, newTop, rock, newTop)
  {
    var top := Top(t);
    var rock := Spawn(t.nextKind, MaxRow(t.stopped) + 4);
    RockBounds(rock);
    var height := MaxRow(Cells(rock));
    var newTop := if top >= height then top else height;
    WallsRaised(t.(nextKind := NextKind(t.nextKind)), top, height);
    assert MaxRow(t.stopped) <= top;
    forall c | c in Cells(rock)
      ensures 1 <= c.0 <= newTop && 1 <= c.1 <= 7 && c !in t.stopped
    {
    }
  }

  /** One rock keeps the chamber sound when every jet is a push and the
      fuel covers the drop: the rock stops without overlapping anything, so
      the stopped cells grow by exactly the shape's size, and the walls now
      reach the rock's top row, at most seven rows above the old top. */
  lemma AddRockSound(t: Tower, fuel: nat)
    requires Sound(t) && fuel >= Top(t) + 7
    ensures AddRock(t, fuel).Ok?
    ensures Sound(AddRock(t, fuel).value)
    ensures Top(t) <= Top(AddRock(t, fuel).value) <= Top(t) + 7
    ensures MaxRow(Cells(Spawn(t.nextKind, MaxRow(t.stopped) + 4))) <= Top(AddRock(t, fuel).value)
    ensures |AddRock(t, fuel).value.stopped| == |t.stopped| + |Shape(t.nextKind)|
  {
    var rest, done, newTop := SettleRock(t, fuel);
    CellsTranslate(rest);
    WallTop(done, newTop);
  }

  /** The rock `add_rock` drops and the tower it leaves: the rock is a
      translate of the next shape, in the shaft below the raised walls'
      top and clear of the stopped rocks it joins. */
  lemma SettleRock(t: Tower, fuel: nat) returns (rest: Rock, done: Tower, newTop: int)
    requires Sound(t) && fuel >= Top(t) + 7
    ensures AddRock(t, fuel) == Ok(done)
    ensures rest.kind == t.nextKind && done.stopped == t.stopped + Cells(rest) && t.stopped !! Cells(rest)
    ensures Chamber(done, newTop) && newTop >= 3 && InShaft(Cells(rest), newTop) && InShaft(t.stopped, newTop)
    ensures Top(t) <= newTop <= Top(t) + 7
    ensures MaxRow(Cells(Spawn(t.nextKind, MaxRow(t.stopped) + 4))) <= newTop
    ensures done.jets == t.jets && done.jetIndex < |done.jets|
  {
    var rock := Spawn(t.nextKind, MaxRow(t.stopped) + 4);
    var height := MaxRow(Cells(rock));
    newTop := if Top(t) >= height then Top(t) else height;
    var raised := AddWall(t.(nextKind := NextKind(t.nextKind)), height);
    SpawnFree(t);
    FallSettles(raised, newTop, rock, fuel, newTop);
    rest := Fall(raised, rock, fuel).value.1;
    done := Fall(raised, rock, fuel).value.0;
    HitsMeet(rest, t.stopped);
  }

  /** Raising solid walls keeps them solid up to the higher top. */
  lemma WallsRaised(t: Tower, top: int, height: int)
    requires Chamber(t, top) && top >= 1
    ensures Chamber(AddWall(t, height), if top >= height then top else height)
  {
    WallTop(t, top);
  }

  /** The top of solid walls is their highest row. */
  lemma WallTop(t: Tower, top: int)
    requires Chamber(t, top) && top >= 1
    ensures Top(t) == top
  {
    assert Cell(top, 0) in t.leftWall;
  }

  // ------------------------------------------------------------- the answer

  const Rocks := 2022

  /** The part 1 answer: the height of the tower after 2022 rocks, with
      the jet pattern taken from the first input line, its line break
      stripped. */
  ghost function Part1(line: string, fuel: nat): Result<int>
  {
    match Simulate(InitialTower(PyText.RightStrip(line)), Rocks, fuel)
    case Ok(t) => Ok(MaxRow(t.stopped))
    case Err(e) => Err(e)
  }

  /** The part 1 answer as the program computes it: the first line is
      used as read, line break included. */
  ghost function Part1AsWritten(line: string, fuel: nat): Result<int>
  {
    match Simulate(InitialTower(line), Rocks, fuel)
    case Ok(t) => Ok(MaxRow(t.stopped))
    case Err(e) => Err(e)
  }

  /** A tower `k` rocks into a run of `n` from `start`: sound, with the
      same jets, the stopped rocks grown by four or five cells a rock, the
      walls risen by at most seven rows a rock, and fuel for the rest. */
  ghost predicate OnTrack(start: Tower, n: nat, fuel: nat, t: Tower, k: nat)
  {
    && k <= n && Sound(t) && t.jets == start.jets && start.stopped <= t.stopped
    && Top(start) <= Top(t) && Top(t) + 7 * k <= Top(start) + 7 * n && fuel >= Top(t) + 7 * k
    && |start.stopped| + 4 * (n - k) <= |t.stopped| <= |start.stopped| + 5 * (n - k)
  }

  lemma OnTrackStep(start: Tower, n: nat, fuel: nat, t: Tower, k: nat)
    requires 0 < k && OnTrack(start, n, fuel, t, k)
    ensures Step(fuel)(t).Ok? && OnTrack(start, n, fuel, Step(fuel)(t).value, k - 1)
  {
    AddRockSound(t, fuel);
    ShapeSize(t.nextKind);
    assert Step(fuel)(t) == AddRock(t, fuel);
  }

  /** Every call of `add_rock` keeps a run on track. */
  lemma OnTrackSteps(start: Tower, n: nat, fuel: nat)
    ensures forall t, k: nat :: 0 < k && OnTrack(start, n, fuel, t, k) ==>
              Step(fuel)(t).Ok? && OnTrack(start, n, fuel, Step(fuel)(t).value, k - 1)
  {
    forall t, k: nat | 0 < k && OnTrack(start, n, fuel, t, k)
      ensures Step(fuel)(t).Ok? && OnTrack(start, n, fuel, Step(fuel)(t).value, k - 1)
    {
      OnTrackStep(start, n, fuel, t, k);
    }
  }

  /** A run of `n` rocks started on track ends on track. */
  lemma SimulateOnTrack(start: Tower, n: nat, fuel: nat)
    requires OnTrack(start, n, fuel, start, n)
    ensures Simulate(start, n, fuel).Ok? && OnTrack(start, n, fuel, Simulate(start, n, fuel).value, 0)
  {
    var good := (x: Tower, k: nat) => OnTrack(start, n, fuel, x, k);
    OnTrackSteps(start, n, fuel);
    Iteration.RepeatBudget(start, n, Step(fuel), good);
  }

  /** With only `<` and `>` jets and enough fuel, `n` calls of `add_rock`
      all end: the tower stays sound, the stopped rocks only grow, by four
      or five cells a rock, and the walls rise by at most seven rows a
      rock. */
  lemma SimulateSound(t: Tower, n: nat, fuel: nat)
    requires Sound(t) && fuel >= Top(t) + 7 * n
    ensures Simulate(t, n, fuel).Ok?
    ensures var r := Simulate(t, n, fuel).value;
              && Sound(r) && r.jets == t.jets && t.stopped <= r.stopped
              && Top(t) <= Top(r) <= Top(t) + 7 * n
              && |t.stopped| + 4 * n <= |r.stopped| <= |t.stopped| + 5 * n
  {
    SimulateOnTrack(t, n, fuel);
  }

  /** The highest row of cells in the shaft is at most its top, and at
      least 1 when there are any. */
  lemma MaxRowInShaft(cells: set<Coord>, top: int)
    requires InShaft(cells, top) && cells != {}
    ensures 1 <= MaxRow(cells) <= top
  {
  }

  /** A jet pattern of `<` and `>` only, with enough fuel, gives a part 1
      answer: a positive height no higher than the walls can have risen. */
  lemma Part1Height(line: string, fuel: nat)
    requires PyText.RightStrip(line) != [] && Pushes(PyText.RightStrip(line))
    requires fuel >= 3 + 7 * Rocks
    ensures Part1(line, fuel).Ok?
    ensures 1 <= Part1(line, fuel).value <= 3 + 7 * Rocks
  {
    var t := InitialTower(PyText.RightStrip(line));
    InitialSound(PyText.RightStrip(line));
    SimulateSound(t, Rocks, fuel);
    var r := Simulate(t, Rocks, fuel).value;
    assert r.stopped != {} by {
      assert |r.stopped| >= 4 * Rocks;
    }
    MaxRowInShaft(r.stopped, Top(r));
  }

  /** Without a trailing line break the program's reading of the line and
      the stripped one agree: a pattern of `<` and `>` only gives the same
      answer either way. */
  lemma Part1AsWrittenAgrees(line: string, fuel: nat)
    requires line != [] && Pushes(line)
    requires fuel >= 3 + 7 * Rocks
    ensures Part1AsWritten(line, fuel).Ok?
    ensures Part1AsWritten(line, fuel) == Part1(line, fuel)
  {
    var stripped := PyText.RightStrip(line);
    assert stripped == line;
    Part1Height(line, fuel);
  }

  /** A line break among the jets lifts the rock by a row instead of
      pushing it, and when the lifted rock collides it is moved left
      instead of back down. */
  lemma NewlineJetLifts()
    ensures Push(Rock(1, 5, 0), '\n', {}) == Rock(1, 6, 0)
    ensures Push(Rock(1, 5, 0), '\n', {Cell(6, 3)}) == Rock(1, 6, -1)
  {
    CellsMember(Rock(1, 6, 0), Cell(6, 3));
    assert Cell(6, 3) in Cells(Rock(1, 6, 0));
  }
}
