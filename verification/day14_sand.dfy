/** Day 14: sand falling into a cave of rock.  Rock paths become a set of
    cells, the cave is shifted so that its smallest row and column are 0
    (part 2 first adds a floor), and grains are poured from the origin one
    at a time until one would fall into the abyss or the origin is buried. */
module FallingSand {
  import opened Results
  import opened Plane
  import opened Seqs

  /** `coords_to_filled_set`: the inclusive rectangle spanned by two
      corners. */
  function Rect(a: Coord, b: Coord): (r: set<Coord>)
    ensures a in r && b in r
    ensures forall c :: c in r <==> Smaller(a.0, b.0) <= c.0 <= Larger(a.0, b.0) && Smaller(a.1, b.1) <= c.1 <= Larger(a.1, b.1)
  {
    set i, j | Smaller(a.0, b.0) <= i <= Larger(a.0, b.0) && Smaller(a.1, b.1) <= j <= Larger(a.1, b.1) :: (i, j)
  }

  /** The rectangle does not depend on the order of its corners. */
  lemma RectSymmetric(a: Coord, b: Coord)
    ensures Rect(a, b) == Rect(b, a)
  {
    assert forall c :: c in Rect(a, b) <==> c in Rect(b, a);
  }

  /** A rectangle lies between its corners: a cell of it is in every
      rectangle whose corners bound the two given ones. */
  lemma RectMonotone(a: Coord, b: Coord, c: Coord, d: Coord)
    requires Smaller(c.0, d.0) <= Smaller(a.0, b.0) && Larger(a.0, b.0) <= Larger(c.0, d.0)
    requires Smaller(c.1, d.1) <= Smaller(a.1, b.1) && Larger(a.1, b.1) <= Larger(c.1, d.1)
    ensures Rect(a, b) <= Rect(c, d)
  {
    forall x | x in Rect(a, b) ensures x in Rect(c, d) {
    }
  }

  /** The rock cells of one input path: the segments between consecutive
      points, each point given as (column, row) and reversed into
      (row, column). */
  function PathRocks(path: seq<Coord>): (r: set<Coord>)
    ensures forall k :: 0 <= k < |path| - 1 ==> Rect(Swap(path[k]), Swap(path[k + 1])) <= r
  {
    if |path| < 2 then {}
    else
      var rest := PathRocks(path[1..]);
      assert forall k :: 1 <= k < |path| ==> path[k] == path[1..][k - 1];
      Rect(Swap(path[0]), Swap(path[1])) + rest
  }

  /** Every rock cell of a path lies on one of its segments, so the path
      holds exactly the union of its segments. */
  lemma {:induction false} PathRocksOnSegment(path: seq<Coord>, c: Coord)
    requires c in PathRocks(path)
    ensures exists k :: 0 <= k < |path| - 1 && c in Rect(Swap(path[k]), Swap(path[k + 1]))
  {
    var first := Rect(Swap(path[0]), Swap(path[1]));
    if c in first {
      assert 0 < |path| - 1 && c in Rect(Swap(path[0]), Swap(path[1]));
    } else {
      assert PathRocks(path) == first + PathRocks(path[1..]);
      PathRocksOnSegment(path[1..], c);
      var k :| 0 <= k < |path[1..]| - 1 && c in Rect(Swap(path[1..][k]), Swap(path[1..][k + 1]));
      assert path[1..][k] == path[k + 1] && path[1..][k + 1] == path[k + 2];
      assert 0 <= k + 1 < |path| - 1 && c in Rect(Swap(path[k + 1]), Swap(path[k + 2]));
    }
  }

  function Swap(p: Coord): Coord
  {
    (p.1, p.0)
  }

  /** The whole cave: which rocks there are, where the sand comes from,
      the largest row and column of the rock box, and the resting sand. */
  datatype Cave = Cave(rocks: set<Coord>, origin: Coord, maxI: int, maxJ: int, sand: set<Coord>)

  /** The shift `Cave.__init__` applies: minus the smallest row and column
      over the rocks and the origin. */
  ghost function Shift(rocks: set<Coord>, origin: Coord): Coord
    requires rocks != {}
  {
    (-Smaller(Lowest(rocks, true), origin.0), -Smaller(Lowest(rocks, false), origin.1))
  }

  /** `Cave.__init__` without the floor: the rocks and the origin shifted
      together; the box ends at the largest rock row and column.  No rocks
      means the minimum of an empty array. */
  ghost function Normalise(rocks: set<Coord>, origin: Coord): (r: Result<Cave>)
    ensures r.Err? <==> rocks == {}
    ensures r.Ok? ==> r.value.sand == {} && r.value.rocks == Translate(rocks, Shift(rocks, origin)) &&
                      r.value.origin == Moved(origin, Shift(rocks, origin))
  {
    if rocks == {} then Err("ValueError")
    else
      var d := Shift(rocks, origin);
      Ok(Cave(Translate(rocks, d), Moved(origin, d), Highest(rocks, true) + d.0, Highest(rocks, false) + d.1, {}))
  }

  /** After the shift the rocks and the origin start at row 0 and column 0,
      and the box ends at the last rock row and column. */
  lemma NormaliseAligns(rocks: set<Coord>, origin: Coord)
    requires rocks != {}
    ensures var cave := Normalise(rocks, origin).value;
            (forall c :: c in cave.rocks ==> 0 <= c.0 <= cave.maxI && 0 <= c.1 <= cave.maxJ) &&
            cave.origin.0 >= 0 && cave.origin.1 >= 0 &&
            (cave.origin.0 == 0 || exists c :: c in cave.rocks && c.0 == 0) &&
            (cave.origin.1 == 0 || exists c :: c in cave.rocks && c.1 == 0) &&
            (exists c :: c in cave.rocks && c.0 == cave.maxI) &&
            (exists c :: c in cave.rocks && c.1 == cave.maxJ)
  {
    var cave := Normalise(rocks, origin).value;
    var d := Shift(rocks, origin);
    var back := (-d.0, -d.1);
    forall c | c in cave.rocks ensures 0 <= c.0 <= cave.maxI && 0 <= c.1 <= cave.maxJ {
      TranslateMember(rocks, d, c);
      var from := Moved(c, back);
      assert from in rocks && Axis(from, true) == from.0 && Axis(from, false) == from.1;
    }
    var lowI, lowJ := Lowest(rocks, true), Lowest(rocks, false);
    if cave.origin.0 != 0 {
      var c :| c in rocks && Axis(c, true) == lowI;
      TranslateMember(rocks, d, Moved(c, d));
      assert Moved(c, d) in cave.rocks && Moved(c, d).0 == 0;
    }
    if cave.origin.1 != 0 {
      var c :| c in rocks && Axis(c, false) == lowJ;
      TranslateMember(rocks, d, Moved(c, d));
      assert Moved(c, d) in cave.rocks && Moved(c, d).1 == 0;
    }
    var highI, highJ := Highest(rocks, true), Highest(rocks, false);
    var ci :| ci in rocks && Axis(ci, true) == highI;
    TranslateMember(rocks, d, Moved(ci, d));
    assert Moved(ci, d) in cave.rocks && Moved(ci, d).0 == cave.maxI;
    var cj :| cj in rocks && Axis(cj, false) == highJ;
    TranslateMember(rocks, d, Moved(cj, d));
    assert Moved(cj, d) in cave.rocks && Moved(cj, d).1 == cave.maxJ;
  }

  /** The floor row of `add_ground_floor`: row `i`, columns `-1` up to
      `last`. */
  function FloorRow(i: int, last: int): set<Coord>
  {
    RowCells(i, -1, last + 1)
  }

  /** `add_ground_floor`: everything moves `offset` columns to the right
      and a rock row two below the lowest rock spans the columns -1 up to
      the widened box's right edge. */
  function AddGroundFloor(cave: Cave, offset: int): (r: Cave)
    ensures r.maxI == cave.maxI + 2 && r.maxJ == cave.maxJ + 2 * offset
    ensures r.origin == Moved(cave.origin, (0, offset)) && r.sand == cave.sand
    ensures r.rocks == Translate(cave.rocks, (0, offset)) + FloorRow(r.maxI, r.maxJ)
  {
    Cave(Translate(cave.rocks, (0, offset)) + FloorRow(cave.maxI + 2, cave.maxJ + 2 * offset),
         Moved(cave.origin, (0, offset)), cave.maxI + 2, cave.maxJ + 2 * offset, cave.sand)
  }

  /** The floor closes the box from below: every cell of the last box row,
      and the one left of it, is rock; earlier rocks stay above it. */
  lemma FloorCloses(cave: Cave, offset: int)
    requires forall c :: c in cave.rocks ==> c.0 <= cave.maxI
    ensures var r := AddGroundFloor(cave, offset);
            (forall j :: -1 <= j <= r.maxJ ==> Cell(r.maxI, j) in r.rocks) &&
            (forall c :: c in r.rocks && c.0 != r.maxI ==> c.0 <= r.maxI - 2)
  {
    var r := AddGroundFloor(cave, offset);
    forall c | c in r.rocks && c.0 != r.maxI ensures c.0 <= r.maxI - 2 {
      TranslateMember(cave.rocks, (0, offset), c);
    }
  }

  /** `Cave.__init__` as the script calls it: part 2 adds the floor 200
      columns to either side. */
  ghost function NewCave(rocks: set<Coord>, origin: Coord, withFloor: bool): (r: Result<Cave>)
    ensures r.Err? <==> rocks == {}
  {
    var cave :- Normalise(rocks, origin);
    Ok(if withFloor then AddGroundFloor(cave, 200) else cave)
  }

  /** `check_if_inside_borders` */
  predicate Inside(cave: Cave, c: Coord)
  {
    0 <= c.0 <= cave.maxI && 0 <= c.1 <= cave.maxJ
  }

  /** `get_abyss_border`: the columns just left and right of the box, down
      to the row below it, and that row under the box. */
  function Border(cave: Cave): set<Coord>
  {
    ColumnCells(-1, 0, cave.maxI + 2) + ColumnCells(cave.maxJ + 1, 0, cave.maxI + 2) + RowCells(cave.maxI + 1, 0, cave.maxJ + 1)
  }

  /** The border is exactly the ring of cells left, right and below the box,
      and none of it is inside. */
  lemma BorderCells(cave: Cave, c: Coord)
    ensures c in Border(cave) <==>
              (0 <= c.0 <= cave.maxI + 1 && (c.1 == -1 || c.1 == cave.maxJ + 1)) ||
              (c.0 == cave.maxI + 1 && 0 <= c.1 <= cave.maxJ)
    ensures c in Border(cave) ==> !Inside(cave, c)
  {
  }

  /** `get_all_filled_coords` */
  function Filled(cave: Cave): set<Coord>
  {
    cave.rocks + {cave.origin} + cave.sand
  }

  function Below(c: Coord): set<Coord>
  {
    {(c.0 + 1, c.1), (c.0 + 1, c.1 - 1), (c.0 + 1, c.1 + 1)}
  }

  /** The order in which a grain tries the cells under it: straight down,
      then down-left, then down-right. */
  function Preference(pos: Coord, c: Coord): nat
  {
    if c == (pos.0 + 1, pos.1) then 0 else if c == (pos.0 + 1, pos.1 - 1) then 1 else 2
  }

  /** Where the grain at `pos` moves: the most preferred free cell under
      it, or nowhere when all three are filled. */
  function Fall(cave: Cave, pos: Coord): (r: Option<Coord>)
    ensures r.None? <==> Below(pos) <= Filled(cave)
    ensures r.Some? ==> r.value in Below(pos) && r.value !in Filled(cave) &&
                        forall d :: d in Below(pos) && Preference(pos, d) < Preference(pos, r.value) ==> d in Filled(cave)
  {
    var down, left, right := (pos.0 + 1, pos.1), (pos.0 + 1, pos.1 - 1), (pos.0 + 1, pos.1 + 1);
    if down !in Filled(cave) then Some(down)
    else if left !in Filled(cave) then Some(left)
    else if right !in Filled(cave) then Some(right)
    else None
  }

  /** `pour_sand` from `pos`: the grain's resting cell, `None` when the
      script returns False, or the error of a grain that falls for ever
      (below the lowest rock nothing can stop it and it never meets the
      border, so the recursion does not end). */
  function Pour(cave: Cave, pos: Coord): (r: Result<Option<Coord>>)
    ensures r.Ok? && r.value.Some? ==>
              var c := r.value.value;
              c.0 >= pos.0 && (c == pos || c !in Filled(cave)) && Below(c) <= Filled(cave) &&
              c != cave.origin
    ensures r.Ok? && r.value.Some? ==>
              var c := r.value.value;
              (c.0 <= cave.maxI + 1 || c == pos) && pos.1 - (c.0 - pos.0) <= c.1 <= pos.1 + (c.0 - pos.0)
    ensures r.Err? ==> r.error == "RecursionError"
    ensures Inside(cave, pos) ==> r.Ok?
    ensures Inside(cave, pos) && r.Ok? && r.value.Some? ==> Inside(cave, r.value.value)
    ensures (Below(pos) - Filled(cave)) * Border(cave) != {} ==> r == Ok(None)
    ensures r == Ok(None) ==>
              (exists d :: d in Border(cave) && d !in Filled(cave) && d.0 > pos.0) ||
              (pos == cave.origin && Below(pos) <= Filled(cave))
    decreases if pos.0 <= cave.maxI then cave.maxI + 1 - pos.0 else 0
  {
    var valid := Below(pos) - Filled(cave);
    if valid * Border(cave) != {} then
      var d :| d in valid * Border(cave);
      Ok(None)
    else
      match Fall(cave, pos)
      case Some(next) =>
        if pos.0 > cave.maxI then Err("RecursionError")
        else
          BorderCells(cave, next);
          Pour(cave, next)
      case None =>
        if pos == cave.origin then Ok(None) else Ok(Some(pos))
  }

  /** Rocks, the origin and resting sand all lie in rows of the box, so
      nothing lies below it. */
  predicate AboveFloor(cave: Cave)
  {
    (forall c :: c in cave.rocks + cave.sand ==> c.0 <= cave.maxI) && cave.origin.0 <= cave.maxI
  }

  /** Why a grain below the box falls for ever: all three cells under it
      are free and none is on the border, so the script recurses into the
      cell straight below, which is again below the box. */
  lemma BelowBoxFallsForever(cave: Cave, pos: Coord)
    requires AboveFloor(cave) && pos.0 > cave.maxI
    ensures Below(pos) * Filled(cave) == {}
    ensures Below(pos) * Border(cave) == {}
  {
    forall d | d in Below(pos) ensures d !in Border(cave) {
      BorderCells(cave, d);
    }
  }

  /** One grain poured from the origin: the cave with the grain at rest and
      True, or the cave unchanged and False. */
  function PourOne(cave: Cave): (r: Result<(Cave, bool)>)
    ensures r.Ok? ==> r.value.0.rocks == cave.rocks && r.value.0.origin == cave.origin &&
                      r.value.0.maxI == cave.maxI && r.value.0.maxJ == cave.maxJ
    ensures r.Ok? && !r.value.1 ==> r.value.0 == cave
    ensures r.Ok? && r.value.1 ==>
              exists c :: c !in Filled(cave) && Below(c) <= Filled(cave) && r.value.0.sand == cave.sand + {c}
    ensures r.Err? ==> r.error == "RecursionError"
    ensures Inside(cave, cave.origin) ==> r.Ok?
  {
    match Pour(cave, cave.origin)
    case Err(e) => Err(e)
    case Ok(None) => Ok((cave, false))
    case Ok(Some(c)) => Ok((cave.(sand := cave.sand + {c}), true))
  }

  function BoxCells(cave: Cave): (r: set<Coord>)
    ensures forall c :: c in r <==> Inside(cave, c)
  {
    set i, j | 0 <= i <= cave.maxI && 0 <= j <= cave.maxJ :: (i, j)
  }

  /** The cells a grain from the origin can come to rest in: from the
      origin's row down to the row under the box, and at most one column
      aside per row fallen. */
  function Reach(origin: Coord, maxI: int): (r: set<Coord>)
    ensures forall c :: c in r <==>
              origin.0 <= c.0 <= maxI + 1 &&
              origin.1 - (maxI + 1 - origin.0) <= c.1 <= origin.1 + (maxI + 1 - origin.0)
  {
    var w := maxI + 1 - origin.0;
    set i, j | origin.0 <= i <= maxI + 1 && origin.1 - w <= j <= origin.1 + w :: (i, j)
  }

  /** The `while True` loop: pour until a grain does not come to rest, or
      until a grain falls for ever.  Every resting grain takes a free cell
      that a grain from the origin can reach, so the loop ends. */
  function PourAll(cave: Cave): (r: Result<Cave>)
    ensures r.Ok? ==> r.value.rocks == cave.rocks && r.value.origin == cave.origin &&
                      r.value.maxI == cave.maxI && r.value.maxJ == cave.maxJ
    ensures r.Ok? ==> cave.sand <= r.value.sand && PourOne(r.value) == Ok((r.value, false))
    ensures r.Err? ==> r.error == "RecursionError"
    ensures Inside(cave, cave.origin) && cave.sand <= BoxCells(cave) ==> r.Ok? && r.value.sand <= BoxCells(cave)
    decreases |Reach(cave.origin, cave.maxI) - cave.sand|
  {
    match PourOne(cave)
    case Err(e) => Err(e)
    case Ok((next, rested)) =>
      if !rested then Ok(cave)
      else
        PourTakesReach(cave);
        PourAll(next)
  }

  /** A grain that comes to rest takes a free cell a grain from the origin
      can reach, and a cell of the box when the origin is in the box. */
  lemma PourTakesReach(cave: Cave)
    requires PourOne(cave).Ok? && PourOne(cave).value.1
    ensures var next := PourOne(cave).value.0;
            |Reach(next.origin, next.maxI) - next.sand| < |Reach(cave.origin, cave.maxI) - cave.sand|
    ensures var next := PourOne(cave).value.0;
            Inside(cave, cave.origin) && cave.sand <= BoxCells(cave) ==>
              BoxCells(next) == BoxCells(cave) && next.sand <= BoxCells(cave)
  {
    var next := PourOne(cave).value.0;
    var c := Pour(cave, cave.origin).value.value;
    assert next.sand == cave.sand + {c};
    var free := Reach(cave.origin, cave.maxI) - cave.sand;
    assert c in free;
    assert Reach(next.origin, next.maxI) - next.sand == free - {c};
    if Inside(cave, cave.origin) {
      assert BoxCells(next) == BoxCells(cave);
    }
  }

  /** The printed answer: the resting grains, plus the buried origin in
      part 2; a grain falling for ever ends the script instead. */
  function RestingSand(cave: Cave, part2: bool): (r: Result<nat>)
    ensures r.Err? <==> PourAll(cave).Err?
    ensures Inside(cave, cave.origin) && cave.sand == {} ==>
              r.Ok? && (if part2 then 1 else 0) <= r.value <= (cave.maxI + 1) * (cave.maxJ + 1) + (if part2 then 1 else 0)
  {
    match PourAll(cave)
    case Err(e) => Err(e)
    case Ok(done) =>
      if Inside(cave, cave.origin) && cave.sand == {} then
        BoxSize(cave);
        SubsetSize(done.sand, BoxCells(cave));
        Ok(|done.sand| + if part2 then 1 else 0)
      else
        Ok(|done.sand| + if part2 then 1 else 0)
  }

  /** The box has (maxI + 1) * (maxJ + 1) cells. */
  lemma BoxSize(cave: Cave)
    requires Inside(cave, cave.origin)
    ensures |BoxCells(cave)| == (cave.maxI + 1) * (cave.maxJ + 1)
  {
    RowsSize(cave.maxI + 1, cave.maxJ + 1);
    assert BoxCells(cave) == Grid(cave.maxI + 1, cave.maxJ + 1);
  }

  function Grid(rows: nat, cols: nat): (r: set<Coord>)
    ensures forall c :: c in r <==> 0 <= c.0 < rows && 0 <= c.1 < cols
  {
    set i, j | 0 <= i < rows && 0 <= j < cols :: (i, j)
  }

  lemma {:induction false} RowsSize(rows: nat, cols: nat)
    ensures |Grid(rows, cols)| == rows * cols
  {
    if rows > 0 {
      RowsSize(rows - 1, cols);
      GridLastRow(rows, cols);
      RowSize(rows - 1, 0, cols);
      assert (rows - 1) * cols + cols == rows * cols;
    } else {
      assert Grid(rows, cols) == {};
    }
  }

  /** A grid is the grid one row shorter plus its last row. */
  lemma GridLastRow(rows: nat, cols: nat)
    requires rows > 0
    ensures |Grid(rows, cols)| == |Grid(rows - 1, cols)| + |RowCells(rows - 1, 0, cols)|
  {
    var row := RowCells(rows - 1, 0, cols);
    assert Grid(rows, cols) == Grid(rows - 1, cols) + row;
    assert Grid(rows - 1, cols) * row == {};
  }
}
