/** Cells of a grid as (row, column) pairs, and the straight runs of them
    that several puzzles build (rows of a cave, rows of a sensor's reach). */
module Plane {

  /** A cell as (row, column): the row grows downwards. */
  type Coord = (int, int)

  function Cell(i: int, j: int): Coord
  {
    (i, j)
  }

  /** Row `i` from column `lo` up to, not including, `hi`. */
  function RowCells(i: int, lo: int, hi: int): (r: set<Coord>)
    ensures forall c :: c in r <==> c.0 == i && lo <= c.1 < hi
  {
    var r := set j | lo <= j < hi :: Cell(i, j);
    assert forall c: Coord :: c.0 == i && lo <= c.1 < hi ==> c == Cell(i, c.1);
    r
  }

  /** Column `j` from row `lo` up to, not including, `hi`. */
  function ColumnCells(j: int, lo: int, hi: int): (r: set<Coord>)
    ensures forall c :: c in r <==> c.1 == j && lo <= c.0 < hi
  {
    var r := set i | lo <= i < hi :: Cell(i, j);
    assert forall c: Coord :: c.1 == j && lo <= c.0 < hi ==> c == Cell(c.0, j);
    r
  }

  /** A run of a row holds one cell per column. */
  lemma {:induction false} RowSize(i: int, lo: int, hi: int)
    requires lo <= hi
    ensures |RowCells(i, lo, hi)| == hi - lo
    decreases hi - lo
  {
    if lo < hi {
      RowSize(i, lo, hi - 1);
      assert RowCells(i, lo, hi) == RowCells(i, lo, hi - 1) + {Cell(i, hi - 1)};
    } else {
      assert RowCells(i, lo, hi) == {};
    }
  }

  /** Every cell moved by the delta. */
  function Translate(coords: set<Coord>, delta: Coord): set<Coord>
  {
    set c | c in coords :: Moved(c, delta)
  }

  function Moved(c: Coord, delta: Coord): Coord
  {
    (c.0 + delta.0, c.1 + delta.1)
  }

  /** A cell is in the moved set exactly when the cell it came from is in
      the original. */
  lemma TranslateMember(coords: set<Coord>, delta: Coord, c: Coord)
    ensures c in Translate(coords, delta) <==> Moved(c, (-delta.0, -delta.1)) in coords
  {
    var from := Moved(c, (-delta.0, -delta.1));
    assert Moved(from, delta) == c;
  }

  /** Moving by (0, 0) changes nothing, and moving back undoes a move. */
  lemma TranslateInverse(coords: set<Coord>, delta: Coord)
    ensures Translate(coords, (0, 0)) == coords
    ensures Translate(Translate(coords, delta), (-delta.0, -delta.1)) == coords
  {
    forall c ensures c in Translate(coords, (0, 0)) <==> c in coords {
      TranslateMember(coords, (0, 0), c);
    }
    var moved := Translate(coords, delta);
    var back := Translate(moved, (-delta.0, -delta.1));
    forall c ensures c in back <==> c in coords {
      TranslateMember(moved, (-delta.0, -delta.1), c);
      TranslateMember(coords, delta, Moved(c, delta));
    }
  }

  /** Translation keeps the number of cells. */
  lemma {:induction false} TranslateSize(coords: set<Coord>, delta: Coord)
    ensures |Translate(coords, delta)| == |coords|
    decreases |coords|
  {
    if coords != {} {
      var c :| c in coords;
      var rest := coords - {c};
      TranslateSize(rest, delta);
      var moved := Moved(c, delta);
      assert Translate(coords, delta) == Translate(rest, delta) + {moved};
      TranslateMember(rest, delta, moved);
    }
  }

  /** The row (`row`) or the column (not `row`) of a cell. */
  function Axis(c: Coord, row: bool): int
  {
    if row then c.0 else c.1
  }

  /** The minimum along one axis of a non-empty set of cells. */
  ghost function Lowest(cells: set<Coord>, row: bool): (m: int)
    requires cells != {}
    ensures (exists c :: c in cells && Axis(c, row) == m) && forall c :: c in cells ==> m <= Axis(c, row)
  {
    LowestExists(cells, row);
    var low :| low in cells && forall c :: c in cells ==> Axis(low, row) <= Axis(c, row);
    Axis(low, row)
  }

  /** The maximum along one axis of a non-empty set of cells. */
  ghost function Highest(cells: set<Coord>, row: bool): (m: int)
    requires cells != {}
    ensures (exists c :: c in cells && Axis(c, row) == m) && forall c :: c in cells ==> Axis(c, row) <= m
  {
    HighestExists(cells, row);
    var high :| high in cells && forall c :: c in cells ==> Axis(c, row) <= Axis(high, row);
    Axis(high, row)
  }

  lemma {:induction false} LowestExists(cells: set<Coord>, row: bool)
    requires cells != {}
    ensures exists low :: low in cells && forall c :: c in cells ==> Axis(low, row) <= Axis(c, row)
    decreases |cells|
  {
    var x :| x in cells;
    var rest := cells - {x};
    assert forall y :: y in cells ==> y == x || y in rest;
    if rest == {} {
      assert forall y :: y in cells ==> Axis(x, row) <= Axis(y, row);
    } else {
      LowestExists(rest, row);
      var low :| low in rest && forall c :: c in rest ==> Axis(low, row) <= Axis(c, row);
      if Axis(x, row) <= Axis(low, row) {
        assert forall y :: y in cells ==> Axis(x, row) <= Axis(y, row);
      } else {
        assert low in cells && forall y :: y in cells ==> Axis(low, row) <= Axis(y, row);
      }
    }
  }

  lemma {:induction false} HighestExists(cells: set<Coord>, row: bool)
    requires cells != {}
    ensures exists high :: high in cells && forall c :: c in cells ==> Axis(c, row) <= Axis(high, row)
    decreases |cells|
  {
    var x :| x in cells;
    var rest := cells - {x};
    assert forall y :: y in cells ==> y == x || y in rest;
    if rest == {} {
      assert forall y :: y in cells ==> Axis(y, row) <= Axis(x, row);
    } else {
      HighestExists(rest, row);
      var high :| high in rest && forall c :: c in rest ==> Axis(c, row) <= Axis(high, row);
      if Axis(x, row) >= Axis(high, row) {
        assert forall y :: y in cells ==> Axis(y, row) <= Axis(x, row);
      } else {
        assert high in cells && forall y :: y in cells ==> Axis(y, row) <= Axis(high, row);
      }
    }
  }

  lemma SubsetSize<T>(a: set<T>, b: set<T>)
    requires a <= b
    ensures |a| <= |b|
  {
    assert b == a + (b - a);
  }
}
