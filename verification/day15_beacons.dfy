/** Day 15: sensors and beacons.  Each sensor reports its closest beacon,
    so no other beacon lies within that Manhattan distance of it.  Part 1
    counts the cells of one row that some sensor rules out; part 2 looks
    for the single cell of the square [0, 3999999]^2 that no sensor reaches,
    testing only the cells just outside each sensor's diamond. */
module BeaconExclusion {
  import opened Results
  import opened Plane
  import opened Seqs


  /** `manhattan_distance`. */
  function Manhattan(a: Coord, b: Coord): int
  {
    Abs(a.0 - b.0) + Abs(a.1 - b.1)
  }

  /** The distance is a metric: non-negative, zero exactly on equal cells,
      symmetric, and obeys the triangle inequality. */
  lemma ManhattanMetric(a: Coord, b: Coord, c: Coord)
    ensures Manhattan(a, b) >= 0
    ensures Manhattan(a, b) == 0 <==> a == b
    ensures Manhattan(a, b) == Manhattan(b, a)
    ensures Manhattan(a, c) <= Manhattan(a, b) + Manhattan(b, c)
  {
  }

  /** One input line, already in (row, column) order: the sensor and the
      beacon closest to it. */
  datatype Report = Report(sensor: Coord, beacon: Coord)

  function Radius(rep: Report): int
  {
    Manhattan(rep.sensor, rep.beacon)
  }

  /** Cell `c` is within the sensor's radius, so it cannot hold an unknown
      beacon. */
  predicate Reaches(rep: Report, c: Coord)
  {
    Manhattan(rep.sensor, c) <= Radius(rep)
  }

  // ---------------------------------------------------------------- part 1

  /** `get_kernel_coords_in_row`: the cells of `row` within `distance` of
      `center`, found by scanning the columns of the enclosing square. */
  function KernelInRow(center: Coord, distance: int, row: int): (r: set<Coord>)
    ensures forall c :: c in r ==> c.0 == row && Manhattan(center, c) <= distance
    ensures forall c: Coord :: c.0 == row && Manhattan(center, c) <= distance ==> c in r
  {
    var r := set j | center.1 - distance <= j < center.1 + distance + 1 && Manhattan(center, Cell(row, j)) <= distance
      :: Cell(row, j);
    assert forall c: Coord :: c.0 == row && Manhattan(center, c) <= distance ==> c == Cell(row, c.1) && c in r;
    r
  }

  lemma KernelMember(center: Coord, distance: int, row: int, c: Coord)
    ensures c in KernelInRow(center, distance, row) <==> c.0 == row && Manhattan(center, c) <= distance
  {
  }

  /** The row meets the diamond in a run of 2 * (distance - |row - ci|) + 1
      cells, or not at all once the row is farther than `distance`. */
  lemma KernelSize(center: Coord, distance: int, row: int)
    ensures Abs(row - center.0) > distance ==> KernelInRow(center, distance, row) == {}
    ensures Abs(row - center.0) <= distance ==>
              |KernelInRow(center, distance, row)| == 2 * (distance - Abs(row - center.0)) + 1
  {
    var w := distance - Abs(row - center.0);
    if w >= 0 {
      assert KernelInRow(center, distance, row) == RowCells(row, center.1 - w, center.1 + w + 1);
      RowSize(row, center.1 - w, center.1 + w + 1);
    } else {
      assert forall c :: c in KernelInRow(center, distance, row) ==> false;
    }
  }

  /** The union of every sensor's kernel in `row`, as the loop of
      `update`s builds it. */
  function CoveredInRow(reports: seq<Report>, row: int): (r: set<Coord>)
    ensures forall c :: c in r <==> c.0 == row && exists k :: 0 <= k < |reports| && Reaches(reports[k], c)
  {
    var r := set k, c | 0 <= k < |reports| && c in KernelInRow(reports[k].sensor, Radius(reports[k]), row) :: c;
    assert forall c :: c in r <==> c.0 == row && exists k :: 0 <= k < |reports| && Reaches(reports[k], c) by {
      forall c
        ensures c in r <==> c.0 == row && exists k :: 0 <= k < |reports| && Reaches(reports[k], c)
      {
        if c in r {
          var k :| 0 <= k < |reports| && c in KernelInRow(reports[k].sensor, Radius(reports[k]), row);
          KernelMember(reports[k].sensor, Radius(reports[k]), row, c);
        }
        if c.0 == row && exists k :: 0 <= k < |reports| && Reaches(reports[k], c) {
          var k :| 0 <= k < |reports| && Reaches(reports[k], c);
          KernelMember(reports[k].sensor, Radius(reports[k]), row, c);
        }
      }
    }
    r
  }

  function Sensors(reports: seq<Report>): set<Coord>
  {
    set k | 0 <= k < |reports| :: reports[k].sensor
  }

  function Beacons(reports: seq<Report>): set<Coord>
  {
    set k | 0 <= k < |reports| :: reports[k].beacon
  }

  /** The cells of `row` that cannot hold a beacon: reached by some sensor,
      and neither a sensor nor a known beacon. */
  function Excluded(reports: seq<Report>, row: int): (r: set<Coord>)
    ensures forall c :: c in r <==>
              && c.0 == row
              && (exists k :: 0 <= k < |reports| && Reaches(reports[k], c))
              && (forall k :: 0 <= k < |reports| ==> c != reports[k].sensor && c != reports[k].beacon)
  {
    var r := CoveredInRow(reports, row) - Sensors(reports) - Beacons(reports);
    assert forall c :: c in Sensors(reports) <==> exists k :: 0 <= k < |reports| && c == reports[k].sensor;
    assert forall c :: c in Beacons(reports) <==> exists k :: 0 <= k < |reports| && c == reports[k].beacon;
    r
  }

  const TargetRow := 2000000

  /** The part 1 answer. */
  function Part1(reports: seq<Report>): (n: nat)
    ensures n == |Excluded(reports, TargetRow)|
    ensures n <= |CoveredInRow(reports, TargetRow)|
  {
    SubsetSize(Excluded(reports, TargetRow), CoveredInRow(reports, TargetRow));
    |CoveredInRow(reports, TargetRow) - Sensors(reports) - Beacons(reports)|
  }

  // ---------------------------------------------------------------- part 2

  /** Step `t` along a diagonal from `start`: one column right per step,
      and one row down or up. */
  function Diagonal(start: Coord, t: int, down: bool): Coord
  {
    (start.0 + (if down then t else -t), start.1 + t)
  }

  /** A zipped pair of `arange`s of `length + 1` entries. */
  function Side(start: Coord, length: int, down: bool): set<Coord>
  {
    set t | 0 <= t <= length :: Diagonal(start, t, down)
  }

  /** The four sides of the diamond: top-to-right, left-to-top, left-to-bottom
      and bottom-to-right. */
  function Diamond(center: Coord, distance: int): set<Coord>
  {
    var (i, j) := center;
    Side((i - distance, j), distance, true) + Side((i, j - distance), distance, false)
    + Side((i, j - distance), distance, true) + Side((i + distance, j), distance, false)
  }

  /** The four sides hold exactly the cells at distance `distance`. */
  lemma DiamondExact(center: Coord, distance: int, c: Coord)
    ensures c in Diamond(center, distance) <==> Manhattan(center, c) == distance
  {
    var (i, j) := center;
    if Manhattan(center, c) == distance {
      var a, b := c.0 - i, c.1 - j;
      if a <= 0 && b >= 0 {
        assert c == Diagonal((i - distance, j), b, true);
      } else if a <= 0 {
        assert c == Diagonal((i, j - distance), -a, false);
      } else if b <= 0 {
        assert c == Diagonal((i, j - distance), a, true);
      } else {
        assert c == Diagonal((i + distance, j), b, false);
      }
    }
  }

  /** `get_border_kernel_set`: the cells at exactly `distance`, clipped to
      the square [0, maxSize]^2. */
  function BorderKernel(center: Coord, distance: int, maxSize: int): (r: set<Coord>)
    ensures forall c :: c in r ==> Manhattan(center, c) == distance
    ensures forall c :: c in r ==> 0 <= c.0 <= maxSize && 0 <= c.1 <= maxSize
  {
    var r := set c | c in Diamond(center, distance) && 0 <= c.0 <= maxSize && 0 <= c.1 <= maxSize;
    assert forall c :: c in r ==> Manhattan(center, c) == distance by {
      forall c | c in r
        ensures Manhattan(center, c) == distance
      {
        DiamondExact(center, distance, c);
      }
    }
    r
  }

  /** Every in-bounds cell at exactly `distance` is part of the border. */
  lemma BorderComplete(center: Coord, distance: int, maxSize: int, c: Coord)
    requires Manhattan(center, c) == distance
    requires 0 <= c.0 <= maxSize && 0 <= c.1 <= maxSize
    ensures c in BorderKernel(center, distance, maxSize)
  {
    DiamondExact(center, distance, c);
  }

  const Size := 4000000

  /** Both coordinates in [0, Size - 1]. */
  predicate InSquare(c: Coord)
  {
    0 <= c.0 < Size && 0 <= c.1 < Size
  }

  /** Cell `c` lies one step outside the sensor's radius. */
  predicate OnRing(rep: Report, c: Coord)
  {
    Manhattan(rep.sensor, c) == Radius(rep) + 1
  }

  /** The spots one step outside some sensor's radius, within the square. */
  function Candidates(reports: seq<Report>): (r: set<Coord>)
    ensures forall c :: c in r ==> InSquare(c)
    ensures forall c :: c in r ==> exists k :: 0 <= k < |reports| && OnRing(reports[k], c)
  {
    if reports == [] then {}
    else
      var rest := Candidates(reports[1..]);
      assert forall c :: c in rest ==> exists k :: 0 <= k < |reports| && OnRing(reports[k], c) by {
        forall c | c in rest
          ensures exists k :: 0 <= k < |reports| && OnRing(reports[k], c)
        {
          var k :| 0 <= k < |reports[1..]| && OnRing(reports[1..][k], c);
          assert reports[1..][k] == reports[k + 1];
        }
      }
      BorderKernel(reports[0].sensor, Radius(reports[0]) + 1, Size - 1) + rest
  }

  /** Every in-bounds cell one step outside some sensor's radius is a
      candidate. */
  lemma {:induction false} CandidatesComplete(reports: seq<Report>, k: nat, c: Coord)
    requires k < |reports|
    requires InSquare(c)
    requires OnRing(reports[k], c)
    ensures c in Candidates(reports)
  {
    if k == 0 {
      BorderComplete(reports[0].sensor, Radius(reports[0]) + 1, Size - 1, c);
      CandidatesSplit(reports);
    } else {
      assert reports[1..][k - 1] == reports[k];
      CandidatesComplete(reports[1..], k - 1, c);
      CandidatesSplit(reports);
    }
  }

  /** The first sensor's border plus the candidates of the others. */
  lemma CandidatesSplit(reports: seq<Report>)
    requires reports != []
    ensures Candidates(reports) == BorderKernel(reports[0].sensor, Radius(reports[0]) + 1, Size - 1) + Candidates(reports[1..])
  {
  }


  /** `select_coords_larger_than_distance`: the rows of the array farther
      than `distance` from `center`, in their order. */
  function Select(coords: seq<Coord>, center: Coord, distance: int): (r: seq<Coord>)
    ensures forall c :: c in r <==> c in coords && Manhattan(c, center) > distance
    ensures |r| <= |coords|
    ensures Distinct(coords) ==> Distinct(r)
  {
    if coords == [] then []
    else
      var rest := Select(coords[1..], center, distance);
      assert forall c :: c in coords <==> c == coords[0] || c in coords[1..];
      if Manhattan(coords[0], center) > distance then
        assert Distinct(coords) ==> coords[0] !in coords[1..];
        [coords[0]] + rest
      else rest
  }

  /** No sensor reaches `c`. */
  predicate Unreached(reports: seq<Report>, c: Coord)
  {
    forall k :: 0 <= k < |reports| ==> !Reaches(reports[k], c)
  }

  /** The filtering loop: one `Select` per sensor, in report order. */
  function FilterAll(coords: seq<Coord>, reports: seq<Report>): (r: seq<Coord>)
    ensures forall c :: c in r <==> c in coords && Unreached(reports, c)
    ensures Distinct(coords) ==> Distinct(r)
    decreases |reports|
  {
    if reports == [] then coords
    else
      var rep := reports[|reports| - 1];
      var front := reports[..|reports| - 1];
      assert forall k :: 0 <= k < |front| ==> front[k] == reports[k];
      assert forall c :: Unreached(reports, c) <==> Unreached(front, c) && !Reaches(rep, c);
      Select(FilterAll(coords, front), rep.sensor, Radius(rep))
  }

  /** `np.array(list(s))`: the set in some iteration order, each element
      once.  Python fixes one order; the model picks one as well. */
  ghost function Enumerate(s: set<Coord>): (r: seq<Coord>)
    ensures forall c :: c in r <==> c in s
    ensures Distinct(r)
    decreases |s|
  {
    if s == {} then []
    else
      var x :| x in s;
      [x] + Enumerate(s - {x})
  }

  /** The distress beacon's spot: a candidate no sensor reaches. */
  ghost function Hidden(reports: seq<Report>): set<Coord>
  {
    set c | c in Candidates(reports) && Unreached(reports, c)
  }

  /** The tuning frequency of a spot (row y, column x). */
  function Frequency(spot: Coord): int
  {
    spot.1 * 4000000 + spot.0
  }

  /** The part 2 answer.  The first `Select` on an empty candidate list
      fails to broadcast (a 1-D empty array against a pair), and the final
      check demands exactly one survivor. */
  ghost function Part2(reports: seq<Report>): (r: Result<int>)
    ensures r.Ok? <==> (reports == [] || Candidates(reports) != {}) && |Hidden(reports)| == 1
    ensures r.Ok? ==> exists c :: Hidden(reports) == {c} && r.value == Frequency(c)
    ensures r.Err? && reports != [] && Candidates(reports) == {} ==> r.error == "ValueError"
    ensures r.Err? && (reports == [] || Candidates(reports) != {}) ==> r.error == "AssertionError"
  {
    var spots := Candidates(reports);
    if spots == {} && reports != [] then Err("ValueError")
    else
      var left := FilterAll(Enumerate(spots), reports);
      DistinctCount(left, Hidden(reports));
      if |left| != 1 then Err("AssertionError")
      else Ok(Frequency(left[0]))
  }

  /** A duplicate-free list is as long as the set it lists. */
  lemma {:induction false} DistinctCount(left: seq<Coord>, s: set<Coord>)
    requires Distinct(left)
    requires forall c :: c in left <==> c in s
    ensures |left| == |s|
    ensures |left| == 1 ==> s == {left[0]}
  {
    if left == [] {
      assert s == {};
    } else {
      var rest := s - {left[0]};
      forall c
        ensures c in left[1..] <==> c in rest
      {
        if c in left[1..] {
          var k :| 0 <= k < |left| - 1 && left[1..][k] == c;
          assert c == left[k + 1] != left[0];
        }
        if c in rest {
          assert c in left && c != left[0];
          var k :| 0 <= k < |left| && left[k] == c;
          assert left[1..][k - 1] == c;
        }
      }
      DistinctCount(left[1..], rest);
      if |left| == 1 {
        assert rest == {};
      }
    }
  }

  /** Inside the square the frequency determines the spot. */
  lemma FrequencyDecodes(spot: Coord)
    requires 0 <= spot.0 < Size && 0 <= spot.1 < Size
    ensures Frequency(spot) / 4000000 == spot.1
    ensures Frequency(spot) % 4000000 == spot.0
  {
  }

  /** A part 2 answer is a spot inside the square that no sensor reaches,
      one step outside some sensor's radius, and the only such spot. */
  lemma Part2Sound(reports: seq<Report>)
    requires Part2(reports).Ok?
    ensures exists c: Coord ::
              && InSquare(c)
              && Part2(reports).value == Frequency(c)
              && Unreached(reports, c)
              && (exists k :: 0 <= k < |reports| && OnRing(reports[k], c))
              && (forall d: Coord :: InSquare(d) && Unreached(reports, d)
                   && (exists k :: 0 <= k < |reports| && OnRing(reports[k], d))
                   ==> d == c)
  {
    var c :| Hidden(reports) == {c} && Part2(reports).value == Frequency(c);
    HiddenSingleton(reports, c);
  }

  /** The only hidden cell is in the square, unreached, on some sensor's
      ring, and the only cell that is all three. */
  lemma HiddenSingleton(reports: seq<Report>, c: Coord)
    requires Hidden(reports) == {c}
    ensures InSquare(c) && Unreached(reports, c)
    ensures exists k :: 0 <= k < |reports| && OnRing(reports[k], c)
    ensures forall d: Coord :: InSquare(d) && Unreached(reports, d)
              && (exists k :: 0 <= k < |reports| && OnRing(reports[k], d))
              ==> d == c
  {
    assert c in Hidden(reports);
    forall d: Coord | InSquare(d) && Unreached(reports, d)
                   && (exists k :: 0 <= k < |reports| && OnRing(reports[k], d))
      ensures d in Hidden(reports)
    {
      HiddenComplete(reports, d);
    }
  }

  /** Every unreached in-square cell on some sensor's ring is hidden. */
  lemma HiddenComplete(reports: seq<Report>, d: Coord)
    requires InSquare(d) && Unreached(reports, d)
    requires exists k :: 0 <= k < |reports| && OnRing(reports[k], d)
    ensures d in Hidden(reports)
  {
    var k :| 0 <= k < |reports| && OnRing(reports[k], d);
    CandidatesComplete(reports, k, d);
  }
}
