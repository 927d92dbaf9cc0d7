/** Day 12: the fewest steps from a start square to the summit, found by a
    breadth-first search that expands one level of squares at a time and
    marks squares visited as soon as they are reached.  A step may climb
    at most one unit and may descend any amount. */
module HillClimbing {
  import opened Results
  import PyText
  import Seqs

  type Cell = (int, int)

  /** The elevation grid, one row per input line. */
  type Grid = seq<seq<int>>

  /** The summit's elevation, given to the letter 'E'. */
  const Summit := 27

  /** The elevation of a map letter: 'a'..'z' are 1..26 (the character code
      minus 96), 'S' is 0 and 'E' is 27. */
  function Elevation(ch: char): (e: int)
    ensures ch == 'S' ==> e == 0
    ensures ch == 'E' ==> e == Summit
    ensures 'a' <= ch <= 'z' ==> 1 <= e <= 26 && e == (ch as int) - ('a' as int) + 1
  {
    var e := (ch as int) - 96;
    if e == -13 then 0 else if e == -27 then Summit else e
  }

  /** Different letters of the map alphabet have different elevations
      unless both are start-level ('S' shares 0 with no letter) or the
      summit. */
  lemma ElevationOrder(a: char, b: char)
    requires 'a' <= a <= 'z' && 'a' <= b <= 'z'
    ensures Elevation(a) < Elevation(b) <==> a < b
    ensures Elevation('S') < Elevation(a) < Elevation('E')
  {
  }

  /** The grid of a file: each line stripped and mapped letter by letter. */
  function ParseGrid(lines: seq<string>): (g: Grid)
    ensures |g| == |lines|
    ensures forall i :: 0 <= i < |g| ==>
              |g[i]| == |PyText.Strip(lines[i])| &&
              forall j :: 0 <= j < |g[i]| ==> g[i][j] == Elevation(PyText.Strip(lines[i])[j])
  {
    seq(|lines|, i requires 0 <= i < |lines| =>
      var line := PyText.Strip(lines[i]);
      seq(|line|, j requires 0 <= j < |line| => Elevation(line[j])))
  }

  /** The letters a map is drawn with. */
  predicate MapLetter(ch: char)
  {
    'a' <= ch <= 'z' || ch == 'S' || ch == 'E'
  }

  /** On a map drawn with its letters, the grid marks the start squares
      (elevation 0) exactly where `S` stands, the lowest squares
      (elevation 1) exactly where `a` stands, and the summit exactly where
      `E` stands. */
  lemma ParseGridLetters(lines: seq<string>, c: Cell)
    requires forall i, j :: 0 <= i < |lines| && 0 <= j < |PyText.Strip(lines[i])| ==> MapLetter(PyText.Strip(lines[i])[j])
    ensures InBounds(ParseGrid(lines), c) <==> 0 <= c.0 < |lines| && 0 <= c.1 < |PyText.Strip(lines[c.0])|
    ensures InBounds(ParseGrid(lines), c) ==>
              var ch := PyText.Strip(lines[c.0])[c.1];
              var e := ParseGrid(lines)[c.0][c.1];
              (e == 0 <==> ch == 'S') && (e == 1 <==> ch == 'a') && (e == Summit <==> ch == 'E')
  {
    var g := ParseGrid(lines);
    if InBounds(g, c) {
      LetterElevation(PyText.Strip(lines[c.0])[c.1]);
    }
  }

  /** Among the map letters only `S` lies at 0, only `a` at 1 and only
      `E` at the summit. */
  lemma LetterElevation(ch: char)
    requires MapLetter(ch)
    ensures (Elevation(ch) == 0 <==> ch == 'S') && (Elevation(ch) == 1 <==> ch == 'a')
    ensures Elevation(ch) == Summit <==> ch == 'E'
  {
  }

  predicate InBounds(g: Grid, c: Cell)
  {
    0 <= c.0 < |g| && 0 <= c.1 < |g[c.0]|
  }

  function Elev(g: Grid, c: Cell): int
    requires InBounds(g, c)
  {
    g[c.0][c.1]
  }

  predicate Adjacent(a: Cell, b: Cell)
  {
    (a.0 == b.0 && (a.1 - b.1 == 1 || b.1 - a.1 == 1)) ||
    (a.1 == b.1 && (a.0 - b.0 == 1 || b.0 - a.0 == 1))
  }

  /** One move of the climb: to an orthogonal neighbour on the map that is
      at most one unit higher. */
  predicate Step(g: Grid, a: Cell, b: Cell)
  {
    InBounds(g, a) && InBounds(g, b) && Adjacent(a, b) && Elev(g, b) - Elev(g, a) <= 1
  }

  /** The four candidates in the order the script tries them: up, down,
      left, right. */
  function Neighbours(c: Cell): (r: seq<Cell>)
    ensures |r| == 4
    ensures forall b :: b in r <==> Adjacent(c, b)
  {
    [(c.0 - 1, c.1), (c.0 + 1, c.1), (c.0, c.1 - 1), (c.0, c.1 + 1)]
  }

  function Elements(s: seq<Cell>): set<Cell>
  {
    set c | c in s
  }


  /** Trying the candidates in order: each one that is a legal move from
      `from` and not yet visited is taken and marked visited at once. */
  function Admit(g: Grid, from: Cell, cands: seq<Cell>, visited: set<Cell>): (r: (seq<Cell>, set<Cell>))
    ensures r.1 == visited + Elements(r.0)
    ensures forall c :: c in r.0 <==> c in cands && c !in visited && Step(g, from, c)
    ensures Seqs.Distinct(r.0)
  {
    if cands == [] then ([], visited)
    else
      var c := cands[0];
      if c !in visited && Step(g, from, c) then
        var rest := Admit(g, from, cands[1..], visited + {c});
        ([c] + rest.0, rest.1)
      else
        Admit(g, from, cands[1..], visited)
  }

  /** `get_valid_grid_locations`: the legal, unvisited neighbours of an
      on-map square, which are marked visited. */
  function ValidLocations(g: Grid, visited: set<Cell>, c: Cell): (r: (seq<Cell>, set<Cell>))
    requires InBounds(g, c)
    ensures r.1 == visited + Elements(r.0)
    ensures forall b :: b in r.0 <==> b !in visited && Step(g, c, b)
    ensures Seqs.Distinct(r.0)
  {
    Admit(g, c, Neighbours(c), visited)
  }

  /** The children of a level: every square's valid locations in turn,
      with the visited marks shared between them. */
  function Expand(g: Grid, frontier: seq<Cell>, visited: set<Cell>): (r: (seq<Cell>, set<Cell>))
    requires forall k :: 0 <= k < |frontier| ==> InBounds(g, frontier[k])
    ensures r.1 == visited + Elements(r.0)
    ensures forall c :: c in r.0 <==> c !in visited && exists f :: f in frontier && Step(g, f, c)
    ensures Seqs.Distinct(r.0)
  {
    if frontier == [] then ([], visited)
    else
      var first := ValidLocations(g, visited, frontier[0]);
      var rest := Expand(g, frontier[1..], first.1);
      assert forall f :: f in frontier <==> f == frontier[0] || f in frontier[1..];
      var all := first.0 + rest.0;
      assert Seqs.Distinct(all) by {
        forall a, b | 0 <= a < b < |all|
          ensures all[a] != all[b]
        {
          if b >= |first.0| && a < |first.0| {
            assert all[a] in first.1;
            assert all[b] in rest.0;
          }
        }
      }
      (all, rest.1)
  }

  /** Every square of the grid. */
  function AllCells(g: Grid): (cells: set<Cell>)
    ensures forall c :: c in cells <==> InBounds(g, c)
  {
    set i, j | 0 <= i < |g| && 0 <= j < |g[i]| :: (i, j)
  }

  /** The squares the search may hold: all on the map, the level's squares
      all visited. */
  ghost predicate SearchState(g: Grid, frontier: seq<Cell>, visited: set<Cell>)
  {
    visited <= AllCells(g) && Elements(frontier) <= visited
  }

  /** Some square of the level is the summit: `27 in child_elevations`. */
  predicate HasSummit(g: Grid, level: seq<Cell>)
  {
    exists k :: 0 <= k < |level| && InBounds(g, level[k]) && Elev(g, level[k]) == Summit
  }

  /** `Level.propagate`: the depth of the first level that reaches the
      summit, or -1 once a level has no children. */
  function Propagate(g: Grid, frontier: seq<Cell>, visited: set<Cell>, index: int): (r: int)
    requires SearchState(g, frontier, visited)
    ensures r == -1 || r > index
    decreases |AllCells(g) - visited|
  {
    ExpandState(g, frontier, visited);
    var next := Expand(g, frontier, visited);
    var children := next.0;
    if children == [] then -1
    else if HasSummit(g, children) then index + 1
    else Propagate(g, children, next.1, index + 1)
  }

  /** Expanding a level keeps the search on the map, and a level with
      children leaves fewer squares unvisited. */
  lemma ExpandState(g: Grid, frontier: seq<Cell>, visited: set<Cell>)
    requires SearchState(g, frontier, visited)
    ensures forall k :: 0 <= k < |frontier| ==> InBounds(g, frontier[k])
    ensures var next := Expand(g, frontier, visited);
            SearchState(g, next.0, next.1) &&
            (next.0 != [] ==> |AllCells(g) - next.1| < |AllCells(g) - visited|)
  {
    forall k | 0 <= k < |frontier| ensures InBounds(g, frontier[k]) {
      assert frontier[k] in Elements(frontier);
    }
    var next := Expand(g, frontier, visited);
    if next.0 != [] {
      assert next.0[0] in AllCells(g) - visited;
      assert AllCells(g) - next.1 < AllCells(g) - visited;
    }
  }

  /** The search from one start square: level 0 holds the start, which is
      visited. */
  function Climb(g: Grid, start: Cell): (r: int)
    requires InBounds(g, start)
    ensures r == -1 || r >= 1
  {
    Propagate(g, [start], {start}, 0)
  }

  // The reference: breadth-first layers as sets, and climbing paths.

  /** Every square one legal move away from some square of `s`. */
  ghost function Succ(g: Grid, s: set<Cell>): (r: set<Cell>)
    ensures forall c :: c in r <==> exists a :: a in s && Step(g, a, c)
  {
    set c | c in AllCells(g) && exists a :: a in s && Step(g, a, c)
  }

  /** Layer `k` (the squares first reached after `k` moves) and the squares
      reached within `k` moves. */
  ghost function Bfs(g: Grid, start: Cell, k: nat): (r: (set<Cell>, set<Cell>))
    ensures r.0 <= r.1
  {
    if k == 0 then ({start}, {start})
    else
      var prev := Bfs(g, start, k - 1);
      var next := Succ(g, prev.0) - prev.1;
      (next, prev.1 + next)
  }

  ghost function Layer(g: Grid, start: Cell, k: nat): set<Cell>
  {
    Bfs(g, start, k).0
  }

  ghost function Seen(g: Grid, start: Cell, k: nat): set<Cell>
  {
    Bfs(g, start, k).1
  }

  ghost predicate SummitIn(g: Grid, s: set<Cell>)
  {
    exists c :: c in s && InBounds(g, c) && Elev(g, c) == Summit
  }

  /** Layer `j` holds the summit. */
  ghost predicate SummitLayer(g: Grid, start: Cell, j: nat)
  {
    SummitIn(g, Layer(g, start, j))
  }

  /** A climb: a start square and a legal move between consecutive squares. */
  ghost predicate IsPath(g: Grid, p: seq<Cell>)
  {
    |p| >= 1 && InBounds(g, p[0]) && forall k :: 0 <= k < |p| - 1 ==> Step(g, p[k], p[k + 1])
  }

  /** The children `Expand` lists are exactly the unvisited successors of
      the level. */
  lemma ExpandIsSucc(g: Grid, frontier: seq<Cell>, visited: set<Cell>)
    requires forall k :: 0 <= k < |frontier| ==> InBounds(g, frontier[k])
    ensures Elements(Expand(g, frontier, visited).0) == Succ(g, Elements(frontier)) - visited
  {
    var kids := Expand(g, frontier, visited).0;
    forall c ensures c in Elements(kids) <==> c in Succ(g, Elements(frontier)) - visited {
      if c in Succ(g, Elements(frontier)) - visited {
        var a :| a in Elements(frontier) && Step(g, a, c);
        assert a in frontier;
      }
    }
  }

  /** Once a layer is empty every later layer is, so none holds the
      summit. */
  lemma EmptyLayersStay(g: Grid, start: Cell, k: nat)
    requires Layer(g, start, k) == {}
    ensures forall j :: j >= k ==> !SummitLayer(g, start, j)
  {
    forall j | j >= k
      ensures Layer(g, start, j) == {}
    {
      EmptyLayerStays(g, start, k, j);
    }
  }

  lemma {:induction false} EmptyLayerStays(g: Grid, start: Cell, k: nat, j: nat)
    requires Layer(g, start, k) == {} && k <= j
    ensures Layer(g, start, j) == {}
    decreases j - k
  {
    if k < j {
      assert Layer(g, start, k + 1) == {} by {
        assert Succ(g, {}) == {};
      }
      EmptyLayerStays(g, start, k + 1, j);
    }
  }

  /** If layer `k + 1` misses the summit, the first summit layer after
      `k + 1` is the first one after `k`. */
  lemma FirstSummitLayer(g: Grid, start: Cell, k: nat, r: int)
    requires !SummitLayer(g, start, k + 1)
    requires r == -1 ==> forall j :: j > k + 1 ==> !SummitLayer(g, start, j)
    requires r != -1 ==> r > k + 1 && SummitLayer(g, start, r) &&
                         forall j :: k + 1 < j < r ==> !SummitLayer(g, start, j)
    ensures r == -1 ==> forall j :: j > k ==> !SummitLayer(g, start, j)
    ensures r != -1 ==> r > k && SummitLayer(g, start, r) &&
                        forall j :: k < j < r ==> !SummitLayer(g, start, j)
  {
  }

  /** One level of the search: the children are expanded, and the search
      stops on an empty level or a level holding the summit. */
  lemma PropagateLevel(g: Grid, frontier: seq<Cell>, visited: set<Cell>, index: int)
    requires SearchState(g, frontier, visited)
    ensures forall i :: 0 <= i < |frontier| ==> InBounds(g, frontier[i])
    ensures var next := Expand(g, frontier, visited);
            SearchState(g, next.0, next.1) &&
            Propagate(g, frontier, visited, index) ==
              if next.0 == [] then -1
              else if HasSummit(g, next.0) then index + 1
              else Propagate(g, next.0, next.1, index + 1)
    ensures Expand(g, frontier, visited).0 != [] ==>
              |AllCells(g) - Expand(g, frontier, visited).1| < |AllCells(g) - visited|
  {
    forall i | 0 <= i < |frontier| ensures InBounds(g, frontier[i]) {
      assert frontier[i] in Elements(frontier);
    }
    var next := Expand(g, frontier, visited);
    if next.0 != [] {
      assert next.0[0] in AllCells(g) - visited;
      assert AllCells(g) - next.1 < AllCells(g) - visited;
    }
  }

  /** `27 in child_elevations` asks whether the level's set of squares
      holds the summit. */
  lemma SummitLevel(g: Grid, level: seq<Cell>, s: set<Cell>)
    requires Elements(level) == s
    ensures HasSummit(g, level) <==> SummitIn(g, s)
  {
    if HasSummit(g, level) {
      var i :| 0 <= i < |level| && InBounds(g, level[i]) && Elev(g, level[i]) == Summit;
      assert level[i] in Elements(level);
    }
    if SummitIn(g, s) {
      var c :| c in s && InBounds(g, c) && Elev(g, c) == Summit;
      assert c in Elements(level);
      var i :| 0 <= i < |level| && level[i] == c;
    }
  }

  /** Expanding layer `k` with the squares seen so far marked gives
      layer `k + 1` and marks the squares seen after `k + 1` moves. */
  lemma ExpandIsNextLayer(g: Grid, start: Cell, frontier: seq<Cell>, visited: set<Cell>, k: nat)
    requires forall i :: 0 <= i < |frontier| ==> InBounds(g, frontier[i])
    requires Elements(frontier) == Layer(g, start, k) && visited == Seen(g, start, k)
    ensures Elements(Expand(g, frontier, visited).0) == Layer(g, start, k + 1)
    ensures Expand(g, frontier, visited).1 == Seen(g, start, k + 1)
  {
    ExpandIsSucc(g, frontier, visited);
  }

  /** The search visits the reference layers in order: started on layer
      `k` with the squares seen so far marked, it answers the first later
      layer holding the summit, and -1 only when no later layer does. */
  lemma {:induction false} PropagateFollowsLayers(g: Grid, start: Cell, frontier: seq<Cell>, visited: set<Cell>, k: nat)
    requires SearchState(g, frontier, visited)
    requires Elements(frontier) == Layer(g, start, k) && visited == Seen(g, start, k)
    ensures var r := Propagate(g, frontier, visited, k);
            (r == -1 ==> forall j :: j > k ==> !SummitLayer(g, start, j)) &&
            (r != -1 ==> r > k && SummitLayer(g, start, r) &&
                         forall j :: k < j < r ==> !SummitLayer(g, start, j))
    decreases |AllCells(g) - visited|
  {
    PropagateLevel(g, frontier, visited, k);
    var next := Expand(g, frontier, visited);
    var children := next.0;
    ExpandIsNextLayer(g, start, frontier, visited, k);
    if children == [] {
      EmptyLayersStay(g, start, k + 1);
    } else if HasSummit(g, children) {
      SummitLevel(g, children, Layer(g, start, k + 1));
    } else {
      SummitLevel(g, children, Layer(g, start, k + 1));
      PropagateFollowsLayers(g, start, children, next.1, k + 1);
      FirstSummitLayer(g, start, k, Propagate(g, children, next.1, k + 1));
    }
  }

  /** A climb from `start` to `c` in exactly `n` moves. */
  ghost predicate ClimbTo(g: Grid, start: Cell, p: seq<Cell>, c: Cell, n: nat)
  {
    IsPath(g, p) && p[0] == start && |p| == n + 1 && p[n] == c
  }

  /** Appending a legal move extends a climb. */
  lemma PathSnoc(g: Grid, p: seq<Cell>, c: Cell)
    requires IsPath(g, p) && Step(g, p[|p| - 1], c)
    ensures IsPath(g, p + [c])
  {
    var q := p + [c];
    forall k | 0 <= k < |q| - 1
      ensures Step(g, q[k], q[k + 1])
    {
      if k < |p| - 1 {
        assert q[k] == p[k] && q[k + 1] == p[k + 1];
      }
    }
  }

  /** Every square of layer `k` is reached by a climb of `k` moves. */
  lemma {:induction false} LayerReached(g: Grid, start: Cell, k: nat, c: Cell)
    requires InBounds(g, start) && c in Layer(g, start, k)
    ensures exists p :: ClimbTo(g, start, p, c, k)
  {
    if k == 0 {
      assert ClimbTo(g, start, [start], c, 0);
    } else {
      var prev := Layer(g, start, k - 1);
      assert c in Succ(g, prev);
      var a :| a in prev && Step(g, a, c);
      LayerReached(g, start, k - 1, a);
      var p :| ClimbTo(g, start, p, a, k - 1);
      PathSnoc(g, p, c);
      assert ClimbTo(g, start, p + [c], c, k);
    }
  }

  /** A square seen within `k` moves lies on some layer up to `k`, and the
      seen squares only grow. */
  lemma {:induction false} SeenLayers(g: Grid, start: Cell, k: nat, c: Cell)
    requires c in Seen(g, start, k)
    ensures exists j :: 0 <= j <= k && c in Layer(g, start, j)
  {
    if k == 0 || c in Layer(g, start, k) {
      assert c in Layer(g, start, k);
    } else {
      assert c in Seen(g, start, k - 1);
      SeenLayers(g, start, k - 1, c);
    }
  }

  lemma {:induction false} SeenGrows(g: Grid, start: Cell, j: nat, k: nat)
    requires j <= k
    ensures Seen(g, start, j) <= Seen(g, start, k)
    decreases k - j
  {
    if j < k {
      SeenGrows(g, start, j, k - 1);
    }
  }

  /** BFS completeness: the end of a climb of `n` moves from the start is
      seen within `n` moves. */
  lemma {:induction false} ClimbSeen(g: Grid, start: Cell, p: seq<Cell>, n: nat)
    requires IsPath(g, p) && p[0] == start && |p| == n + 1
    ensures p[n] in Seen(g, start, n)
  {
    if n > 0 {
      var q := p[..n];
      assert IsPath(g, q) by {
        forall k | 0 <= k < |q| - 1 ensures Step(g, q[k], q[k + 1]) {
          assert q[k] == p[k] && q[k + 1] == p[k + 1];
        }
      }
      ClimbSeen(g, start, q, n - 1);
      var a := p[n - 1];
      assert Step(g, a, p[n]);
      SeenLayers(g, start, n - 1, a);
      var j :| 0 <= j <= n - 1 && a in Layer(g, start, j);
      assert p[n] in Succ(g, Layer(g, start, j));
      assert p[n] in Seen(g, start, j + 1);
      SeenGrows(g, start, j + 1, n);
    }
  }

  /** A climb from `start` that ends on a summit square other than the
      start. */
  ghost predicate SummitClimb(g: Grid, start: Cell, p: seq<Cell>)
  {
    IsPath(g, p) && p[0] == start && p[|p| - 1] != start &&
    InBounds(g, p[|p| - 1]) && Elev(g, p[|p| - 1]) == Summit
  }

  /** The search from a start square answers the length of a shortest
      climb to a summit square: a climb of that many moves exists, no
      climb is shorter, and -1 means there is no such climb at all. */
  lemma ClimbIsShortest(g: Grid, start: Cell)
    requires InBounds(g, start)
    ensures Climb(g, start) != -1 ==>
              exists p :: SummitClimb(g, start, p) && |p| == Climb(g, start) + 1
    ensures forall p :: SummitClimb(g, start, p) ==>
              Climb(g, start) != -1 && Climb(g, start) <= |p| - 1
  {
    var r := Climb(g, start);
    assert Elements([start]) == {start};
    PropagateFollowsLayers(g, start, [start], {start}, 0);
    if r != -1 {
      assert SummitLayer(g, start, r);
      var c :| c in Layer(g, start, r) && InBounds(g, c) && Elev(g, c) == Summit;
      LayerReached(g, start, r, c);
      var p :| ClimbTo(g, start, p, c, r);
      SeenGrows(g, start, 0, r - 1);
      assert c != start;
      assert SummitClimb(g, start, p);
    }
    forall p | SummitClimb(g, start, p)
      ensures r != -1 && r <= |p| - 1
    {
      var n := |p| - 1;
      ClimbSeen(g, start, p, n);
      SeenLayers(g, start, n, p[n]);
      var j :| 0 <= j <= n && p[n] in Layer(g, start, j);
      assert j != 0;
      assert SummitLayer(g, start, j);
    }
  }

  /** Row-major order, the order of `np.where`. */
  predicate Before(a: Cell, b: Cell)
  {
    a.0 < b.0 || (a.0 == b.0 && a.1 < b.1)
  }

  ghost predicate RowMajor(r: seq<Cell>)
  {
    forall x, y :: 0 <= x < y < |r| ==> Before(r[x], r[y])
  }

  /** The positions of the zeros of row `i`, left to right. */
  function RowZeros(i: int, row: seq<int>): (r: seq<Cell>)
    ensures forall c :: c in r <==> c.0 == i && 0 <= c.1 < |row| && row[c.1] == 0
    ensures RowMajor(r)
    ensures forall x :: 0 <= x < |r| ==> r[x].0 == i
  {
    if row == [] then []
    else
      var init := RowZeros(i, row[..|row| - 1]);
      var last := |row| - 1;
      assert forall c :: c in init ==> c.1 < last;
      if row[last] == 0 then init + [(i, last)] else init
  }

  /** `np.where(grid == 0)`, read as (row, column) pairs in row-major
      order. */
  function ZeroCells(g: Grid): (r: seq<Cell>)
    ensures forall c :: c in r <==> InBounds(g, c) && Elev(g, c) == 0
    ensures RowMajor(r)
    ensures forall x :: 0 <= x < |r| ==> r[x].0 < |g|
  {
    if g == [] then []
    else
      var last := |g| - 1;
      var init := ZeroCells(g[..last]);
      var row := RowZeros(last, g[last]);
      var r := init + row;
      assert forall c :: c in init ==> InBounds(g[..last], c) && c.0 < last;
      assert RowMajor(r) by {
        forall x, y | 0 <= x < y < |r| ensures Before(r[x], r[y]) {
          if x < |init| && y >= |init| {
            assert r[x] in init;
            assert r[y] == row[y - |init|];
          } else if x >= |init| {
            assert r[x] == row[x - |init|] && r[y] == row[y - |init|];
          }
        }
      }
      r
  }

  /** Every elevation lowered by one except the zeros: `grid[grid != 0] -= 1`. */
  function Lower(g: Grid): (h: Grid)
  {
    seq(|g|, i requires 0 <= i < |g| =>
      seq(|g[i]|, j requires 0 <= j < |g[i]| => if g[i][j] != 0 then g[i][j] - 1 else g[i][j]))
  }

  /** Every elevation raised by one: `grid += 1`. */
  function Raise(g: Grid): (h: Grid)
  {
    seq(|g|, i requires 0 <= i < |g| => seq(|g[i]|, j requires 0 <= j < |g[i]| => g[i][j] + 1))
  }

  /** `get_valid_starting_positions`: the squares of elevation 0 (part 1),
      or of elevation 0 or 1 (part 2), in row-major order, with the grid
      the search then runs on.  Part 2 lowers and raises the grid in place,
      which leaves every square as it was except that 0 becomes 1. */
  function StartingPositions(g: Grid, part2: bool): (r: (seq<Cell>, Grid))
    ensures forall c :: c in r.0 <==> InBounds(g, c) && (Elev(g, c) == 0 || (part2 && Elev(g, c) == 1))
    ensures RowMajor(r.0)
    ensures forall c :: c in r.0 ==> InBounds(r.1, c)
    ensures |r.1| == |g| && forall i :: 0 <= i < |g| ==> |r.1[i]| == |g[i]|
    ensures forall i, j :: 0 <= i < |g| && 0 <= j < |g[i]| ==>
              r.1[i][j] == if part2 && g[i][j] == 0 then 1 else g[i][j]
  {
    if part2 then
      var low := Lower(g);
      (ZeroCells(low), Raise(low))
    else
      (ZeroCells(g), g)
  }

  /** The search results of the start squares that reached a summit, in
      order: `path_lenghts`. */
  function Found(g: Grid, starts: seq<Cell>): (r: seq<int>)
    requires forall s :: s in starts ==> InBounds(g, s)
    ensures forall v :: v in r <==> v != -1 && exists s :: s in starts && Climb(g, s) == v
  {
    if starts == [] then []
    else
      var rest := Found(g, starts[1..]);
      assert forall s :: s in starts <==> s == starts[0] || s in starts[1..];
      var here := Climb(g, starts[0]);
      if here != -1 then [here] + rest else rest
  }

  /** The script's answer: the fewest moves over all start squares, or
      ValueError from `min` of an empty list when no start reaches a
      summit. */
  function Answer(g: Grid, part2: bool): Result<int>
  {
    var sp := StartingPositions(g, part2);
    var lengths := Found(sp.1, sp.0);
    if lengths == [] then Err("ValueError") else Ok(Seqs.Min(lengths))
  }

  /** The answer is the length of a shortest climb from any start square
      to a summit, on the grid the search runs on; ValueError exactly when
      no start square has one. */
  lemma AnswerIsShortest(g: Grid, part2: bool)
    ensures var sp := StartingPositions(g, part2);
            var r := Answer(g, part2);
            (r.Ok? ==> exists s, p :: s in sp.0 && SummitClimb(sp.1, s, p) && |p| == r.value + 1) &&
            (forall s, p :: s in sp.0 && SummitClimb(sp.1, s, p) ==> r.Ok? && r.value <= |p| - 1)
  {
    var sp := StartingPositions(g, part2);
    var lengths := Found(sp.1, sp.0);
    var r := Answer(g, part2);
    if r.Ok? {
      var m := Seqs.Min(lengths);
      assert m in lengths;
      var s :| s in sp.0 && Climb(sp.1, s) == m;
      ClimbIsShortest(sp.1, s);
    }
    forall s, p | s in sp.0 && SummitClimb(sp.1, s, p)
      ensures r.Ok? && r.value <= |p| - 1
    {
      ClimbIsShortest(sp.1, s);
      var v := Climb(sp.1, s);
      assert v in lengths;
      var i :| 0 <= i < |lengths| && lengths[i] == v;
    }
  }
}
