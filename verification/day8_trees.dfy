/** Day 8: a grid of tree heights.  Part 1 counts the trees visible from
    outside the grid along a row or column; part 2 finds the best scenic
    score, the product of the viewing distances in the four directions. */
module TreetopTreeHouse {
  import opened Results
  import opened Seqs

  type Grid = seq<seq<int>>

  /** A rectangular grid with at least one column, as `np.genfromtxt`
      produces it. */
  ghost predicate IsGrid(g: Grid)
  {
    |g| > 0 && |g[0]| > 0 && forall i :: 0 <= i < |g| ==> |g[i]| == |g[0]|
  }

  function Width(g: Grid): nat
    requires |g| > 0
  {
    |g[0]|
  }

  function Column(g: Grid, j: nat): (col: seq<int>)
    requires IsGrid(g) && j < Width(g)
    ensures |col| == |g|
    ensures forall i :: 0 <= i < |g| ==> col[i] == g[i][j]
  {
    seq(|g|, i requires 0 <= i < |g| => g[i][j])
  }

  function Reverse(s: seq<int>): (r: seq<int>)
    ensures |r| == |s|
    ensures forall i :: 0 <= i < |s| ==> r[i] == s[|s| - 1 - i]
  {
    seq(|s|, i requires 0 <= i < |s| => s[|s| - 1 - i])
  }

  /** Tree `k` is strictly taller than every tree before it. */
  predicate TallerThanBefore(line: seq<int>, k: nat)
    requires k < |line|
  {
    forall m :: 0 <= m < k ==> line[m] < line[k]
  }

  /** The visibility flags from the start of a line. */
  function VisibleFlags(line: seq<int>): (r: seq<int>)
    ensures |r| == |line|
    ensures forall k :: 0 <= k < |line| ==> r[k] == if TallerThanBefore(line, k) then 1 else 0
  {
    seq(|line|, k requires 0 <= k < |line| => if TallerThanBefore(line, k) then 1 else 0)
  }

  /** `get_visible_trees`: the first tree is visible, and every later tree
      that beats the running maximum.  An empty line raises IndexError. */
  method GetVisibleTrees(line: seq<int>) returns (r: Result<seq<int>>)
    ensures r.Ok? <==> line != []
    ensures r.Ok? ==> r.value == VisibleFlags(line)
  {
    if line == [] {
      return Err("IndexError");
    }
    var visible := [1];
    var currMax := line[0];
    var i := 1;
    while i < |line|
      invariant 1 <= i <= |line|
      invariant |visible| == i
      invariant forall k :: 0 <= k < i ==> visible[k] == if TallerThanBefore(line, k) then 1 else 0
      invariant exists m :: 0 <= m < i && line[m] == currMax
      invariant forall m :: 0 <= m < i ==> line[m] <= currMax
    {
      if line[i] > currMax {
        visible := visible + [1];
        currMax := line[i];
      } else {
        visible := visible + [0];
      }
      i := i + 1;
    }
    return Ok(visible);
  }

  /** The four sweeps of part 1: a row as read, a row reversed (and the
      result reversed back), a column, a column reversed. */
  function FromLeft(g: Grid, i: nat, j: nat): int
    requires IsGrid(g) && i < |g| && j < Width(g)
  {
    VisibleFlags(g[i])[j]
  }

  function FromRight(g: Grid, i: nat, j: nat): int
    requires IsGrid(g) && i < |g| && j < Width(g)
  {
    Reverse(VisibleFlags(Reverse(g[i])))[j]
  }

  function FromTop(g: Grid, i: nat, j: nat): int
    requires IsGrid(g) && i < |g| && j < Width(g)
  {
    VisibleFlags(Column(g, j))[i]
  }

  function FromBottom(g: Grid, i: nat, j: nat): int
    requires IsGrid(g) && i < |g| && j < Width(g)
  {
    Reverse(VisibleFlags(Reverse(Column(g, j))))[i]
  }

  /** The cell is counted when the sum of its four flags is at least one. */
  function Counted(g: Grid, i: nat, j: nat): bool
    requires IsGrid(g) && i < |g| && j < Width(g)
  {
    FromLeft(g, i, j) + FromRight(g, i, j) + FromTop(g, i, j) + FromBottom(g, i, j) >= 1
  }

  /** Visibility in the puzzle's own terms: every tree between this one and
      some edge of the grid, along its row or its column, is shorter. */
  ghost predicate SeenFromOutside(g: Grid, i: nat, j: nat)
    requires IsGrid(g) && i < |g| && j < Width(g)
  {
    (forall m :: 0 <= m < j ==> g[i][m] < g[i][j])
    || (forall m :: j < m < Width(g) ==> g[i][m] < g[i][j])
    || (forall m :: 0 <= m < i ==> g[m][j] < g[i][j])
    || (forall m :: i < m < |g| ==> g[m][j] < g[i][j])
  }

  /** A reversed sweep flags exactly the trees taller than everything
      after them. */
  lemma ReversedSweep(line: seq<int>, k: nat)
    requires k < |line|
    ensures Reverse(VisibleFlags(Reverse(line)))[k] == 1 <==> forall m :: k < m < |line| ==> line[m] < line[k]
  {
    var rev := Reverse(line);
    var n := |line|;
    assert rev[n - 1 - k] == line[k];
    if forall m :: k < m < n ==> line[m] < line[k] {
      forall m | 0 <= m < n - 1 - k ensures rev[m] < rev[n - 1 - k] {
        assert rev[m] == line[n - 1 - m];
      }
    }
    if TallerThanBefore(rev, n - 1 - k) {
      forall m | k < m < n ensures line[m] < line[k] {
        assert line[m] == rev[n - 1 - m];
      }
    }
  }

  /** Part 1 counts a tree exactly when it can be seen from outside. */
  lemma CountedIffSeen(g: Grid, i: nat, j: nat)
    requires IsGrid(g) && i < |g| && j < Width(g)
    ensures Counted(g, i, j) <==> SeenFromOutside(g, i, j)
  {
    ReversedSweep(g[i], j);
    ReversedSweep(Column(g, j), i);
    assert |g[i]| == Width(g);
  }

  /** Trees on the border are always counted. */
  lemma BorderCounted(g: Grid, i: nat, j: nat)
    requires IsGrid(g) && i < |g| && j < Width(g)
    requires i == 0 || j == 0 || i == |g| - 1 || j == Width(g) - 1
    ensures Counted(g, i, j)
  {
    CountedIffSeen(g, i, j);
  }

  /** Counted cells of row `i` from column `j` on. */
  function CountRow(g: Grid, i: nat, j: nat): (n: nat)
    requires IsGrid(g) && i < |g| && j <= Width(g)
    ensures n <= Width(g) - j
    decreases Width(g) - j
  {
    if j == Width(g) then 0 else (if Counted(g, i, j) then 1 else 0) + CountRow(g, i, j + 1)
  }

  /** Part 1: the number of counted cells of rows `i` and after. */
  function CountVisible(g: Grid, i: nat): (n: nat)
    requires IsGrid(g) && i <= |g|
    ensures n <= (|g| - i) * Width(g)
    decreases |g| - i
  {
    if i == |g| then 0 else CountRow(g, i, 0) + CountVisible(g, i + 1)
  }

  /** The whole border is counted, so a row on the border counts fully. */
  lemma {:induction false} BorderRowCounted(g: Grid, i: nat, j: nat)
    requires IsGrid(g) && (i == 0 || i == |g| - 1) && i < |g| && j <= Width(g)
    ensures CountRow(g, i, j) == Width(g) - j
    decreases Width(g) - j
  {
    if j < Width(g) {
      BorderCounted(g, i, j);
      BorderRowCounted(g, i, j + 1);
    }
  }

  /** The number of trees seen along `view` by a tree of height `h`: up to
      and including the first tree at least as tall, or all of them. */
  function ViewDistance(view: seq<int>, h: int): (d: nat)
    ensures d <= |view|
    ensures view != [] ==> d >= 1
    ensures forall m :: 0 <= m < d - 1 ==> view[m] < h
    ensures d < |view| ==> view[d - 1] >= h
  {
    if view == [] then 0
    else if view[0] >= h then 1
    else 1 + ViewDistance(view[1..], h)
  }

  /** One of the four loops: count trees until one blocks the view or the
      edge is reached.  The count starts at zero every time, because the
      previous loop reset it when it stopped. */
  method Look(view: seq<int>, h: int) returns (count: nat)
    ensures count == ViewDistance(view, h)
  {
    count := 0;
    var k := 0;
    while k < |view|
      invariant 0 <= k <= |view|
      invariant count == k
      invariant forall m :: 0 <= m < k ==> view[m] < h
      invariant ViewDistance(view, h) == k + ViewDistance(view[k..], h)
    {
      count := count + 1;
      if view[k] >= h || k == |view| - 1 {
        assert ViewDistance(view[k..], h) == 1;
        return;
      }
      assert view[k..][1..] == view[k + 1..];
      k := k + 1;
    }
  }

  /** The trees seen looking left, right, up and down from `(i, j)`,
      nearest first. */
  function Left(g: Grid, i: nat, j: nat): seq<int>
    requires IsGrid(g) && i < |g| && j < Width(g)
  {
    Reverse(g[i][..j])
  }

  function Right(g: Grid, i: nat, j: nat): seq<int>
    requires IsGrid(g) && i < |g| && j < Width(g)
  {
    g[i][j + 1..]
  }

  function Up(g: Grid, i: nat, j: nat): seq<int>
    requires IsGrid(g) && i < |g| && j < Width(g)
  {
    Reverse(Column(g, j)[..i])
  }

  function Down(g: Grid, i: nat, j: nat): seq<int>
    requires IsGrid(g) && i < |g| && j < Width(g)
  {
    Column(g, j)[i + 1..]
  }

  /** A direction whose loop does not run leaves the product alone. */
  function Factor(view: seq<int>, h: int): (f: nat)
    ensures view == [] ==> f == 1
    ensures view != [] ==> f == ViewDistance(view, h)
  {
    if view == [] then 1 else ViewDistance(view, h)
  }

  function Product4(a: int, b: int, c: int, d: int): int
  {
    a * b * c * d
  }

  /** `get_scenic_score` */
  function ScenicScore(g: Grid, i: nat, j: nat): int
    requires IsGrid(g) && i < |g| && j < Width(g)
  {
    var h := g[i][j];
    var l: int, r: int := Factor(Left(g, i, j), h), Factor(Right(g, i, j), h);
    var u: int, d: int := Factor(Up(g, i, j), h), Factor(Down(g, i, j), h);
    Product4(l, r, u, d)
  }

  lemma MulMono(a: nat, b: nat, c: nat, d: nat)
    requires a <= c && b <= d
    ensures a * b <= c * d
  {
    assert a * b <= c * b;
    assert c * b <= c * d;
  }

  lemma MulPositive(a: nat, b: nat)
    requires a >= 1 && b >= 1
    ensures a * b >= 1
  {
  }

  /** For an interior tree every viewing distance is between 1 and the
      distance to the edge, so the score is at least 1 and at most the
      product of those distances. */
  lemma ScenicScoreBounds(g: Grid, i: nat, j: nat)
    requires IsGrid(g) && 0 < i < |g| - 1 && 0 < j < Width(g) - 1
    ensures 1 <= ScenicScore(g, i, j) <= j * (Width(g) - 1 - j) * i * (|g| - 1 - i)
  {
    var h := g[i][j];
    assert |g[i]| == Width(g);
    var l, r, u, d := Factor(Left(g, i, j), h), Factor(Right(g, i, j), h),
                      Factor(Up(g, i, j), h), Factor(Down(g, i, j), h);
    assert 1 <= l <= j;
    assert 1 <= r <= Width(g) - 1 - j;
    assert 1 <= u <= i;
    assert 1 <= d <= |g| - 1 - i;
    MulMono(l, r, j, Width(g) - 1 - j);
    MulMono(l * r, u, j * (Width(g) - 1 - j), i);
    MulMono(l * r * u, d, j * (Width(g) - 1 - j) * i, |g| - 1 - i);
    MulPositive(l, r);
    MulPositive(l * r, u);
    MulPositive(l * r * u, d);
  }

  /** The script's four loops, with the shared counter that each loop
      starts from zero. */
  method GetScenicScore(g: Grid, i: nat, j: nat) returns (score: int)
    requires IsGrid(g) && i < |g| && j < Width(g)
    ensures score == ScenicScore(g, i, j)
  {
    var h := g[i][j];
    var left, right, up, down := Left(g, i, j), Right(g, i, j), Up(g, i, j), Down(g, i, j);
    var l, r, u, d := 1, 1, 1, 1;
    if left != [] {
      l := Look(left, h);
    }
    if right != [] {
      r := Look(right, h);
    }
    if up != [] {
      u := Look(up, h);
    }
    if down != [] {
      d := Look(down, h);
    }
    score := Product4(l, r, u, d);
  }

  predicate Interior(g: Grid, i: nat, j: nat)
    requires IsGrid(g)
  {
    0 < i < |g| - 1 && 0 < j < Width(g) - 1
  }

  /** The score grid: zeros, with the interior cells filled in. */
  function Scores(g: Grid): (m: seq<seq<int>>)
    requires IsGrid(g)
  {
    seq(|g|, i requires 0 <= i < |g| =>
      seq(Width(g), j requires 0 <= j < Width(g) => if Interior(g, i, j) then ScenicScore(g, i, j) else 0))
  }

  /** Part 2: `scenic_scores.max()`. */
  function BestScenicScore(g: Grid): int
    requires IsGrid(g)
  {
    var m := Scores(g);
    Max(seq(|m|, i requires 0 <= i < |m| => Max(m[i])))
  }

  /** The best score bounds every interior tree's score, is reached by one
      of them unless it is zero, and is never negative because the border
      entries stay zero. */
  lemma BestScenicScoreIsBest(g: Grid)
    requires IsGrid(g)
    ensures BestScenicScore(g) >= 0
    ensures forall i, j :: 0 <= i < |g| && 0 <= j < Width(g) && Interior(g, i, j) ==> ScenicScore(g, i, j) <= BestScenicScore(g)
    ensures BestScenicScore(g) == 0 || exists i, j :: 0 <= i < |g| && 0 <= j < Width(g) && Interior(g, i, j) && ScenicScore(g, i, j) == BestScenicScore(g)
  {
    var m := Scores(g);
    var maxes := seq(|m|, i requires 0 <= i < |m| => Max(m[i]));
    var best := BestScenicScore(g);
    assert best == Max(maxes);
    assert m[0][0] == 0;
    assert maxes[0] >= m[0][0];
    forall i, j | 0 <= i < |g| && 0 <= j < Width(g) && Interior(g, i, j)
      ensures ScenicScore(g, i, j) <= best
    {
      assert m[i][j] == ScenicScore(g, i, j);
      assert m[i][j] <= maxes[i];
    }
    if best != 0 {
      var i :| 0 <= i < |maxes| && maxes[i] == best;
      var j :| 0 <= j < |m[i]| && m[i][j] == maxes[i];
      assert Interior(g, i, j);
      assert ScenicScore(g, i, j) == best;
    }
  }
}
