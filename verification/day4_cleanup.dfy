/** Day 4: pairs of section ranges.  Part 1 counts the pairs where one
    range contains the other, part 2 the pairs that overlap.  The script
    works on the sets of section numbers, not on the endpoints. */
module CampCleanup {
  import opened Results
  import PyText

  /** `set(range(lo, hi + 1))`: both endpoints included, empty when
      `lo > hi`. */
  function Sections(lo: int, hi: int): (s: set<int>)
    ensures forall x :: x in s <==> lo <= x <= hi
    decreases hi - lo
  {
    if lo > hi then {} else {lo} + Sections(lo + 1, hi)
  }

  datatype Pair = Pair(lo1: int, hi1: int, lo2: int, hi2: int)

  /** Whether a pair is counted.  With `--part-2` a non-empty intersection
      counts; otherwise (and also in part 2 when the intersection is empty,
      since the test is an `elif`) a pair counts when one set lies inside
      the intersection. */
  function Counts(p: Pair, part2: bool): bool
  {
    var s1 := Sections(p.lo1, p.hi1);
    var s2 := Sections(p.lo2, p.hi2);
    var common := s1 * s2;
    if part2 && |common| > 0 then true
    else s1 <= common || s2 <= common
  }

  predicate WellFormed(p: Pair)
  {
    p.lo1 <= p.hi1 && p.lo2 <= p.hi2
  }

  function Swap(p: Pair): Pair
  {
    Pair(p.lo2, p.hi2, p.lo1, p.hi1)
  }

  /** For well-formed ranges, part 1 counts exactly the pairs where one
      range's endpoints lie within the other's. */
  lemma ContainmentByEndpoints(p: Pair)
    requires WellFormed(p)
    ensures Counts(p, false) <==> (p.lo2 <= p.lo1 && p.hi1 <= p.hi2) || (p.lo1 <= p.lo2 && p.hi2 <= p.hi1)
  {
    var s1 := Sections(p.lo1, p.hi1);
    var s2 := Sections(p.lo2, p.hi2);
    assert p.lo1 in s1 && p.hi1 in s1;
    assert p.lo2 in s2 && p.hi2 in s2;
  }

  /** For well-formed ranges, part 2 counts exactly the overlapping pairs. */
  lemma OverlapByEndpoints(p: Pair)
    requires WellFormed(p)
    ensures Counts(p, true) <==> p.lo1 <= p.hi2 && p.lo2 <= p.hi1
  {
    var s1 := Sections(p.lo1, p.hi1);
    var s2 := Sections(p.lo2, p.hi2);
    if p.lo1 <= p.hi2 && p.lo2 <= p.hi1 {
      var x := if p.lo1 < p.lo2 then p.lo2 else p.lo1;
      assert x in s1 * s2;
    } else {
      assert s1 * s2 == {};
      assert p.lo1 in s1 && p.lo2 in s2;
    }
  }

  /** A reversed range is an empty set, which lies inside any
      intersection, so such a pair is counted in both parts. */
  lemma EmptyRangeCounts(p: Pair, part2: bool)
    requires p.lo1 > p.hi1 || p.lo2 > p.hi2
    ensures Counts(p, part2)
  {
    var s1 := Sections(p.lo1, p.hi1);
    var s2 := Sections(p.lo2, p.hi2);
    if p.lo1 > p.hi1 {
      assert s1 == {};
    } else {
      assert s2 == {};
    }
  }

  /** The order of the two elves does not matter. */
  lemma CountsSymmetric(p: Pair, part2: bool)
    ensures Counts(Swap(p), part2) == Counts(p, part2)
  {
    var s1 := Sections(p.lo1, p.hi1);
    var s2 := Sections(p.lo2, p.hi2);
    assert s1 * s2 == s2 * s1;
  }

  /** Every pair counted in part 1 is counted in part 2. */
  lemma PartOneImpliesPartTwo(p: Pair)
    ensures Counts(p, false) ==> Counts(p, true)
  {
  }

  /** "a-b" with exactly one dash and two integers. */
  function ParseRange(text: string): Result<(int, int)>
  {
    var ends := PyText.Split(text, '-');
    if |ends| != 2 then Err("ValueError")
    else match (PyText.ParseInt(ends[0]), PyText.ParseInt(ends[1]))
      case (Some(lo), Some(hi)) => Ok((lo, hi))
      case _ => Err("ValueError")
  }

  /** "a-b,c-d" after stripping the line. */
  function ParsePair(raw: string): (r: Result<Pair>)
    ensures r.Ok? ==> |PyText.Split(PyText.Strip(raw), ',')| == 2
    ensures r.Ok? ==> var halves := PyText.Split(PyText.Strip(raw), ',');
              ParseRange(halves[0]) == Ok((r.value.lo1, r.value.hi1)) &&
              ParseRange(halves[1]) == Ok((r.value.lo2, r.value.hi2))
  {
    var halves := PyText.Split(PyText.Strip(raw), ',');
    if |halves| != 2 then Err("ValueError")
    else
      var (lo1, hi1) :- ParseRange(halves[0]);
      var (lo2, hi2) :- ParseRange(halves[1]);
      Ok(Pair(lo1, hi1, lo2, hi2))
  }

  /** A range as the puzzle writes it, `a-b`. */
  function ShowRange(lo: nat, hi: nat): string
  {
    PyText.ShowInt(lo) + "-" + PyText.ShowInt(hi)
  }

  /** `a-b` reads back as the range from `a` to `b`. */
  lemma ParseShowRange(lo: nat, hi: nat)
    ensures ParseRange(ShowRange(lo, hi)) == Ok((lo, hi))
  {
    var a, b := PyText.ShowInt(lo), PyText.ShowInt(hi);
    assert PyText.Split(ShowRange(lo, hi), '-') == [a, b] by {
      assert PyText.AllDigits(a) && PyText.AllDigits(b);
      PyText.SplitTwo(a, b, '-');
      assert ShowRange(lo, hi) == a + ['-'] + b;
    }
    assert PyText.ParseInt(a) == Some(lo) by {
      PyText.ParseShow(lo);
    }
    assert PyText.ParseInt(b) == Some(hi) by {
      PyText.ParseShow(hi);
    }
  }

  /** A written range is digits around a dash: no comma, and a digit at
      either end. */
  lemma ShowRangeChars(lo: nat, hi: nat)
    ensures var s := ShowRange(lo, hi);
            s != [] && PyText.IsDigit(s[0]) && PyText.IsDigit(s[|s| - 1]) && ',' !in s
  {
    var a, b := PyText.ShowInt(lo), PyText.ShowInt(hi);
    assert PyText.AllDigits(a) && PyText.AllDigits(b);
    var s := ShowRange(lo, hi);
    assert s[0] == a[0] && s[|s| - 1] == b[|b| - 1];
    assert forall k :: 0 <= k < |s| ==> s[k] == '-' || PyText.IsDigit(s[k]) by {
      assert forall k :: 0 <= k < |s| ==> s[k] == if k < |a| then a[k] else if k == |a| then '-' else b[k - |a| - 1];
    }
  }

  /** A line as the puzzle writes it, `a-b,c-d`, parses back to its pair. */
  lemma ParsePairShow(lo1: nat, hi1: nat, lo2: nat, hi2: nat)
    ensures ParsePair(ShowRange(lo1, hi1) + "," + ShowRange(lo2, hi2)) == Ok(Pair(lo1, hi1, lo2, hi2))
  {
    var first, second := ShowRange(lo1, hi1), ShowRange(lo2, hi2);
    var line := first + "," + second;
    assert PyText.Split(PyText.Strip(line), ',') == [first, second] by {
      ShowRangeChars(lo1, hi1);
      ShowRangeChars(lo2, hi2);
      assert line[0] == first[0] && line[|line| - 1] == second[|second| - 1];
      PyText.StripUnpadded(line);
      PyText.SplitTwo(first, second, ',');
      assert line == first + [','] + second;
    }
    ParseShowRange(lo1, hi1);
    ParseShowRange(lo2, hi2);
  }

  /** The number of counted pairs. */
  function CountPairs(pairs: seq<Pair>, part2: bool): (n: nat)
    ensures n <= |pairs|
  {
    if pairs == [] then 0
    else CountPairs(pairs[..|pairs| - 1], part2) + (if Counts(pairs[|pairs| - 1], part2) then 1 else 0)
  }

  /** Part 1 never counts more than part 2. */
  lemma {:induction false} PartOneAtMostPartTwo(pairs: seq<Pair>)
    ensures CountPairs(pairs, false) <= CountPairs(pairs, true)
  {
    if pairs != [] {
      PartOneAtMostPartTwo(pairs[..|pairs| - 1]);
      PartOneImpliesPartTwo(pairs[|pairs| - 1]);
    }
  }

  /** Both counts are the same whichever elf of each pair is read first. */
  lemma {:induction false} CountPairsSymmetric(pairs: seq<Pair>, swapped: seq<Pair>, part2: bool)
    requires |swapped| == |pairs|
    requires forall i :: 0 <= i < |pairs| ==> swapped[i] == Swap(pairs[i])
    ensures CountPairs(swapped, part2) == CountPairs(pairs, part2)
  {
    if pairs != [] {
      CountPairsSymmetric(pairs[..|pairs| - 1], swapped[..|swapped| - 1], part2);
      CountsSymmetric(pairs[|pairs| - 1], part2);
    }
  }

  /** The printed count for a whole file. */
  function Answer(raws: seq<string>, part2: bool): (r: Result<nat>)
    ensures r.Ok? ==> r.value <= |raws|
  {
    var pairs :- ParseAll(raws);
    Ok(CountPairs(pairs, part2))
  }

  function ParseAll(raws: seq<string>): (r: Result<seq<Pair>>)
    ensures r.Ok? ==> |r.value| == |raws|
    ensures r.Ok? ==> forall i :: 0 <= i < |raws| ==> ParsePair(raws[i]) == Ok(r.value[i])
  {
    Collect(seq(|raws|, i requires 0 <= i < |raws| => ParsePair(raws[i])))
  }
}
