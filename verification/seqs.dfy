/** Sums, products, extremes and the descending sort that several puzzles
    use (`sum(...)`, `min(...)`, `max(...)`, `sorted(..., reverse=True)`). */
module Seqs {

  /** `abs(x)` */
  function Abs(x: int): nat
  {
    if x < 0 then -x else x
  }

  /** `min(a, b)` */
  function Smaller(a: int, b: int): int
  {
    if a <= b then a else b
  }

  /** `max(a, b)` */
  function Larger(a: int, b: int): int
  {
    if a <= b then b else a
  }

  /** No element occurs twice. */
  predicate Distinct<T(==)>(s: seq<T>)
  {
    forall i, j :: 0 <= i < j < |s| ==> s[i] != s[j]
  }

  function Sum(s: seq<int>): int
  {
    if s == [] then 0 else s[0] + Sum(s[1..])
  }

  function Product(s: seq<int>): int
  {
    if s == [] then 1 else s[0] * Product(s[1..])
  }

  /** Summation distributes over concatenation. */
  lemma {:induction false} SumConcat(a: seq<int>, b: seq<int>)
    ensures Sum(a + b) == Sum(a) + Sum(b)
  {
    if a == [] {
      assert a + b == b;
    } else {
      assert (a + b)[1..] == a[1..] + b;
      SumConcat(a[1..], b);
    }
  }

  /** The last summand split off. */
  lemma SumSnoc(s: seq<int>)
    requires s != []
    ensures Sum(s) == Sum(s[..|s| - 1]) + s[|s| - 1]
  {
    var init, last := s[..|s| - 1], s[|s| - 1];
    assert s == init + [last];
    SumConcat(init, [last]);
    assert Sum([last]) == last + Sum([]);
  }

  /** Summing a sequence of non-negative numbers gives a non-negative
      number that bounds every element. */
  lemma {:induction false} SumNonNegative(s: seq<int>)
    requires forall i :: 0 <= i < |s| ==> s[i] >= 0
    ensures Sum(s) >= 0
    ensures forall i :: 0 <= i < |s| ==> s[i] <= Sum(s)
  {
    if s != [] {
      SumNonNegative(s[1..]);
      assert forall i :: 1 <= i < |s| ==> s[i] == s[1..][i - 1];
    }
  }

  /** `s` without its element at `i`. */
  function RemoveAt(s: seq<int>, i: nat): (r: seq<int>)
    requires i < |s|
    ensures |r| == |s| - 1
    ensures multiset(r) == multiset(s) - multiset{s[i]}
    ensures forall k :: 0 <= k < |r| ==> r[k] == if k < i then s[k] else s[k + 1]
  {
    assert s == s[..i] + [s[i]] + s[i + 1..];
    s[..i] + s[i + 1..]
  }

  /** Two positions holding the same value mean two copies of it. */
  lemma AnotherCopy(a: seq<int>, i: nat, j: nat)
    requires i < |a| && j < |a| && i != j && a[i] == a[j]
    ensures a[j] in multiset(a) - multiset{a[i]}
  {
    var x := a[i];
    var hi := if i < j then j else i;
    var lo := if i < j then i else j;
    var front := a[..hi];
    assert a == front + [x] + a[hi + 1..];
    assert front[lo] == x;
    assert multiset(front)[x] >= 1;
    assert multiset(a)[x] >= 2;
  }

  /** Taking one summand out of a sequence. */
  lemma {:induction false} SumRemove(b: seq<int>, i: nat)
    requires i < |b|
    ensures Sum(b) == b[i] + Sum(RemoveAt(b, i))
  {
    if i == 0 {
      assert RemoveAt(b, i) == b[1..];
    } else {
      var rest := RemoveAt(b, i);
      assert rest[1..] == RemoveAt(b[1..], i - 1);
      SumRemove(b[1..], i - 1);
    }
  }

  /** The sum only depends on the multiset of summands. */
  lemma {:induction false} SumPermutation(a: seq<int>, b: seq<int>)
    requires multiset(a) == multiset(b)
    ensures Sum(a) == Sum(b)
    decreases |a|
  {
    if a == [] {
      assert |b| == |multiset(b)| == 0;
    } else {
      assert a[0] in multiset(b);
      var i :| 0 <= i < |b| && b[i] == a[0];
      var head := a[0];
      var rest := RemoveAt(b, i);
      MultisetTail(a);
      assert multiset(a[1..]) == multiset(a) - multiset{head} == multiset(rest);
      SumPermutation(a[1..], rest);
      SumRemove(b, i);
    }
  }

  /** Dropping the head of a sequence removes one copy of it. */
  lemma MultisetTail(s: seq<int>)
    requires s != []
    ensures multiset(s[1..]) == multiset(s) - multiset{s[0]}
  {
    assert s == [s[0]] + s[1..];
  }

  /** Changing one summand changes the sum by the difference. */
  lemma {:induction false} SumUpdate(s: seq<int>, i: nat, v: int)
    requires i < |s|
    ensures Sum(s[i := v]) == Sum(s) - s[i] + v
  {
    if i == 0 {
      assert s[i := v][1..] == s[1..];
    } else {
      assert s[i := v][1..] == s[1..][i - 1 := v];
      SumUpdate(s[1..], i - 1, v);
    }
  }

  /** `max` of a non-empty list. */
  function Max(s: seq<int>): (m: int)
    requires s != []
    ensures m in s
    ensures forall k :: 0 <= k < |s| ==> s[k] <= m
  {
    if |s| == 1 then s[0]
    else
      var rest := Max(s[1..]);
      assert forall k :: 1 <= k < |s| ==> s[k] == s[1..][k - 1];
      if s[0] >= rest then s[0] else rest
  }

  /** `min` of a non-empty list. */
  function Min(s: seq<int>): (m: int)
    requires s != []
    ensures m in s
    ensures forall k :: 0 <= k < |s| ==> m <= s[k]
  {
    if |s| == 1 then s[0]
    else
      var rest := Min(s[1..]);
      assert forall k :: 1 <= k < |s| ==> s[k] == s[1..][k - 1];
      if s[0] <= rest then s[0] else rest
  }

  ghost predicate SortedDescending(s: seq<int>)
  {
    forall i, j :: 0 <= i < j < |s| ==> s[i] >= s[j]
  }

  /** Inserts `x` in front of the first element it is not smaller than. */
  function Insert(x: int, s: seq<int>): (r: seq<int>)
    requires SortedDescending(s)
    ensures SortedDescending(r)
    ensures multiset(r) == multiset(s) + multiset{x}
    ensures |r| == |s| + 1
  {
    if s == [] || x >= s[0] then
      assert forall k :: 0 <= k < |s| ==> s[k] <= s[0];
      ConsSorted(x, s);
      [x] + s
    else
      SortedTail(s);
      var tail := Insert(x, s[1..]);
      TailBelowHead(x, s, tail);
      MultisetTail(s);
      ConsSorted(s[0], tail);
      [s[0]] + tail
  }

  /** Python's `sorted(s, reverse=True)` on integers. */
  function SortDescending(s: seq<int>): (r: seq<int>)
    ensures SortedDescending(r)
    ensures multiset(r) == multiset(s)
    ensures |r| == |s|
  {
    if s == [] then []
    else
      assert s == [s[0]] + s[1..];
      Insert(s[0], SortDescending(s[1..]))
  }

  /** The head of a descending sequence is its largest element. */
  lemma SortedHeadIsLargest(s: seq<int>, x: int)
    requires SortedDescending(s) && x in multiset(s)
    ensures s != [] && x <= s[0]
  {
    var k :| 0 <= k < |s| && s[k] == x;
  }

  /** A head no smaller than any later element extends a descending
      sequence. */
  lemma ConsSorted(h: int, t: seq<int>)
    requires SortedDescending(t)
    requires forall k :: 0 <= k < |t| ==> t[k] <= h
    ensures SortedDescending([h] + t)
    ensures multiset([h] + t) == multiset{h} + multiset(t)
  {
    var r := [h] + t;
    forall i, j | 0 <= i < j < |r|
      ensures r[i] >= r[j]
    {
      assert r[j] == t[j - 1];
      if i > 0 {
        assert r[i] == t[i - 1];
      }
    }
  }

  /** Whatever a permutation of `s[1..]` plus a smaller `x` holds is at
      most the head of `s`. */
  lemma TailBelowHead(x: int, s: seq<int>, tail: seq<int>)
    requires SortedDescending(s) && s != [] && x < s[0]
    requires multiset(tail) == multiset(s[1..]) + multiset{x}
    ensures forall k :: 0 <= k < |tail| ==> tail[k] <= s[0]
  {
    forall k | 0 <= k < |tail|
      ensures tail[k] <= s[0]
    {
      assert tail[k] in multiset(tail);
      if tail[k] != x {
        assert tail[k] in multiset(s[1..]);
        var j :| 0 <= j < |s| - 1 && s[1..][j] == tail[k];
        assert s[j + 1] == tail[k];
      }
    }
  }

  lemma SortedTail(s: seq<int>)
    requires SortedDescending(s) && s != []
    ensures SortedDescending(s[1..])
  {
    forall i, j | 0 <= i < j < |s| - 1
      ensures s[1..][i] >= s[1..][j]
    {
      assert s[1..][i] == s[i + 1] && s[1..][j] == s[j + 1];
    }
  }

  /** A descending order of a multiset is unique: any two sorted
      permutations of the same numbers coincide. */
  lemma {:induction false} SortedUnique(a: seq<int>, b: seq<int>)
    requires SortedDescending(a) && SortedDescending(b)
    requires multiset(a) == multiset(b)
    ensures a == b
    decreases |a|
  {
    assert |a| == |multiset(a)| == |multiset(b)| == |b|;
    if a != [] {
      assert b[0] in multiset(a) && a[0] in multiset(b);
      SortedHeadIsLargest(a, b[0]);
      SortedHeadIsLargest(b, a[0]);
      var head := a[0];
      assert head == b[0];
      MultisetTail(a);
      MultisetTail(b);
      SortedTail(a);
      SortedTail(b);
      assert multiset(a[1..]) == multiset(a) - multiset{head} == multiset(b[1..]);
      SortedUnique(a[1..], b[1..]);
      assert a == [a[0]] + a[1..];
      assert b == [b[0]] + b[1..];
    }
  }
}
