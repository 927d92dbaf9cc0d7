/** Day 13: distress-signal packets, nested lists of integers, with the
    puzzle's three-way ordering, a selection sort and a sorted insert. */
module DistressSignal {
  import opened Results
  import Seqs

  /** A packet value: an integer or a list of packet values. */
  datatype Packet = Int(n: int) | List(items: seq<Packet>)

  /** The outcome of a comparison: 'smaller', 'equal' or 'larger'. */
  datatype Order = Smaller | Equal | Larger

  function Size(p: Packet): nat
  {
    match p
    case Int(_) => 1
    case List(xs) => 1 + SizeOfAll(xs)
  }

  function SizeOfAll(xs: seq<Packet>): nat
  {
    if xs == [] then 0 else Size(xs[0]) + SizeOfAll(xs[1..])
  }

  /** `to_list`: an integer becomes a one-element list, a list stays. */
  function ToList(p: Packet): (r: seq<Packet>)
    ensures p.Int? ==> r == [p]
    ensures p.List? ==> r == p.items
  {
    match p
    case Int(_) => [p]
    case List(xs) => xs
  }

  lemma ToListSmaller(p: Packet)
    ensures SizeOfAll(ToList(p)) <= Size(p)
    ensures p.List? ==> SizeOfAll(ToList(p)) < Size(p)
  {
    if p.Int? {
      assert SizeOfAll([p]) == Size(p) + SizeOfAll([]);
    }
  }

  /** The order of two lengths. */
  function LengthOrder(a: nat, b: nat): (o: Order)
  {
    if a == b then Equal else if a < b then Smaller else Larger
  }

  /** `compare_pairs`: two integers compare by value; otherwise both sides
      are turned into lists and compared item by item. */
  function Compare(a: Packet, b: Packet): Order
    decreases Size(a) + Size(b), 0
  {
    if a.Int? && b.Int? then
      if a.n == b.n then Equal else if a.n < b.n then Smaller else Larger
    else
      ToListSmaller(a);
      ToListSmaller(b);
      CompareLists(ToList(a), ToList(b))
  }

  /** The loop over the zipped items: the first pair that is not 'equal'
      decides; when the shorter list runs out, the remaining lengths
      decide.  (The script measures the rest of both lists from the last
      zipped index, which differs from the full lengths by the same amount
      on both sides.) */
  function CompareLists(xs: seq<Packet>, ys: seq<Packet>): Order
    decreases SizeOfAll(xs) + SizeOfAll(ys), 1
  {
    if xs == [] || ys == [] then LengthOrder(|xs|, |ys|)
    else
      var head := Compare(xs[0], ys[0]);
      if head != Equal then head else CompareLists(xs[1..], ys[1..])
  }

  function Flip(o: Order): Order
  {
    match o
    case Smaller => Larger
    case Equal => Equal
    case Larger => Smaller
  }

  /** Two integers compare by value: 'equal' exactly when they are equal,
      'smaller' exactly when the first is less. */
  lemma CompareIntegers(x: int, y: int)
    ensures Compare(Int(x), Int(y)) == Equal <==> x == y
    ensures Compare(Int(x), Int(y)) == Smaller <==> x < y
    ensures Compare(Int(x), Int(y)) == Larger <==> x > y
  {
  }

  /** A mixed pair compares as if the integer were a one-element list. */
  lemma ComparePromotes(x: int, b: Packet)
    requires b.List?
    ensures Compare(Int(x), b) == Compare(List([Int(x)]), b)
    ensures Compare(b, Int(x)) == Compare(b, List([Int(x)]))
  {
  }

  /** Every comparison is the item-by-item comparison of the two sides as
      lists, integers included. */
  lemma CompareViaLists(a: Packet, b: Packet)
    ensures Compare(a, b) == CompareLists(ToList(a), ToList(b))
  {
    if a.Int? && b.Int? {
      var xs, ys := [a], [b];
      assert CompareLists(xs, ys) == (if Compare(a, b) != Equal then Compare(a, b) else CompareLists([], []));
    }
  }

  /** Swapping the sides flips the outcome: 'smaller' one way is 'larger'
      the other way, and 'equal' is symmetric. */
  lemma {:induction false} CompareFlips(a: Packet, b: Packet)
    ensures Compare(b, a) == Flip(Compare(a, b))
    decreases Size(a) + Size(b), 0
  {
    if !(a.Int? && b.Int?) {
      ToListSmaller(a);
      ToListSmaller(b);
      CompareListsFlip(ToList(a), ToList(b));
    }
  }

  lemma {:induction false} CompareListsFlip(xs: seq<Packet>, ys: seq<Packet>)
    ensures CompareLists(ys, xs) == Flip(CompareLists(xs, ys))
    decreases SizeOfAll(xs) + SizeOfAll(ys), 1
  {
    if xs != [] && ys != [] {
      CompareFlips(xs[0], ys[0]);
      if Compare(xs[0], ys[0]) == Equal {
        CompareListsFlip(xs[1..], ys[1..]);
      }
    }
  }

  /** Every packet is 'equal' to itself. */
  lemma {:induction false} CompareReflexive(a: Packet)
    ensures Compare(a, a) == Equal
    decreases Size(a), 0
  {
    if a.List? {
      ToListSmaller(a);
      CompareListsReflexive(a.items);
    }
  }

  lemma {:induction false} CompareListsReflexive(xs: seq<Packet>)
    ensures CompareLists(xs, xs) == Equal
    decreases SizeOfAll(xs), 1
  {
    if xs != [] {
      CompareReflexive(xs[0]);
      CompareListsReflexive(xs[1..]);
    }
  }

  /** "Not larger": the order the sort establishes. */
  predicate NotAfter(a: Packet, b: Packet)
  {
    Compare(a, b) != Larger
  }

  /** The ordering is transitive, and strictly so when either step is
      'smaller'. */
  lemma {:induction false} CompareTransitive(a: Packet, b: Packet, c: Packet)
    ensures NotAfter(a, b) && NotAfter(b, c) ==> NotAfter(a, c)
    ensures Compare(a, b) == Smaller && NotAfter(b, c) ==> Compare(a, c) == Smaller
    ensures NotAfter(a, b) && Compare(b, c) == Smaller ==> Compare(a, c) == Smaller
    decreases Size(a) + Size(b) + Size(c), 0
  {
    if !(a.Int? && b.Int? && c.Int?) {
      ToListSmaller(a);
      ToListSmaller(b);
      ToListSmaller(c);
      CompareViaLists(a, b);
      CompareViaLists(b, c);
      CompareViaLists(a, c);
      CompareListsTransitive(ToList(a), ToList(b), ToList(c));
    }
  }

  lemma {:induction false} CompareListsTransitive(xs: seq<Packet>, ys: seq<Packet>, zs: seq<Packet>)
    ensures CompareLists(xs, ys) != Larger && CompareLists(ys, zs) != Larger ==> CompareLists(xs, zs) != Larger
    ensures CompareLists(xs, ys) == Smaller && CompareLists(ys, zs) != Larger ==> CompareLists(xs, zs) == Smaller
    ensures CompareLists(xs, ys) != Larger && CompareLists(ys, zs) == Smaller ==> CompareLists(xs, zs) == Smaller
    decreases SizeOfAll(xs) + SizeOfAll(ys) + SizeOfAll(zs), 1
  {
    if xs != [] && ys != [] && zs != [] {
      var x, y, z := xs[0], ys[0], zs[0];
      CompareTransitive(x, y, z);
      if Compare(x, y) == Equal && Compare(y, z) == Equal {
        CompareFlips(y, z);
        CompareTransitive(x, z, y);
        assert Compare(x, z) == Equal;
        CompareListsTransitive(xs[1..], ys[1..], zs[1..]);
      }
    }
  }

  /** The scan for the smallest remaining packet: the candidate moves to
      index `i` whenever the current candidate compares 'larger'. */
  function Smallest(ps: seq<Packet>, best: nat, i: nat): (k: nat)
    requires best < |ps| && best < i <= |ps|
    requires forall j :: 0 <= j < i ==> NotAfter(ps[best], ps[j])
    ensures k < |ps|
    ensures forall j :: 0 <= j < |ps| ==> NotAfter(ps[k], ps[j])
    decreases |ps| - i
  {
    if i == |ps| then best
    else if Compare(ps[best], ps[i]) == Larger then
      assert forall j :: 0 <= j <= i ==> NotAfter(ps[i], ps[j]) by {
        CompareFlips(ps[best], ps[i]);
        CompareReflexive(ps[i]);
        forall j | 0 <= j < i ensures NotAfter(ps[i], ps[j]) {
          CompareTransitive(ps[i], ps[best], ps[j]);
        }
      }
      Smallest(ps, i, i + 1)
    else
      Smallest(ps, best, i + 1)
  }

  /** `packets.pop(k)` */
  function Without(ps: seq<Packet>, k: nat): (r: seq<Packet>)
    requires k < |ps|
    ensures |r| == |ps| - 1
    ensures multiset(r) + multiset{ps[k]} == multiset(ps)
  {
    assert ps == ps[..k] + [ps[k]] + ps[k + 1..];
    ps[..k] + ps[k + 1..]
  }

  /** Sorted for the puzzle's ordering: no packet compares 'larger' than
      any later one. */
  ghost predicate Sorted(ps: seq<Packet>)
  {
    forall i, j :: 0 <= i < j < |ps| ==> NotAfter(ps[i], ps[j])
  }

  /** The index the sort pops next: the first packet no other packet is
      'smaller' than, as the scan from the front finds it. */
  function NextIndex(ps: seq<Packet>): (k: nat)
    requires ps != []
    ensures k < |ps|
    ensures forall j :: 0 <= j < |ps| ==> NotAfter(ps[k], ps[j])
  {
    CompareReflexive(ps[0]);
    Smallest(ps, 0, 1)
  }

  /** `sort_packets`: repeatedly pop the smallest remaining packet. */
  function SelectionSort(ps: seq<Packet>): (r: seq<Packet>)
    ensures multiset(r) == multiset(ps)
    ensures Sorted(r)
    decreases |ps|
  {
    if ps == [] then []
    else
      var k := NextIndex(ps);
      var rest := SelectionSort(Without(ps, k));
      SmallestFirst(ps, k, rest);
      [ps[k]] + rest
  }

  /** The smallest packet in front of a sorted arrangement of the others
      gives a sorted list. */
  lemma SmallestFirst(ps: seq<Packet>, k: nat, rest: seq<Packet>)
    requires k < |ps| && forall j :: 0 <= j < |ps| ==> NotAfter(ps[k], ps[j])
    requires multiset(rest) + multiset{ps[k]} == multiset(ps)
    requires Sorted(rest)
    ensures Sorted([ps[k]] + rest)
  {
    var r := [ps[k]] + rest;
    forall i, j | 0 <= i < j < |r| ensures NotAfter(r[i], r[j]) {
      if i == 0 {
        assert r[j] == rest[j - 1];
        assert r[j] in multiset(rest);
        assert r[j] in multiset(ps);
        var m :| 0 <= m < |ps| && ps[m] == r[j];
      } else {
        assert r[i] == rest[i - 1] && r[j] == rest[j - 1];
      }
    }
  }

  /** A pair keeps its order under the sort exactly when the first packet
      is not 'larger' than the second: the part 1 test
      `sorted_packets == packet_set`. */
  lemma PairKeptIffOrdered(a: Packet, b: Packet)
    ensures SelectionSort([a, b]) == [a, b] <==> NotAfter(a, b)
  {
    SortTwo(a, b);
    if !NotAfter(a, b) {
      CompareReflexive(a);
      assert a != b;
    }
  }

  lemma SortOne(a: Packet)
    ensures SelectionSort([a]) == [a]
  {
    assert NextIndex([a]) == 0;
    assert Without([a], 0) == [];
  }

  lemma SortTwo(a: Packet, b: Packet)
    ensures SelectionSort([a, b]) == if NotAfter(a, b) then [a, b] else [b, a]
  {
    if NotAfter(a, b) {
      SortTwoKept(a, b);
    } else {
      SortTwoSwapped(a, b);
    }
  }

  lemma SortTwoKept(a: Packet, b: Packet)
    requires NotAfter(a, b)
    ensures SelectionSort([a, b]) == [a, b]
  {
    var ps := [a, b];
    CompareReflexive(a);
    assert Smallest(ps, 0, 1) == Smallest(ps, 0, 2) == 0;
    assert NextIndex(ps) == 0;
    assert Without(ps, 0) == [b];
    SortOne(b);
    assert SelectionSort(ps) == [ps[0]] + SelectionSort(Without(ps, 0));
  }

  lemma SortTwoSwapped(a: Packet, b: Packet)
    requires !NotAfter(a, b)
    ensures SelectionSort([a, b]) == [b, a]
  {
    var ps := [a, b];
    CompareFlips(a, b);
    CompareReflexive(b);
    assert Smallest(ps, 1, 2) == 1;
    assert NextIndex(ps) == 1;
    assert Without(ps, 1) == [a];
    SortOne(a);
  }

  /** `insert_packet_to_packets`, from index `i` on: the packet goes in
      front of the first packet it is 'smaller' than, and the answer is
      that index plus one; without such a packet the list is unchanged and
      the answer is -1. */
  function InsertFrom(packet: Packet, packets: seq<Packet>, i: nat): (r: (seq<Packet>, int))
    requires i <= |packets|
    ensures r.1 == -1 <==> forall k :: i <= k < |packets| ==> Compare(packet, packets[k]) != Smaller
    ensures r.1 == -1 ==> r.0 == packets
    ensures r.1 != -1 ==>
              i < r.1 <= |packets| && Compare(packet, packets[r.1 - 1]) == Smaller &&
              (forall k :: i <= k < r.1 - 1 ==> Compare(packet, packets[k]) != Smaller) &&
              r.0 == packets[..r.1 - 1] + [packet] + packets[r.1 - 1..]
    decreases |packets| - i
  {
    if i == |packets| then (packets, -1)
    else if Compare(packet, packets[i]) == Smaller then
      (packets[..i] + [packet] + packets[i..], i + 1)
    else
      InsertFrom(packet, packets, i + 1)
  }

  function InsertPacket(packet: Packet, packets: seq<Packet>): (r: (seq<Packet>, int))
  {
    InsertFrom(packet, packets, 0)
  }

  /** How many packets the given one is not 'smaller' than. */
  function CountNotBelow(packet: Packet, packets: seq<Packet>): nat
  {
    if packets == [] then 0
    else (if Compare(packet, packets[0]) != Smaller then 1 else 0) + CountNotBelow(packet, packets[1..])
  }

  /** The count depends only on which packets there are, not their order. */
  lemma {:induction false} CountNotBelowPermutation(packet: Packet, a: seq<Packet>, b: seq<Packet>)
    requires multiset(a) == multiset(b)
    ensures CountNotBelow(packet, a) == CountNotBelow(packet, b)
    decreases |a|
  {
    if a != [] {
      assert a[0] in multiset(b);
      var i :| 0 <= i < |b| && b[i] == a[0];
      var rest := Without(b, i);
      assert a == [a[0]] + a[1..];
      assert multiset(a[1..]) == multiset(a) - multiset{a[0]};
      assert multiset(rest) == multiset(b) - multiset{a[0]};
      CountNotBelowPermutation(packet, a[1..], rest);
      CountWithout(packet, b, i);
      var one := if Compare(packet, a[0]) != Smaller then 1 else 0;
      assert CountNotBelow(packet, a) == one + CountNotBelow(packet, a[1..]);
      assert CountNotBelow(packet, b) == one + CountNotBelow(packet, rest);
    } else {
      assert |b| == |multiset(b)| == 0;
    }
  }

  lemma {:induction false} CountWithout(packet: Packet, b: seq<Packet>, i: nat)
    requires i < |b|
    ensures CountNotBelow(packet, b) ==
            (if Compare(packet, b[i]) != Smaller then 1 else 0) + CountNotBelow(packet, Without(b, i))
  {
    if i > 0 {
      assert Without(b, i)[1..] == Without(b[1..], i - 1);
      CountWithout(packet, b[1..], i - 1);
    } else {
      assert Without(b, 0) == b[1..];
    }
  }

  /** In a sorted list the insert position is one past the number of
      packets the new one is not 'smaller' than: the answer is the new
      packet's 1-based place in the result, whatever order the packets
      came in; and -1 means the packet is not 'smaller' than any. */
  lemma InsertPosition(packet: Packet, packets: seq<Packet>)
    requires Sorted(packets)
    ensures var r := InsertPacket(packet, packets);
            r.1 != -1 ==> r.1 == CountNotBelow(packet, packets) + 1 && r.0[r.1 - 1] == packet && Sorted(r.0)
    ensures var r := InsertPacket(packet, packets);
            r.1 == -1 <==> CountNotBelow(packet, packets) == |packets|
  {
    var r := InsertPacket(packet, packets);
    var n := if r.1 == -1 then |packets| else r.1 - 1;
    forall k | n <= k < |packets|
      ensures Compare(packet, packets[k]) == Smaller
    {
      if k > n {
        CompareTransitive(packet, packets[n], packets[k]);
      }
    }
    CountSplit(packet, packets, n);
    if r.1 != -1 {
      InsertKeepsSorted(packet, packets, n);
    }
  }

  /** Counting a list whose first `n` packets are not above the new one
      and whose others all are. */
  lemma {:induction false} CountSplit(packet: Packet, packets: seq<Packet>, n: nat)
    requires n <= |packets|
    requires forall k :: 0 <= k < n ==> Compare(packet, packets[k]) != Smaller
    requires forall k :: n <= k < |packets| ==> Compare(packet, packets[k]) == Smaller
    ensures CountNotBelow(packet, packets) == n
  {
    if packets != [] {
      CountSplit(packet, packets[1..], if n == 0 then 0 else n - 1);
    }
  }

  lemma InsertKeepsSorted(packet: Packet, packets: seq<Packet>, n: nat)
    requires Sorted(packets) && n < |packets|
    requires forall k :: 0 <= k < n ==> Compare(packet, packets[k]) != Smaller
    requires forall k :: n <= k < |packets| ==> Compare(packet, packets[k]) == Smaller
    ensures Sorted(packets[..n] + [packet] + packets[n..])
  {
    var r := packets[..n] + [packet] + packets[n..];
    assert forall k :: 0 <= k < n ==> r[k] == packets[k];
    assert forall k :: n < k < |r| ==> r[k] == packets[k - 1];
    SortedWithInserted(packet, packets, n, r);
  }

  /** The sortedness argument of `InsertKeepsSorted` for any list laid out
      as `packets` with `packet` at place `n`. */
  lemma SortedWithInserted(packet: Packet, packets: seq<Packet>, n: nat, r: seq<Packet>)
    requires Sorted(packets) && n < |packets| && |r| == |packets| + 1 && r[n] == packet
    requires forall k :: 0 <= k < n ==> Compare(packet, packets[k]) != Smaller
    requires forall k :: n <= k < |packets| ==> Compare(packet, packets[k]) == Smaller
    requires forall k :: 0 <= k < n ==> r[k] == packets[k]
    requires forall k :: n < k < |r| ==> r[k] == packets[k - 1]
    ensures Sorted(r)
  {
    forall i, j | 0 <= i < j < |r| ensures NotAfter(r[i], r[j]) {
      if i < n && j == n {
        CompareFlips(packet, packets[i]);
      } else if i == n {
        assert Compare(packet, packets[j - 1]) == Smaller;
      } else if j != n {
        var a, b := if i < n then i else i - 1, if j < n then j else j - 1;
        assert r[i] == packets[a] && r[j] == packets[b] && a < b;
      }
    }
  }

  /** A divider packet `[[n]]`. */
  function Divider(n: int): Packet
  {
    List([List([Int(n)])])
  }

  /** Part 2: sort every packet, insert `[[2]]`, then `[[6]]`, and
      multiply the two answers. */
  function DecoderKey(packets: seq<Packet>): int
  {
    KeyOf(packets, Divider(2), Divider(6))
  }

  /** The part 2 recipe for any two divider packets. */
  function KeyOf(packets: seq<Packet>, low: Packet, high: Packet): int
  {
    var sorted := SelectionSort(packets);
    var first := InsertPacket(low, sorted);
    var second := InsertPacket(high, first.0);
    first.1 * second.1
  }

  /** The decoder key only depends on which packets there are: each
      divider's place is counted from the packets it is not 'smaller'
      than, `[[6]]` also counting `[[2]]` in front of it; this holds
      whenever some packet sorts after `[[6]]`. */
  lemma DecoderKeyCounts(packets: seq<Packet>)
    requires exists k :: 0 <= k < |packets| && Compare(Divider(6), packets[k]) == Smaller
    ensures DecoderKey(packets) ==
              (CountNotBelow(Divider(2), packets) + 1) * (CountNotBelow(Divider(6), packets) + 2)
  {
    DividersOrdered();
    KeyCounts(packets, Divider(2), Divider(6));
  }

  lemma KeyCounts(packets: seq<Packet>, low: Packet, high: Packet)
    requires Compare(low, high) == Smaller
    requires exists k :: 0 <= k < |packets| && Compare(high, packets[k]) == Smaller
    ensures KeyOf(packets, low, high) == (CountNotBelow(low, packets) + 1) * (CountNotBelow(high, packets) + 2)
  {
    var sorted := SelectionSort(packets);
    CountNotBelowPermutation(low, packets, sorted);
    CountNotBelowPermutation(high, packets, sorted);
    var m := SomeAfter(high, packets, sorted);
    CompareTransitive(low, high, sorted[m]);
    var first := InsertPacket(low, sorted);
    InsertBelow(low, sorted, m);
    InsertSecond(low, high, sorted, first.1 - 1, m);
  }

  lemma DividersOrdered()
    ensures Compare(Divider(2), Divider(6)) == Smaller
  {
    assert Compare(Int(2), Int(6)) == Smaller;
    assert CompareLists([Int(2)], [Int(6)]) == Smaller;
    assert Compare(List([Int(2)]), List([Int(6)])) == Smaller;
    assert CompareLists([List([Int(2)])], [List([Int(6)])]) == Smaller;
  }

  /** A packet that sorts after `high`, found in the sorted list. */
  lemma SomeAfter(high: Packet, packets: seq<Packet>, sorted: seq<Packet>) returns (m: nat)
    requires exists k :: 0 <= k < |packets| && Compare(high, packets[k]) == Smaller
    requires multiset(sorted) == multiset(packets)
    ensures m < |sorted| && Compare(high, sorted[m]) == Smaller
  {
    var k :| 0 <= k < |packets| && Compare(high, packets[k]) == Smaller;
    assert packets[k] in multiset(sorted);
    m :| 0 <= m < |sorted| && sorted[m] == packets[k];
  }

  /** Inserting a packet that is 'smaller' than one already in a sorted
      list. */
  lemma InsertBelow(packet: Packet, sorted: seq<Packet>, m: nat)
    requires Sorted(sorted) && m < |sorted| && Compare(packet, sorted[m]) == Smaller
    ensures var first := InsertPacket(packet, sorted);
            first.1 == CountNotBelow(packet, sorted) + 1 && 1 <= first.1 <= |sorted| &&
            first.0 == sorted[..first.1 - 1] + [packet] + sorted[first.1 - 1..] &&
            Sorted(first.0)
  {
    InsertPosition(packet, sorted);
  }

  /** Inserting a second packet after a first one it is 'larger' than. */
  lemma InsertSecond(first: Packet, second: Packet, sorted: seq<Packet>, n: nat, m: nat)
    requires n <= |sorted| && m < |sorted| && Compare(second, sorted[m]) == Smaller
    requires Compare(first, second) == Smaller
    requires Sorted(sorted[..n] + [first] + sorted[n..])
    ensures var grown := sorted[..n] + [first] + sorted[n..];
            InsertPacket(second, grown).1 == CountNotBelow(second, sorted) + 2
  {
    var grown := sorted[..n] + [first] + sorted[n..];
    assert grown[if m < n then m else m + 1] == sorted[m];
    InsertPosition(second, grown);
    CountInserted(second, sorted, n, first);
  }

  /** Counting after `[[2]]` was put in: one more packet not above `[[6]]`. */
  lemma CountInserted(packet: Packet, packets: seq<Packet>, n: nat, extra: Packet)
    requires n <= |packets| && Compare(extra, packet) == Smaller
    ensures CountNotBelow(packet, packets[..n] + [extra] + packets[n..]) == CountNotBelow(packet, packets) + 1
  {
    var grown := packets[..n] + [extra] + packets[n..];
    assert grown[n] == extra;
    assert Without(grown, n) == packets;
    CountWithout(packet, grown, n);
    CompareFlips(extra, packet);
  }

  /** Part 1 pairing: consecutive packets two at a time; an odd count makes
      the lookup of the partner of the last packet fail. */
  function Pairs(packets: seq<Packet>): (r: Result<seq<(Packet, Packet)>>)
    ensures r.Ok? <==> |packets| % 2 == 0
    ensures r.Err? ==> r.error == "IndexError"
    ensures r.Ok? ==> |r.value| * 2 == |packets|
    ensures r.Ok? ==> forall i :: 0 <= i < |r.value| ==> r.value[i] == (packets[2 * i], packets[2 * i + 1])
    decreases |packets|
  {
    if packets == [] then Ok([])
    else if |packets| == 1 then Err("IndexError")
    else
      match Pairs(packets[2..])
      case Err(e) => Err(e)
      case Ok(rest) =>
        assert forall i :: 2 <= i < |packets| ==> packets[i] == packets[2..][i - 2];
        Ok([(packets[0], packets[1])] + rest)
  }

  /** Part 1 score: the sum of the 1-based positions of the pairs the sort
      leaves as they are. */
  function OrderedPairsScore(pairs: seq<(Packet, Packet)>): int
  {
    if pairs == [] then 0
    else
      var last := pairs[|pairs| - 1];
      OrderedPairsScore(pairs[..|pairs| - 1]) +
        if SortKeeps(last) then |pairs| else 0
  }

  /** `sorted_packets == packet_set` for one pair. */
  predicate SortKeeps(pair: (Packet, Packet))
  {
    SelectionSort([pair.0, pair.1]) == [pair.0, pair.1]
  }

  /** The 1-based positions of the pairs in the right order, in order. */
  function RightOrderPositions(pairs: seq<(Packet, Packet)>): seq<int>
  {
    if pairs == [] then []
    else
      var last := pairs[|pairs| - 1];
      RightOrderPositions(pairs[..|pairs| - 1]) + if NotAfter(last.0, last.1) then [|pairs|] else []
  }

  /** A position is listed exactly when its pair is in the right order, and
      the positions increase. */
  lemma {:induction false} RightOrderPositionsListed(pairs: seq<(Packet, Packet)>)
    ensures forall x :: x in RightOrderPositions(pairs) <==> 1 <= x <= |pairs| && NotAfter(pairs[x - 1].0, pairs[x - 1].1)
    ensures forall i, j :: 0 <= i < j < |RightOrderPositions(pairs)| ==>
              RightOrderPositions(pairs)[i] < RightOrderPositions(pairs)[j]
  {
    if pairs != [] {
      var init := pairs[..|pairs| - 1];
      var last := pairs[|pairs| - 1];
      RightOrderPositionsListed(init);
      var front := RightOrderPositions(init);
      var r := RightOrderPositions(pairs);
      assert forall i :: 0 <= i < |init| ==> init[i] == pairs[i];
      assert forall i :: 0 <= i < |front| ==> front[i] in front;
      if NotAfter(last.0, last.1) {
        assert r == front + [|pairs|];
      } else {
        assert r == front;
      }
    }
  }

  /** The part 1 answer is the sum of the positions of the pairs in the
      right order. */
  lemma {:induction false} ScoreSumsRightOrder(pairs: seq<(Packet, Packet)>)
    ensures OrderedPairsScore(pairs) == Seqs.Sum(RightOrderPositions(pairs))
  {
    if pairs != [] {
      ScoreSumsRightOrder(pairs[..|pairs| - 1]);
      ScoreStep(pairs);
      PositionsSumStep(pairs);
    }
  }

  /** One more pair adds its position to the score when it is in the right
      order. */
  lemma ScoreStep(pairs: seq<(Packet, Packet)>)
    requires pairs != []
    ensures var last := pairs[|pairs| - 1];
            OrderedPairsScore(pairs) ==
              OrderedPairsScore(pairs[..|pairs| - 1]) + if NotAfter(last.0, last.1) then |pairs| else 0
  {
    var last := pairs[|pairs| - 1];
    PairKeptIffOrdered(last.0, last.1);
  }

  lemma PositionsSumStep(pairs: seq<(Packet, Packet)>)
    requires pairs != []
    ensures var last := pairs[|pairs| - 1];
            Seqs.Sum(RightOrderPositions(pairs)) ==
              Seqs.Sum(RightOrderPositions(pairs[..|pairs| - 1])) + if NotAfter(last.0, last.1) then |pairs| else 0
  {
    var last := pairs[|pairs| - 1];
    var front := RightOrderPositions(pairs[..|pairs| - 1]);
    if NotAfter(last.0, last.1) {
      var whole := front + [|pairs|];
      Seqs.SumSnoc(whole);
      assert whole[..|whole| - 1] == front;
    } else {
      assert front + [] == front;
    }
  }

  /** The part 1 answer for the packet list: the sum of the positions of
      the pairs in the right order, or the failed pairing. */
  function Part1(packets: seq<Packet>): (r: Result<int>)
    ensures r.Ok? <==> |packets| % 2 == 0
    ensures r.Ok? ==> r.value == Seqs.Sum(RightOrderPositions(Pairs(packets).value))
  {
    var pairs :- Pairs(packets);
    ScoreSumsRightOrder(pairs);
    Ok(OrderedPairsScore(pairs))
  }
}
