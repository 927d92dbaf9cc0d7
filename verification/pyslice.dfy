/** Python slicing with step 1 (`s[a:]`, `s[:b]`, `s[a:b]`), including
    negative bounds counted from the end and bounds past either end being
    clamped. Several scripts rely on these rules at their edges
    (`stack[-howmany:]` with `howmany == 0`, windows running off the end
    of a line). */
module PySlice {
  import opened Results

  /** Python list indexing: negative indices count from the end. */
  function Index(n: nat, i: int): (r: Option<nat>)
    ensures r.Some? ==> r.value < n
    ensures r.Some? <==> -(n as int) <= i < n
    ensures r.Some? ==> r.value == if i >= 0 then i else n + i
  {
    if 0 <= i < n then Some(i) else if -(n as int) <= i < 0 then Some(n + i) else None
  }

  /** Where a slice bound `i` lands in a sequence of length `n`. */
  function Bound(i: int, n: nat): (b: nat)
    ensures b <= n
    ensures 0 <= i <= n ==> b == i
    ensures i < 0 && 0 <= n + i ==> b == n + i
    ensures n + i < 0 ==> b == 0
    ensures n < i ==> b == n
  {
    if i < 0 then (if n + i < 0 then 0 else n + i)
    else if i < n then i else n
  }

  /** `s[a:]` */
  function From<T>(s: seq<T>, a: int): seq<T>
  {
    s[Bound(a, |s|)..]
  }

  /** `s[:b]` */
  function To<T>(s: seq<T>, b: int): seq<T>
  {
    s[..Bound(b, |s|)]
  }

  /** `s[a:b]` */
  function Slice<T>(s: seq<T>, a: int, b: int): (r: seq<T>)
    ensures |r| <= |s|
  {
    var lo := Bound(a, |s|);
    var hi := Bound(b, |s|);
    if lo <= hi then s[lo..hi] else []
  }

  /** Cutting at any bound splits a sequence into a prefix and a suffix
      that together give it back. */
  lemma ToFrom<T>(s: seq<T>, k: int)
    ensures To(s, k) + From(s, k) == s
  {
    assert s == s[..Bound(k, |s|)] + s[Bound(k, |s|)..];
  }

  /** `s[-h:]` holds the last `h` elements when `1 <= h <= |s|`, and the
      whole sequence when `h == 0` (because `-0 == 0`). */
  lemma NegativeSuffix<T>(s: seq<T>, h: int)
    requires 0 <= h <= |s|
    ensures h >= 1 ==> From(s, -h) == s[|s| - h..] && To(s, -h) == s[..|s| - h]
    ensures h == 0 ==> From(s, -h) == s && To(s, -h) == []
  {
  }

  /** A window `s[i:i+len]` starting inside the sequence has `len`
      elements when it fits and is cut short at the end otherwise. */
  lemma Window<T>(s: seq<T>, i: nat, len: nat)
    requires i <= |s|
    ensures Slice(s, i, i + len) == if i + len <= |s| then s[i..i + len] else s[i..]
  {
  }
}
