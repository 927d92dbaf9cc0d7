/** Day 6: the first position after a window of all-different characters
    (4 for a start-of-packet marker, 14 for a start-of-message marker). */
module TuningTrouble {
  import opened Results
  import PySlice
  import opened Seqs
  import PyText

  /** `set(window)` */
  function Elements(w: string): set<char>
  {
    set k | 0 <= k < |w| :: w[k]
  }


  /** A window has as many different characters as it has characters
      exactly when no character repeats. */
  lemma {:induction false} ElementsCount(w: string)
    ensures |Elements(w)| <= |w|
    ensures |Elements(w)| == |w| <==> Distinct(w)
  {
    if w != [] {
      var tail := w[1..];
      ElementsCount(tail);
      assert Elements(w) == {w[0]} + Elements(tail) by {
        forall c | c in Elements(w) ensures c in {w[0]} + Elements(tail) {
          var k :| 0 <= k < |w| && w[k] == c;
          if k > 0 { assert tail[k - 1] == c; }
        }
        forall c | c in Elements(tail) ensures c in Elements(w) {
          var k :| 0 <= k < |tail| && tail[k] == c;
          assert w[k + 1] == c;
        }
      }
      if w[0] in Elements(tail) {
        var k :| 0 <= k < |tail| && tail[k] == w[0];
        assert w[k + 1] == w[0];
        assert !Distinct(w);
      } else {
        assert Distinct(w) <==> Distinct(tail) by {
          if Distinct(tail) {
            forall a, b | 0 <= a < b < |w| ensures w[a] != w[b] {
              if a == 0 {
                assert w[b] == tail[b - 1];
              } else {
                assert w[a] == tail[a - 1] && w[b] == tail[b - 1];
              }
            }
          }
          if Distinct(w) {
            forall a, b | 0 <= a < b < |tail| ensures tail[a] != tail[b] {
              assert tail[a] == w[a + 1] && tail[b] == w[b + 1];
            }
          }
        }
      }
    }
  }

  /** 14 with `--part-2`, 4 otherwise. */
  function MarkerLength(part2: bool): nat
  {
    if part2 then 14 else 4
  }

  /** A full window of `len` different characters starts at `i`. */
  ghost predicate MarkerAt(line: string, i: nat, len: nat)
  {
    i + len <= |line| && Distinct(line[i..i + len])
  }

  /** Scans `line[i:i + len]` for `i` in `range(len(line))` and reports
      `i + len` for the first window whose set has `len` elements.  Windows
      running off the end are shorter than `len` and never match. */
  method FindMarker(line: string, len: nat) returns (r: Option<nat>)
    ensures r.Some? ==> len <= r.value <= |line| && r.value - len < |line|
    ensures r.Some? ==> MarkerAt(line, r.value - len, len)
    ensures r.Some? ==> forall j :: 0 <= j < r.value - len ==> !MarkerAt(line, j, len)
    ensures r.None? <==> forall j :: 0 <= j < |line| ==> !MarkerAt(line, j, len)
  {
    var i := 0;
    while i < |line|
      invariant 0 <= i <= |line|
      invariant forall j :: 0 <= j < i ==> !MarkerAt(line, j, len)
    {
      var window := PySlice.Slice(line, i, i + len);
      PySlice.Window(line, i, len);
      ElementsCount(window);
      if |Elements(window)| == len {
        assert MarkerAt(line, i, len);
        return Some(i + len);
      }
      i := i + 1;
    }
    return None;
  }

  /** The value printed for a file: `readlines()[0]` raises IndexError on
      an empty file; otherwise the first line, stripped, is scanned and
      `None` stands for printing nothing. */
  method Marker(lines: seq<string>, part2: bool) returns (r: Result<Option<nat>>)
    ensures lines == [] <==> r == Err("IndexError")
    ensures r.Ok? && r.value.Some? ==> MarkerLength(part2) <= r.value.value <= |PyText.Strip(lines[0])|
    ensures r.Ok? && r.value.Some? ==>
              MarkerAt(PyText.Strip(lines[0]), r.value.value - MarkerLength(part2), MarkerLength(part2))
    ensures r.Ok? && r.value.Some? ==>
              forall j :: 0 <= j < r.value.value - MarkerLength(part2) ==>
                            !MarkerAt(PyText.Strip(lines[0]), j, MarkerLength(part2))
    ensures r.Ok? ==> (r.value.None? <==> forall j :: 0 <= j < |PyText.Strip(lines[0])| ==>
                                                       !MarkerAt(PyText.Strip(lines[0]), j, MarkerLength(part2)))
  {
    if lines == [] {
      return Err("IndexError");
    }
    var line, len := PyText.Strip(lines[0]), MarkerLength(part2);
    var found := FindMarker(line, len);
    r := Ok(found);
  }
}
