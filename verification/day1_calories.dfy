/** Day 1: per-elf calorie totals and the sum of the `k` largest totals.

    The input is a list of lines; a line that is exactly a newline closes
    the current elf's group, every other line adds its integer to it. */
module CalorieCounting {
  import opened Results
  import opened Seqs
  import PyText
  import PySlice

  datatype Line = Blank | Calories(amount: int)

  /** Reads one raw line: exactly "\n" is a group separator, anything else
      must be an integer after stripping (ValueError otherwise). */
  function ParseLine(raw: string): (r: Result<Line>)
    ensures raw == "\n" ==> r == Ok(Blank)
    ensures raw != "\n" ==> (r.Ok? <==> PyText.ParseInt(raw).Some?)
    ensures r.Ok? && raw != "\n" ==> r.value == Calories(PyText.ParseInt(raw).value)
  {
    if raw == "\n" then Ok(Blank)
    else match PyText.ParseInt(raw)
      case Some(n) => Ok(Calories(n))
      case None => Err("ValueError")
  }

  function ParseLines(raws: seq<string>): (r: Result<seq<Line>>)
    ensures r.Ok? <==> forall i :: 0 <= i < |raws| ==> ParseLine(raws[i]).Ok?
    ensures r.Ok? ==> |r.value| == |raws|
    ensures r.Ok? ==> forall i :: 0 <= i < |raws| ==> r.value[i] == ParseLine(raws[i]).value
  {
    if raws == [] then Ok([])
    else
      match ParseLine(raws[0])
      case Err(e) => Err(e)
      case Ok(line) =>
        match ParseLines(raws[1..])
        case Err(e) => Err(e)
        case Ok(rest) =>
          assert forall i :: 1 <= i < |raws| ==> raws[i] == raws[1..][i - 1];
          Ok([line] + rest)
  }

  /** A line as the file holds it: a blank line is a lone newline, an item
      is its number. */
  function ShowLine(line: Line): string
  {
    match line
    case Blank => "\n"
    case Calories(n) => PyText.ShowInt(n)
  }

  /** Reading a written line gives the line back. */
  lemma ParseShowLine(line: Line)
    ensures ParseLine(ShowLine(line)) == Ok(line)
  {
    if line.Calories? {
      PyText.ParseShow(line.amount);
      PyText.ShowIntChars(line.amount);
      assert ShowLine(line) != "\n" by {
        var s := ShowLine(line);
        assert PyText.IsDigit(s[|s| - 1]);
      }
    }
  }

  /** Reading back a file written line by line gives the same lines. */
  lemma ParseShownLines(lines: seq<Line>)
    ensures ParseLines(seq(|lines|, i requires 0 <= i < |lines| => ShowLine(lines[i]))) == Ok(lines)
  {
    var raws := seq(|lines|, i requires 0 <= i < |lines| => ShowLine(lines[i]));
    forall i | 0 <= i < |lines|
      ensures ParseLine(raws[i]) == Ok(lines[i])
    {
      ParseShowLine(lines[i]);
    }
    assert ParseLines(raws).value == lines;
  }

  /** The running total of the group still open at the end of `lines`. */
  function Pending(lines: seq<Line>): int
  {
    if lines == [] then 0
    else match lines[|lines| - 1]
      case Blank => 0
      case Calories(n) => Pending(lines[..|lines| - 1]) + n
  }

  /** The totals the script records, in input order: one per blank line. */
  function GroupSums(lines: seq<Line>): seq<int>
  {
    if lines == [] then []
    else
      var init := lines[..|lines| - 1];
      match lines[|lines| - 1]
      case Blank => GroupSums(init) + [Pending(init)]
      case Calories(_) => GroupSums(init)
  }

  function CountBlanks(lines: seq<Line>): nat
  {
    if lines == [] then 0
    else CountBlanks(lines[..|lines| - 1]) + (if lines[|lines| - 1].Blank? then 1 else 0)
  }

  /** One recorded total per blank line. */
  lemma {:induction false} GroupSumsCount(lines: seq<Line>)
    ensures |GroupSums(lines)| == CountBlanks(lines)
  {
    if lines != [] {
      GroupSumsCount(lines[..|lines| - 1]);
    }
  }

  /** Lines after the last blank line are never recorded. */
  lemma {:induction false} TrailingGroupDropped(lines: seq<Line>, tail: seq<Line>)
    requires forall i :: 0 <= i < |tail| ==> tail[i].Calories?
    ensures GroupSums(lines + tail) == GroupSums(lines)
    decreases |tail|
  {
    if tail == [] {
      assert lines + tail == lines;
    } else {
      var whole := lines + tail;
      assert whole[..|whole| - 1] == lines + tail[..|tail| - 1];
      assert whole[|whole| - 1] == tail[|tail| - 1];
      TrailingGroupDropped(lines, tail[..|tail| - 1]);
    }
  }

  /** The lines of one group: its items in order. */
  function ItemLines(items: seq<int>): (r: seq<Line>)
    ensures |r| == |items|
    ensures forall i :: 0 <= i < |r| ==> r[i] == Calories(items[i])
  {
    if items == [] then [] else [Calories(items[0])] + ItemLines(items[1..])
  }

  /** An input file laid out group by group, each group closed by a blank line. */
  function Layout(groups: seq<seq<int>>): seq<Line>
  {
    if groups == [] then []
    else Layout(groups[..|groups| - 1]) + ItemLines(groups[|groups| - 1]) + [Blank]
  }

  lemma {:induction false} PendingOfItems(before: seq<Line>, items: seq<int>)
    requires before == [] || before[|before| - 1].Blank?
    ensures Pending(before + ItemLines(items)) == Sum(items)
    decreases |items|
  {
    if items == [] {
      assert before + ItemLines(items) == before;
    } else {
      var init := items[..|items| - 1];
      var last := items[|items| - 1];
      var front := before + ItemLines(init);
      ItemLinesSnoc(items);
      assert before + ItemLines(items) == front + [Calories(last)];
      PendingSnoc(front, last);
      PendingOfItems(before, init);
      SumSnoc(items);
    }
  }

  lemma ItemLinesSnoc(items: seq<int>)
    requires items != []
    ensures ItemLines(items) == ItemLines(items[..|items| - 1]) + [Calories(items[|items| - 1])]
  {
    var whole, front := ItemLines(items), ItemLines(items[..|items| - 1]);
    var joined := front + [Calories(items[|items| - 1])];
    assert |whole| == |joined|;
    forall i | 0 <= i < |whole|
      ensures whole[i] == joined[i]
    {
      if i < |front| {
        assert joined[i] == front[i];
      }
    }
  }

  lemma PendingSnoc(lines: seq<Line>, n: int)
    ensures Pending(lines + [Calories(n)]) == Pending(lines) + n
  {
    var whole := lines + [Calories(n)];
    assert whole[..|whole| - 1] == lines;
  }

  /** Reading a laid-out file back recovers every group's total: the
      partner of `GroupSums`. */
  lemma {:induction false} GroupSumsOfLayout(groups: seq<seq<int>>)
    ensures |GroupSums(Layout(groups))| == |groups|
    ensures forall g :: 0 <= g < |groups| ==> GroupSums(Layout(groups))[g] == Sum(groups[g])
  {
    if groups != [] {
      var init := groups[..|groups| - 1];
      var last := groups[|groups| - 1];
      GroupSumsOfLayout(init);
      var prefix := Layout(init);
      var body := prefix + ItemLines(last);
      assert Layout(groups) == body + [Blank];
      GroupSumsBlank(body);
      TrailingGroupDropped(prefix, ItemLines(last));
      LayoutEndsBlank(init);
      PendingOfItems(prefix, last);
      var sums := GroupSums(Layout(groups));
      assert sums == GroupSums(prefix) + [Sum(last)];
      forall g | 0 <= g < |groups|
        ensures sums[g] == Sum(groups[g])
      {
        if g < |init| {
          assert sums[g] == GroupSums(prefix)[g];
          assert groups[g] == init[g];
        }
      }
    }
  }

  /** A blank line records the pending total. */
  lemma GroupSumsBlank(lines: seq<Line>)
    ensures GroupSums(lines + [Blank]) == GroupSums(lines) + [Pending(lines)]
  {
    var whole := lines + [Blank];
    assert whole[..|whole| - 1] == lines;
  }

  lemma LayoutEndsBlank(groups: seq<seq<int>>)
    ensures Layout(groups) == [] || Layout(groups)[|Layout(groups)| - 1].Blank?
  {
  }

  /** The script's sweep over the lines, with the invariant that it has
      built exactly `GroupSums` and `Pending` of the lines read so far. */
  method SweepGroups(lines: seq<Line>) returns (sums: seq<int>)
    ensures sums == GroupSums(lines)
  {
    sums := [];
    var current := 0;
    var i := 0;
    while i < |lines|
      invariant 0 <= i <= |lines|
      invariant sums == GroupSums(lines[..i])
      invariant current == Pending(lines[..i])
    {
      assert lines[..i + 1][..i] == lines[..i];
      match lines[i] {
        case Calories(n) =>
          current := current + n;
        case Blank =>
          sums := sums + [current];
          current := 0;
      }
      i := i + 1;
    }
    assert lines[..i] == lines;
  }

  /** The answer: the sum of the slice `[:min(n, k)]` of the group totals
      in descending order, which for positive `k` is the `min(n, k)`
      largest totals. */
  function TopSum(sums: seq<int>, k: int): int
  {
    var sorted := SortDescending(sums);
    Sum(PySlice.To(sorted, if |sorted| < k then |sorted| else k))
  }

  /** With `k == 1` the answer is the largest total. */
  lemma TopOneIsMaximum(sums: seq<int>)
    requires |sums| > 0
    ensures TopSum(sums, 1) in sums
    ensures forall i :: 0 <= i < |sums| ==> sums[i] <= TopSum(sums, 1)
  {
    var sorted := SortDescending(sums);
    assert sorted[..1] == [sorted[0]];
    assert Sum([sorted[0]]) == sorted[0];
    assert sorted[0] in multiset(sums);
    forall i | 0 <= i < |sums|
      ensures sums[i] <= sorted[0]
    {
      assert sums[i] in multiset(sorted);
    }
  }

  /** Once `k` covers every group, the answer is the total of all groups. */
  lemma TopSumOfAll(sums: seq<int>, k: int)
    requires k >= |sums| && k > 0
    ensures TopSum(sums, k) == Sum(sums)
  {
    var sorted := SortDescending(sums);
    assert sorted[..|sorted|] == sorted;
    SumPermutation(sorted, sums);
  }

  /** With non-negative totals, asking for more elves never lowers the answer. */
  lemma TopSumMonotone(sums: seq<int>, k: int)
    requires k > 0
    requires forall i :: 0 <= i < |sums| ==> sums[i] >= 0
    ensures TopSum(sums, k) <= TopSum(sums, k + 1)
  {
    var sorted := SortDescending(sums);
    if k < |sorted| {
      assert sorted[..k + 1] == sorted[..k] + [sorted[k]];
      SumConcat(sorted[..k], [sorted[k]]);
      assert sorted[k] in multiset(sums);
    }
  }

  /** The printed number for a whole input, given `--top-k`; a `k` below 1
      fails the script's first assertion. */
  function Answer(raws: seq<string>, k: int): (r: Result<int>)
    ensures k <= 0 ==> r == Err("AssertionError")
    ensures r.Ok? <==> k > 0 && ParseLines(raws).Ok?
  {
    if k <= 0 then Err("AssertionError")
    else
      var lines :- ParseLines(raws);
      Ok(TopSum(GroupSums(lines), k))
  }
}
