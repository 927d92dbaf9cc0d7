/** Day 3: the item type shared by both compartments of a rucksack
    (part 1) and the badge shared by a group of three elves (part 2),
    scored by priority. */
module Rucksacks {
  import opened Results
  import opened Seqs
  import PyText

  predicate IsUpper(c: char) { 'A' <= c <= 'Z' }

  predicate IsLetter(c: char) { 'a' <= c <= 'z' || IsUpper(c) }

  /** Upper-case items are worth their code minus 65 plus 27, every other
      item its code minus 97 plus 1. */
  function Priority(c: char): (p: int)
    ensures 'a' <= c <= 'z' ==> 1 <= p <= 26
    ensures IsUpper(c) ==> 27 <= p <= 52
  {
    if IsUpper(c) then c as int - 65 + 27 else c as int - 97 + 1
  }

  /** Every priority from 1 to 52 belongs to exactly one letter. */
  lemma PriorityOnto(p: int)
    requires 1 <= p <= 52
    ensures exists c :: IsLetter(c) && Priority(c) == p
  {
    var c := if p <= 26 then (p - 1 + 'a' as int) as char else (p - 27 + 'A' as int) as char;
    assert IsLetter(c) && Priority(c) == p;
  }

  lemma PriorityInjective(c: char, d: char)
    requires IsLetter(c) && IsLetter(d)
    requires Priority(c) == Priority(d)
    ensures c == d
  {
  }

  /** The two compartments: the line cut at `len // 2`. */
  function Halves(line: string): (r: (string, string))
    ensures r.0 + r.1 == line
    ensures |r.0| == |line| / 2 && |r.1| - |r.0| <= 1
  {
    (line[..|line| / 2], line[|line| / 2..])
  }

  /** The first item of `a` that also occurs in `b`. */
  function FirstCommon(a: string, b: string): (r: Option<char>)
    ensures r.Some? <==> exists c :: c in a && c in b
    ensures r.Some? ==> r.value in a && r.value in b
  {
    if a == [] then None
    else if a[0] in b then Some(a[0])
    else
      var r := FirstCommon(a[1..], b);
      assert forall c :: c in a && c != a[0] ==> c in a[1..];
      r
  }

  /** The common item of several strings, taken from the first one. */
  function FirstCommon3(a: string, b: string, c: string): (r: Option<char>)
    ensures r.Some? <==> exists x :: x in a && x in b && x in c
    ensures r.Some? ==> r.value in a && r.value in b && r.value in c
  {
    if a == [] then None
    else if a[0] in b && a[0] in c then Some(a[0])
    else
      var r := FirstCommon3(a[1..], b, c);
      assert forall x :: x in a && x != a[0] ==> x in a[1..];
      r
  }

  /** When the intersection has one element, as the puzzle guarantees,
      the pick is that element.  The script takes `list(intersection)[0]`,
      which is the same element in that case. */
  lemma {:induction false} FirstCommonOfSingleton(a: string, b: string, x: char)
    requires x in a && x in b
    requires forall c :: c in a && c in b ==> c == x
    ensures FirstCommon(a, b) == Some(x)
  {
  }

  lemma {:induction false} FirstCommon3OfSingleton(a: string, b: string, c: string, x: char)
    requires x in a && x in b && x in c
    requires forall y :: y in a && y in b && y in c ==> y == x
    ensures FirstCommon3(a, b, c) == Some(x)
  {
  }

  /** Part 1, one stripped line: cut it into halves and score the item
      they share; an empty intersection raises IndexError. */
  function RucksackPriority(line: string): (r: Result<int>)
    ensures r.Ok? <==> exists c :: c in Halves(line).0 && c in Halves(line).1
    ensures r.Ok? ==> exists c :: c in Halves(line).0 && c in Halves(line).1 && r.value == Priority(c)
  {
    var (first, second) := Halves(line);
    match FirstCommon(first, second)
    case None => Err("IndexError")
    case Some(c) => Ok(Priority(c))
  }

  /** Part 2, one group: all three lines must be present (IndexError
      otherwise) and share an item. */
  function BadgePriority(group: seq<string>): (r: Result<int>)
    ensures |group| < 3 ==> r.Err?
    ensures |group| >= 3 ==> (r.Ok? <==> exists c :: c in group[0] && c in group[1] && c in group[2])
    ensures r.Ok? ==> exists c :: c in group[0] && c in group[1] && c in group[2]
                                 && r.value == Priority(c)
    ensures r.Err? ==> r.error == "IndexError"
  {
    if |group| < 3 then Err("IndexError")
    else match FirstCommon3(group[0], group[1], group[2])
      case None => Err("IndexError")
      case Some(c) => Ok(Priority(c))
  }

  /** `[lines[x:x + 3] for x in range(0, len(lines), 3)]` */
  function Groups<T>(lines: seq<T>): (r: seq<seq<T>>)
    ensures forall g :: 0 <= g < |r| ==> 1 <= |r[g]| <= 3
    ensures forall g :: 0 <= g < |r| - 1 ==> |r[g]| == 3
    ensures |r| == (|lines| + 2) / 3
    ensures r != [] ==> |r[|r| - 1]| == |lines| - 3 * (|r| - 1)
  {
    ChunksShape(lines);
    Chunks(lines)
  }

  /** The slicing behind `Groups`, three lines at a time. */
  function Chunks<T>(lines: seq<T>): seq<seq<T>>
    decreases |lines|
  {
    if |lines| <= 3 then (if lines == [] then [] else [lines])
    else [lines[..3]] + Chunks(lines[3..])
  }

  lemma {:induction false} ChunksShape<T>(lines: seq<T>)
    ensures var r := Chunks(lines);
              && (forall g :: 0 <= g < |r| ==> 1 <= |r[g]| <= 3)
              && (forall g :: 0 <= g < |r| - 1 ==> |r[g]| == 3)
              && |r| == (|lines| + 2) / 3
              && (r != [] ==> |r[|r| - 1]| == |lines| - 3 * (|r| - 1))
    decreases |lines|
  {
    if |lines| > 3 {
      ChunksShape(lines[3..]);
      var r, rest := Chunks(lines), Chunks(lines[3..]);
      assert r == [lines[..3]] + rest;
      assert forall g :: 1 <= g < |r| ==> r[g] == rest[g - 1];
    }
  }

  function Concat<T>(groups: seq<seq<T>>): seq<T>
  {
    if groups == [] then [] else groups[0] + Concat(groups[1..])
  }

  /** The groups are consecutive: putting them back together gives the lines. */
  lemma GroupsConcat<T>(lines: seq<T>)
    ensures Concat(Groups(lines)) == lines
  {
    ChunksConcat(lines);
  }

  lemma {:induction false} ChunksConcat<T>(lines: seq<T>)
    ensures Concat(Chunks(lines)) == lines
    decreases |lines|
  {
    if |lines| > 3 {
      ChunksConcat(lines[3..]);
      assert lines == lines[..3] + lines[3..];
    }
  }

  /** Summing per-item scores; the first error is the result. */
  function SumResults(rs: seq<Result<int>>): (r: Result<int>)
    ensures r.Ok? <==> forall i :: 0 <= i < |rs| ==> rs[i].Ok?
  {
    if rs == [] then Ok(0)
    else if rs[0].Err? then rs[0]
    else
      var rest := SumResults(rs[1..]);
      assert forall i :: 1 <= i < |rs| ==> rs[i] == rs[1..][i - 1];
      if rest.Err? then rest else Ok(rs[0].value + rest.value)
  }

  /** With every score Ok, the sum is the sum of the values. */
  lemma {:induction false} SumResultsConcat(a: seq<Result<int>>, b: seq<Result<int>>)
    requires SumResults(a).Ok? && SumResults(b).Ok?
    ensures SumResults(a + b) == Ok(SumResults(a).value + SumResults(b).value)
  {
    if a == [] {
      assert a + b == b;
    } else {
      assert (a + b)[0] == a[0];
      assert (a + b)[1..] == a[1..] + b;
      SumResultsConcat(a[1..], b);
    }
  }

  /** The per-line scores of part 1. */
  function LineScores(raws: seq<string>): (r: seq<Result<int>>)
    ensures |r| == |raws|
    ensures forall i :: 0 <= i < |raws| ==> r[i] == RucksackPriority(PyText.Strip(raws[i]))
  {
    if raws == [] then [] else [RucksackPriority(PyText.Strip(raws[0]))] + LineScores(raws[1..])
  }

  function Part1(raws: seq<string>): Result<int>
  {
    SumResults(LineScores(raws))
  }

  /** Part 1 fails exactly when some stripped line has halves with nothing
      in common (see `RucksackPriority`). */
  lemma Part1Succeeds(raws: seq<string>)
    ensures Part1(raws).Ok? <==> forall i :: 0 <= i < |raws| ==> RucksackPriority(PyText.Strip(raws[i])).Ok?
  {
    var scores := LineScores(raws);
    assert forall i :: 0 <= i < |raws| ==> scores[i] == RucksackPriority(PyText.Strip(raws[i]));
  }

  /** The per-group scores of part 2. */
  function GroupScores(groups: seq<seq<string>>): (r: seq<Result<int>>)
    ensures |r| == |groups|
    ensures forall g :: 0 <= g < |groups| ==> r[g] == BadgePriority(groups[g])
  {
    if groups == [] then [] else [BadgePriority(groups[0])] + GroupScores(groups[1..])
  }

  function StripAll(raws: seq<string>): (r: seq<string>)
    ensures |r| == |raws|
    ensures forall i :: 0 <= i < |raws| ==> r[i] == PyText.Strip(raws[i])
  {
    if raws == [] then [] else [PyText.Strip(raws[0])] + StripAll(raws[1..])
  }

  /** An incomplete last group makes part 2 fail. */
  function Part2(raws: seq<string>): (r: Result<int>)
    ensures |raws| % 3 != 0 ==> r.Err?
  {
    ShortGroupFails(raws);
    SumResults(GroupScores(Groups(StripAll(raws))))
  }

  /** A line count that is not a multiple of three leaves a last group of
      one or two lines, whose badge lookup raises IndexError. */
  lemma ShortGroupFails(raws: seq<string>)
    ensures |raws| % 3 != 0 ==> SumResults(GroupScores(Groups(StripAll(raws)))).Err?
  {
    if |raws| % 3 != 0 {
      var groups := Groups(StripAll(raws));
      LastGroupShort(StripAll(raws));
      assert GroupScores(groups)[|groups| - 1].Err?;
    }
  }

  /** A count that is not a multiple of three leaves one or two lines in
      the last group. */
  lemma LastGroupShort<T>(lines: seq<T>)
    requires |lines| % 3 != 0
    ensures Groups(lines) != [] && |Groups(lines)[|Groups(lines)| - 1]| < 3
  {
    var n, g := |lines|, |Groups(lines)|;
    var q := n / 3;
    assert n == 3 * q + n % 3;
    assert g == q + 1;
  }

  lemma {:induction false} LineScoresConcat(a: seq<string>, b: seq<string>)
    ensures LineScores(a + b) == LineScores(a) + LineScores(b)
  {
    if a == [] {
      assert a + b == b;
    } else {
      assert (a + b)[1..] == a[1..] + b;
      LineScoresConcat(a[1..], b);
    }
  }

  /** A file is scored line by line: the total of two files read one after
      the other is the sum of their totals. */
  lemma Part1Concat(a: seq<string>, b: seq<string>)
    requires Part1(a).Ok? && Part1(b).Ok?
    ensures Part1(a + b).Ok?
    ensures Part1(a + b).value == Part1(a).value + Part1(b).value
  {
    LineScoresConcat(a, b);
    SumResultsConcat(LineScores(a), LineScores(b));
  }

  /** Group `g` holds lines `3g`, `3g + 1` and `3g + 2`, cut short at the end. */
  lemma GroupsAt<T>(lines: seq<T>, g: nat)
    requires g < |Groups(lines)|
    ensures 3 * g < |lines|
    ensures Groups(lines)[g] == lines[3 * g .. if 3 * g + 3 <= |lines| then 3 * g + 3 else |lines|]
  {
    ChunksAt(lines, g);
  }

  lemma {:induction false} ChunksAt<T>(lines: seq<T>, g: nat)
    requires g < |Chunks(lines)|
    ensures 3 * g < |lines|
    ensures Chunks(lines)[g] == lines[3 * g .. if 3 * g + 3 <= |lines| then 3 * g + 3 else |lines|]
    decreases |lines|
  {
    if |lines| > 3 && g > 0 {
      var rest := lines[3..];
      assert Chunks(lines)[g] == Chunks(rest)[g - 1];
      ChunksAt(rest, g - 1);
      var hi := if 3 * g + 3 <= |lines| then 3 * g + 3 else |lines|;
      assert rest[3 * (g - 1) .. hi - 3] == lines[3 * g .. hi];
    }
  }

  /** Cutting a file whose length is a multiple of three between two
      groups does not change the grouping. */
  lemma GroupsConcatThree<T>(a: seq<T>, b: seq<T>)
    requires |a| % 3 == 0
    ensures Groups(a + b) == Groups(a) + Groups(b)
  {
    ChunksConcatThree(a, b);
  }

  lemma {:induction false} ChunksConcatThree<T>(a: seq<T>, b: seq<T>)
    requires |a| % 3 == 0
    ensures Chunks(a + b) == Chunks(a) + Chunks(b)
    decreases |a|
  {
    if a == [] {
      assert a + b == b;
    } else if b == [] {
      assert a + b == a;
    } else {
      var rest := a[3..];
      assert Chunks(a + b) == [a[..3]] + Chunks(rest + b) by {
        assert (a + b)[..3] == a[..3];
        assert (a + b)[3..] == rest + b;
      }
      ChunksConcatThree(rest, b);
      assert Chunks(a) == [a[..3]] + Chunks(rest) by {
        if |a| == 3 {
          assert rest == [];
          assert a[..3] == a;
        }
      }
    }
  }

  lemma {:induction false} GroupScoresConcat(a: seq<seq<string>>, b: seq<seq<string>>)
    ensures GroupScores(a + b) == GroupScores(a) + GroupScores(b)
  {
    if a == [] {
      assert a + b == b;
    } else {
      assert (a + b)[1..] == a[1..] + b;
      GroupScoresConcat(a[1..], b);
    }
  }

  /** Both branches of `Part2` add up the group scores. */
  lemma Part2Scores(raws: seq<string>)
    ensures Part2(raws) == SumResults(GroupScores(Groups(StripAll(raws))))
  {
  }

  /** Whether three lines share an item. */
  predicate Shared(x: string, y: string, z: string)
  {
    exists c :: c in x && c in y && c in z
  }

  /** A group of exactly three lines scores when they share an item. */
  lemma BadgeShared(x: string, y: string, z: string)
    ensures BadgePriority([x, y, z]).Ok? <==> Shared(x, y, z)
  {
  }

  lemma SliceThree<T>(s: seq<T>, i: nat)
    requires i + 3 <= |s|
    ensures s[i .. i + 3] == [s[i], s[i + 1], s[i + 2]]
  {
  }

  /** With a count that is a multiple of three, every group is whole. */
  lemma WholeGroups(n: nat, g: nat)
    requires n % 3 == 0
    ensures (n + 2) / 3 == n / 3
    ensures g < n / 3 ==> 3 * g + 3 <= n
  {
    var q := n / 3;
    assert n == 3 * q;
  }

  /** With whole groups, group `g` is stripped lines `3g`, `3g + 1` and `3g + 2`. */
  lemma GroupLines(raws: seq<string>, g: nat)
    requires |raws| % 3 == 0 && g < |raws| / 3
    ensures g < |Groups(StripAll(raws))|
    ensures Groups(StripAll(raws))[g] ==
              [PyText.Strip(raws[3 * g]), PyText.Strip(raws[3 * g + 1]), PyText.Strip(raws[3 * g + 2])]
  {
    var lines := StripAll(raws);
    WholeGroups(|raws|, g);
    GroupsAt(lines, g);
    SliceThree(lines, 3 * g);
  }

  lemma GroupScoreAt(raws: seq<string>, g: nat)
    requires |raws| % 3 == 0 && g < |raws| / 3
    ensures GroupScores(Groups(StripAll(raws)))[g].Ok? <==>
              Shared(PyText.Strip(raws[3 * g]), PyText.Strip(raws[3 * g + 1]), PyText.Strip(raws[3 * g + 2]))
  {
    GroupLines(raws, g);
    BadgeShared(PyText.Strip(raws[3 * g]), PyText.Strip(raws[3 * g + 1]), PyText.Strip(raws[3 * g + 2]));
  }

  /** Part 2 succeeds exactly when the lines come in whole groups of three
      and the three stripped lines of every group share an item. */
  lemma Part2Succeeds(raws: seq<string>)
    ensures Part2(raws).Ok? <==>
              |raws| % 3 == 0 &&
              forall g :: 0 <= g < |raws| / 3 ==>
                Shared(PyText.Strip(raws[3 * g]), PyText.Strip(raws[3 * g + 1]), PyText.Strip(raws[3 * g + 2]))
  {
    if |raws| % 3 == 0 {
      WholeGroupsSucceed(raws);
    }
  }

  lemma WholeGroupsSucceed(raws: seq<string>)
    requires |raws| % 3 == 0
    ensures Part2(raws).Ok? <==>
              forall g :: 0 <= g < |raws| / 3 ==>
                Shared(PyText.Strip(raws[3 * g]), PyText.Strip(raws[3 * g + 1]), PyText.Strip(raws[3 * g + 2]))
  {
    var scores := GroupScores(Groups(StripAll(raws)));
    assert |scores| == |raws| / 3 by {
      WholeGroups(|raws|, 0);
    }
    Part2Scores(raws);
    if Part2(raws).Ok? {
      forall g | 0 <= g < |raws| / 3
        ensures Shared(PyText.Strip(raws[3 * g]), PyText.Strip(raws[3 * g + 1]), PyText.Strip(raws[3 * g + 2]))
      {
        assert scores[g].Ok?;
        GroupScoreAt(raws, g);
      }
    } else {
      var g :| 0 <= g < |scores| && scores[g].Err?;
      GroupScoreAt(raws, g);
    }
  }

  /** One group of three lines scores the priority of an item all three share. */
  lemma Part2Group(raws: seq<string>, c: char)
    requires |raws| == 3
    requires c in PyText.Strip(raws[0]) && c in PyText.Strip(raws[1]) && c in PyText.Strip(raws[2])
    ensures Part2(raws).Ok?
    ensures exists x :: x in PyText.Strip(raws[0]) && x in PyText.Strip(raws[1]) && x in PyText.Strip(raws[2])
                        && Part2(raws).value == Priority(x)
  {
    var lines := StripAll(raws);
    assert Groups(lines) == [lines];
    assert GroupScores([lines]) == [BadgePriority(lines)];
    assert SumResults([BadgePriority(lines)]) == Ok(BadgePriority(lines).value + 0) by {
      assert [BadgePriority(lines)][1..] == [];
    }
  }

  lemma {:induction false} StripAllConcat(a: seq<string>, b: seq<string>)
    ensures StripAll(a + b) == StripAll(a) + StripAll(b)
  {
    if a == [] {
      assert a + b == b;
    } else {
      assert (a + b)[1..] == a[1..] + b;
      StripAllConcat(a[1..], b);
    }
  }

  /** Part 2 over whole groups: the total of two files read one after the
      other, the first a whole number of groups, is the sum of their totals. */
  lemma Part2Concat(a: seq<string>, b: seq<string>)
    requires |a| % 3 == 0
    requires Part2(a).Ok? && Part2(b).Ok?
    ensures Part2(a + b).Ok?
    ensures Part2(a + b).value == Part2(a).value + Part2(b).value
  {
    Part2Scores(a);
    Part2Scores(b);
    Part2Scores(a + b);
    var la, lb := StripAll(a), StripAll(b);
    StripAllConcat(a, b);
    GroupsConcatThree(la, lb);
    var ga, gb := Groups(la), Groups(lb);
    GroupScoresConcat(ga, gb);
    SumResultsConcat(GroupScores(ga), GroupScores(gb));
  }
}
