/** Day 5: crates on numbered stacks, moved by a crane.  The part-1 crane
    moves crates one at a time (the moved block ends up reversed); the
    part-2 crane moves a block at once (its order is kept).  Every stack
    and every block is manipulated with Python slices, including negative
    indices, and crates are one-character strings. */
module SupplyStacks {
  import opened Results
  import PySlice
  import PyText

  type Crate = string
  type Stack = seq<Crate>

  function Reverse<T>(s: seq<T>): (r: seq<T>)
    ensures |r| == |s|
    ensures forall i :: 0 <= i < |s| ==> r[i] == s[|s| - 1 - i]
    ensures multiset(r) == multiset(s)
  {
    if s == [] then []
    else
      assert s == [s[0]] + s[1..];
      Reverse(s[1..]) + [s[0]]
  }

  /** `[line[x:x + 4][1:2] for x in range(0, len(line), 4)]`: the second
      character of every four-character column, or "" where the line ends
      after the column's first character. */
  function Chunks(line: string): (r: seq<string>)
    ensures |r| == (|line| + 3) / 4
    ensures forall k :: 0 <= k < |r| ==> |r[k]| <= 1
  {
    seq((|line| + 3) / 4, k => PySlice.Slice(PySlice.Slice(line, 4 * k, 4 * k + 4), 1, 2))
  }

  /** Column `k` reads character `4k + 1` of the line whenever the line
      is that long. */
  lemma ChunkIsColumnCharacter(line: string, k: nat)
    requires 4 * k + 1 < |line|
    ensures k < |Chunks(line)| && Chunks(line)[k] == [line[4 * k + 1]]
  {
  }

  /** One row of the drawing, bottom rows first: every crate that is not a
      single space goes on top of the stack of its column; a crate in a
      column without a stack raises IndexError. */
  function PlaceRow(stacks: seq<Stack>, crates: seq<Crate>): (r: Result<seq<Stack>>)
    ensures r.Ok? <==> forall k :: 0 <= k < |crates| && crates[k] != " " ==> k < |stacks|
    ensures r.Ok? ==> |r.value| == |stacks|
    ensures r.Ok? ==> forall k :: 0 <= k < |stacks| ==>
              r.value[k] == stacks[k] + (if k < |crates| && crates[k] != " " then [crates[k]] else [])
    decreases |crates|
  {
    if crates == [] then Ok(stacks)
    else
      var k := |crates| - 1;
      var init := crates[..k];
      var placed :- PlaceRow(stacks, init);
      if crates[k] == " " then Ok(placed)
      else if k >= |placed| then Err("IndexError")
      else Ok(placed[k := placed[k] + [crates[k]]])
  }

  /** The crates of column `k`, bottom to top. */
  function Column(rowsBottomUp: seq<string>, k: nat): Stack
  {
    if rowsBottomUp == [] then []
    else
      var crates := Chunks(rowsBottomUp[0]);
      (if k < |crates| && crates[k] != " " then [crates[k]] else []) + Column(rowsBottomUp[1..], k)
  }

  function PlaceRows(stacks: seq<Stack>, rowsBottomUp: seq<string>): Result<seq<Stack>>
    decreases |rowsBottomUp|
  {
    if rowsBottomUp == [] then Ok(stacks)
    else
      var placed :- PlaceRow(stacks, Chunks(rowsBottomUp[0]));
      PlaceRows(placed, rowsBottomUp[1..])
  }

  /** Filling row by row gives each stack its column read bottom-up. */
  lemma {:induction false} PlaceRowsByColumn(stacks: seq<Stack>, rowsBottomUp: seq<string>)
    requires PlaceRows(stacks, rowsBottomUp).Ok?
    ensures |PlaceRows(stacks, rowsBottomUp).value| == |stacks|
    ensures forall k :: 0 <= k < |stacks| ==>
              PlaceRows(stacks, rowsBottomUp).value[k] == stacks[k] + Column(rowsBottomUp, k)
    decreases |rowsBottomUp|
  {
    if rowsBottomUp != [] {
      var placed := PlaceRow(stacks, Chunks(rowsBottomUp[0])).value;
      PlaceRowsByColumn(placed, rowsBottomUp[1..]);
    }
  }

  /** The number of characters other than ' ' in a string. */
  function CountLabels(s: string): nat
  {
    if s == [] then 0 else (if s[0] != ' ' then 1 else 0) + CountLabels(s[1..])
  }

  /** `lines_to_stack`: as many empty stacks as the stripped label line has
      non-space characters, then the drawing above it from the bottom row up. */
  function LinesToStacks(lines: seq<string>): (r: Result<seq<Stack>>)
    ensures lines == [] ==> r == Err("IndexError")
    ensures r.Ok? ==> |r.value| == CountLabels(PyText.Strip(lines[|lines| - 1]))
    ensures r.Ok? ==> forall k :: 0 <= k < |r.value| ==>
              r.value[k] == Column(Reverse(lines[..|lines| - 1]), k)
  {
    if lines == [] then Err("IndexError")
    else
      var count := CountLabels(PyText.Strip(lines[|lines| - 1]));
      var empty: seq<Stack> := seq(count, _ => []);
      var r := PlaceRows(empty, Reverse(lines[..|lines| - 1]));
      if r.Ok? then
        PlaceRowsByColumn(empty, Reverse(lines[..|lines| - 1]));
        r
      else r
  }

  datatype Command = Command(count: int, source: int, target: int)

  /** "move N from A to B": six space-separated tokens, of which the second,
      fourth and sixth must be integers; the stack numbers become 0-based. */
  function ParseCommand(line: string): (r: Result<Command>)
    ensures r.Ok? <==> var t := PyText.Split(PyText.Strip(line), ' ');
              |t| == 6 && PyText.ParseInt(t[1]).Some? && PyText.ParseInt(t[3]).Some? && PyText.ParseInt(t[5]).Some?
    ensures r.Ok? ==> var t := PyText.Split(PyText.Strip(line), ' ');
              PyText.ParseInt(t[1]) == Some(r.value.count)
              && PyText.ParseInt(t[3]) == Some(r.value.source + 1)
              && PyText.ParseInt(t[5]) == Some(r.value.target + 1)
  {
    var t := PyText.Split(PyText.Strip(line), ' ');
    if |t| != 6 then Err("ValueError")
    else match (PyText.ParseInt(t[1]), PyText.ParseInt(t[3]), PyText.ParseInt(t[5]))
      case (Some(n), Some(a), Some(b)) => Ok(Command(n, a - 1, b - 1))
      case _ => Err("ValueError")
  }

  /** The words of a command as the puzzle writes it, with 1-based stack
      numbers. */
  function CommandWords(c: Command): (ws: seq<string>)
    ensures |ws| == 6
  {
    ["move", PyText.ShowInt(c.count), "from", PyText.ShowInt(c.source + 1), "to", PyText.ShowInt(c.target + 1)]
  }

  /** The command line: its words joined by single spaces. */
  function ShowCommand(c: Command): string
  {
    PyText.Join(CommandWords(c), ' ')
  }

  /** A written command splits back into its six words. */
  lemma ShowCommandWords(c: Command)
    ensures PyText.Split(PyText.Strip(ShowCommand(c)), ' ') == CommandWords(c)
  {
    var ws := CommandWords(c);
    forall k | 0 <= k < |ws| ensures PyText.Token(ws[k]) {
      if k == 1 {
        PyText.ShowIntToken(c.count);
      } else if k == 3 {
        PyText.ShowIntToken(c.source + 1);
      } else if k == 5 {
        PyText.ShowIntToken(c.target + 1);
      }
    }
    PyText.SplitJoinTokens(ws);
  }

  /** A written command parses back to itself. */
  lemma ParseShowCommand(c: Command)
    ensures ParseCommand(ShowCommand(c)) == Ok(c)
  {
    ShowCommandWords(c);
    ParseCommandWords(ShowCommand(c), c);
  }

  /** Any line whose words are those of a written command parses to that command. */
  lemma ParseCommandWords(line: string, c: Command)
    requires PyText.Split(PyText.Strip(line), ' ') == CommandWords(c)
    ensures ParseCommand(line) == Ok(c)
  {
    ParseWords(line, CommandWords(c), c);
  }

  /** A line of six words whose numbers are those of `c`, written by `ShowInt`, parses to `c`. */
  lemma ParseWords(line: string, ws: seq<string>, c: Command)
    requires PyText.Split(PyText.Strip(line), ' ') == ws && |ws| == 6
    requires ws[1] == PyText.ShowInt(c.count)
    requires ws[3] == PyText.ShowInt(c.source + 1)
    requires ws[5] == PyText.ShowInt(c.target + 1)
    ensures ParseCommand(line) == Ok(c)
  {
    PyText.ParseShow(c.count);
    PyText.ParseShow(c.source + 1);
    PyText.ParseShow(c.target + 1);
  }

  function ParseCommands(lines: seq<string>): Result<seq<Command>>
  {
    Collect(seq(|lines|, i requires 0 <= i < |lines| => ParseCommand(lines[i])))
  }

  /** One crane command: take `source[-count:]`, reverse it unless the
      crane is the part-2 model, cut the source down to `source[:-count]`
      and extend the target (which, if it is the source, is the cut stack). */
  function Move(stacks: seq<Stack>, c: Command, part2: bool): (r: Result<seq<Stack>>)
    ensures r.Ok? <==> PySlice.Index(|stacks|, c.source).Some? && PySlice.Index(|stacks|, c.target).Some?
    ensures r.Ok? ==> |r.value| == |stacks|
    ensures r.Ok? ==> forall k :: (0 <= k < |stacks| && k != PySlice.Index(|stacks|, c.source).value
                                   && k != PySlice.Index(|stacks|, c.target).value) ==> r.value[k] == stacks[k]
  {
    match (PySlice.Index(|stacks|, c.source), PySlice.Index(|stacks|, c.target))
    case (Some(s), Some(t)) =>
      var block := PySlice.From(stacks[s], -c.count);
      var moved := if part2 then block else Reverse(block);
      var cut := stacks[s := PySlice.To(stacks[s], -c.count)];
      Ok(cut[t := cut[t] + moved])
    case _ => Err("IndexError")
  }

  /** For `1 <= count <= |source|` and two different stacks, the source
      loses its top `count` crates and the target gains them on top, in the
      same order for part 2 and reversed for part 1. */
  lemma MoveBlock(stacks: seq<Stack>, c: Command, part2: bool)
    requires 0 <= c.source < |stacks| && 0 <= c.target < |stacks| && c.source != c.target
    requires 1 <= c.count <= |stacks[c.source]|
    ensures Move(stacks, c, part2).Ok?
    ensures var src := stacks[c.source];
            var block := src[|src| - c.count..];
            Move(stacks, c, part2).value[c.source] == src[..|src| - c.count]
            && Move(stacks, c, part2).value[c.target]
               == stacks[c.target] + (if part2 then block else Reverse(block))
  {
    PySlice.NegativeSuffix(stacks[c.source], c.count);
  }

  /** With `count == 0` the slice `[-0:]` is the whole source, so the whole
      stack is moved. */
  lemma MoveZeroTakesAll(stacks: seq<Stack>, c: Command)
    requires 0 <= c.source < |stacks| && 0 <= c.target < |stacks| && c.source != c.target
    requires c.count == 0
    ensures Move(stacks, c, true).Ok?
    ensures Move(stacks, c, true).value[c.source] == []
    ensures Move(stacks, c, true).value[c.target] == stacks[c.target] + stacks[c.source]
  {
    PySlice.NegativeSuffix(stacks[c.source], 0);
  }

  /** All crates on all stacks. */
  function Contents(stacks: seq<Stack>): multiset<Crate>
  {
    if stacks == [] then multiset{} else multiset(stacks[0]) + Contents(stacks[1..])
  }

  lemma {:induction false} ContentsUpdate(stacks: seq<Stack>, i: nat, s: Stack)
    requires i < |stacks|
    ensures Contents(stacks[i := s]) + multiset(stacks[i]) == Contents(stacks) + multiset(s)
  {
    var updated := stacks[i := s];
    if i > 0 {
      var tail := stacks[1..];
      assert updated[0] == stacks[0];
      assert updated[1..] == tail[i - 1 := s];
      assert tail[i - 1] == stacks[i];
      ContentsUpdate(tail, i - 1, s);
      calc {
        Contents(updated) + multiset(stacks[i]);
        multiset(stacks[0]) + Contents(tail[i - 1 := s]) + multiset(tail[i - 1]);
        multiset(stacks[0]) + (Contents(tail) + multiset(s));
        Contents(stacks) + multiset(s);
      }
    } else {
      assert updated[1..] == stacks[1..];
    }
  }

  /** No crate is ever created or destroyed, whatever the count, the stack
      numbers or the crane model. */
  lemma MultisetCancel<T>(a: multiset<T>, b: multiset<T>, x: multiset<T>)
    requires a + x == b + x
    ensures a == b
  {
    forall e | true
      ensures a[e] == b[e]
    {
      assert (a + x)[e] == (b + x)[e];
    }
  }

  lemma MoveConserves(stacks: seq<Stack>, c: Command, part2: bool)
    requires Move(stacks, c, part2).Ok?
    ensures Contents(Move(stacks, c, part2).value) == Contents(stacks)
  {
    var s := PySlice.Index(|stacks|, c.source).value;
    var t := PySlice.Index(|stacks|, c.target).value;
    var block := PySlice.From(stacks[s], -c.count);
    var rest := PySlice.To(stacks[s], -c.count);
    var moved := if part2 then block else Reverse(block);
    var cut := stacks[s := rest];
    var final := cut[t := cut[t] + moved];
    assert Move(stacks, c, part2).value == final;
    assert Contents(cut) + multiset(block) == Contents(stacks) by {
      PySlice.ToFrom(stacks[s], -c.count);
      assert multiset(stacks[s]) == multiset(rest) + multiset(block);
      ContentsUpdate(stacks, s, rest);
      MultisetCancel(Contents(cut) + multiset(block), Contents(stacks), multiset(rest));
    }
    assert Contents(final) == Contents(cut) + multiset(moved) by {
      ContentsUpdate(cut, t, cut[t] + moved);
      MultisetCancel(Contents(final), Contents(cut) + multiset(moved), multiset(cut[t]));
    }
    assert multiset(moved) == multiset(block);
  }

  function RunCommands(stacks: seq<Stack>, commands: seq<Command>, part2: bool): Result<seq<Stack>>
    decreases |commands|
  {
    if commands == [] then Ok(stacks)
    else
      var next :- Move(stacks, commands[0], part2);
      RunCommands(next, commands[1..], part2)
  }

  /** The whole procedure keeps every crate and the number of stacks. */
  lemma {:induction false} RunConserves(stacks: seq<Stack>, commands: seq<Command>, part2: bool)
    requires RunCommands(stacks, commands, part2).Ok?
    ensures Contents(RunCommands(stacks, commands, part2).value) == Contents(stacks)
    ensures |RunCommands(stacks, commands, part2).value| == |stacks|
    decreases |commands|
  {
    if commands != [] {
      MoveConserves(stacks, commands[0], part2);
      RunConserves(Move(stacks, commands[0], part2).value, commands[1..], part2);
    }
  }

  /** The message: the top crate of every stack, in order; an empty stack
      raises IndexError. */
  function TopCrates(stacks: seq<Stack>): (r: Result<string>)
    ensures r.Ok? <==> forall k :: 0 <= k < |stacks| ==> stacks[k] != []
    ensures r.Ok? && (forall k :: 0 <= k < |stacks| ==> |stacks[k][|stacks[k]| - 1]| == 1) ==>
              |r.value| == |stacks|
              && forall k :: 0 <= k < |stacks| ==> [r.value[k]] == stacks[k][|stacks[k]| - 1]
  {
    if stacks == [] then Ok([])
    else if stacks[0] == [] then Err("IndexError")
    else
      var rest := TopCrates(stacks[1..]);
      assert forall k :: 1 <= k < |stacks| ==> stacks[k] == stacks[1..][k - 1];
      if rest.Err? then rest
      else Ok(stacks[0][|stacks[0]| - 1] + rest.value)
  }

  /** The index of the first line that is exactly a newline. */
  function FirstBlank(lines: seq<string>): (r: Option<nat>)
    ensures r.Some? ==> r.value < |lines| && lines[r.value] == "\n"
    ensures r.Some? ==> forall i :: 0 <= i < r.value ==> lines[i] != "\n"
    ensures r.None? ==> forall i :: 0 <= i < |lines| ==> lines[i] != "\n"
  {
    if lines == [] then None
    else if lines[0] == "\n" then Some(0)
    else match FirstBlank(lines[1..])
      case None => None
      case Some(i) => Some(i + 1)
  }

  /** The whole script: drawing before the first blank line, commands after. */
  function Answer(lines: seq<string>, part2: bool): Result<string>
  {
    var split :- match FirstBlank(lines) case None => Err("IndexError") case Some(i) => Ok(i);
    var stacks :- LinesToStacks(lines[..split]);
    var commands :- ParseCommands(lines[split + 1..]);
    var final :- RunCommands(stacks, commands, part2);
    TopCrates(final)
  }
}
