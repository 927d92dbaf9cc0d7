/** Day 10: a one-register CPU with `noop` (one cycle) and `addx V` (two
    cycles, then X += V).  Part 1 samples the register during chosen
    cycles; part 2 drives a 40-pixel-wide display with a 3-pixel sprite. */
module CathodeRayTube {
  import opened Results
  import opened Seqs
  import PyText

  datatype Instr = Noop | Addx(v: int)

  /** How many cycles an instruction takes. */
  function Length(i: Instr): nat
  {
    if i.Noop? then 1 else 2
  }

  /** How many `addx` instructions a program holds. */
  function AddxCount(instrs: seq<Instr>): nat
  {
    if instrs == [] then 0
    else AddxCount(instrs[..|instrs| - 1]) + (if instrs[|instrs| - 1].Addx? then 1 else 0)
  }

  /** A program takes one cycle per instruction and one more per `addx`. */
  function Cycles(instrs: seq<Instr>): (n: nat)
    ensures n == |instrs| + AddxCount(instrs)
  {
    if instrs == [] then 0 else Cycles(instrs[..|instrs| - 1]) + Length(instrs[|instrs| - 1])
  }

  /** The last token of `instruction.split(' ')`. */
  function LastToken(line: string): string
  {
    var tokens := PyText.Split(line, ' ');
    tokens[|tokens| - 1]
  }

  /** Part 1 reading: exactly "noop" is a no-op, and every other line is
      an addx whose operand is the last space-separated token. */
  function ParseForTrace(line: string): (r: Result<Instr>)
    ensures line == "noop" ==> r == Ok(Noop)
    ensures line != "noop" ==> (r.Ok? <==> PyText.ParseInt(LastToken(line)).Some?)
    ensures r.Ok? && line != "noop" ==> r.value == Addx(PyText.ParseInt(LastToken(line)).value)
  {
    if line == "noop" then Ok(Noop)
    else match PyText.ParseInt(LastToken(line))
      case None => Err("ValueError")
      case Some(v) => Ok(Addx(v))
  }

  /** Part 2 reading: a line starting with "addx" adds its last token, and
      every other line only draws. */
  function ParseForCrt(line: string): (r: Result<Instr>)
    ensures !PyText.StartsWith(line, "addx") ==> r == Ok(Noop)
    ensures PyText.StartsWith(line, "addx") ==> (r.Ok? <==> PyText.ParseInt(LastToken(line)).Some?)
    ensures r.Ok? && PyText.StartsWith(line, "addx") ==> r.value == Addx(PyText.ParseInt(LastToken(line)).value)
  {
    if !PyText.StartsWith(line, "addx") then Ok(Noop)
    else match PyText.ParseInt(LastToken(line))
      case None => Err("ValueError")
      case Some(v) => Ok(Addx(v))
  }

  /** Both lists start at [1]; `noop` repeats the last value once, `addx`
      twice and then adds. */
  function Trace(instrs: seq<Instr>): (t: (seq<int>, seq<int>))
    ensures |t.0| == |t.1| == 1 + Cycles(instrs)
    ensures t.0[0] == 1 && t.1[0] == 1
  {
    if instrs == [] then ([1], [1])
    else
      var (during, after) := Trace(instrs[..|instrs| - 1]);
      var x := after[|after| - 1];
      match instrs[|instrs| - 1]
      case Noop => (during + [x], after + [x])
      case Addx(v) => (during + [x, x], after + [x, x + v])
  }

  /** The register value during each cycle is the value after the previous
      one. */
  lemma {:induction false} DuringIsPreviousAfter(instrs: seq<Instr>)
    ensures forall p :: 1 <= p < |Trace(instrs).0| ==> Trace(instrs).0[p] == Trace(instrs).1[p - 1]
  {
    if instrs != [] {
      DuringIsPreviousAfter(instrs[..|instrs| - 1]);
    }
  }

  /** Reference definition: the operands of the addx instructions that have
      finished before cycle `p` begins. */
  function AddedBefore(instrs: seq<Instr>, p: int): int
  {
    if instrs == [] then 0
    else
      var last := instrs[|instrs| - 1];
      AddedBefore(instrs[..|instrs| - 1], p) + (if last.Addx? && Cycles(instrs) < p then last.v else 0)
  }

  /** Once every instruction has finished, all operands count. */
  lemma {:induction false} AddedBeforeAll(instrs: seq<Instr>, p: int, q: int)
    requires Cycles(instrs) < p && Cycles(instrs) < q
    ensures AddedBefore(instrs, p) == AddedBefore(instrs, q)
  {
    if instrs != [] {
      AddedBeforeAll(instrs[..|instrs| - 1], p, q);
    }
  }

  /** An instruction that has not finished yet contributes nothing. */
  lemma {:induction false} AddedBeforeLater(instrs: seq<Instr>, x: Instr, p: int)
    requires p <= Cycles(instrs + [x])
    ensures AddedBefore(instrs + [x], p) == AddedBefore(instrs, p)
  {
    assert (instrs + [x])[..|instrs|] == instrs;
  }

  /** The trace agrees with the reference: during cycle `p` the register
      is 1 plus every operand whose addx finished before `p`; in
      particular an addx changes it only after its second cycle. */
  lemma {:induction false} TraceIsRegister(instrs: seq<Instr>)
    ensures forall p :: 1 <= p < |Trace(instrs).0| ==> Trace(instrs).0[p] == 1 + AddedBefore(instrs, p)
    ensures forall p :: 0 <= p < |Trace(instrs).1| ==> Trace(instrs).1[p] == 1 + AddedBefore(instrs, p + 1)
  {
    if instrs != [] {
      var init, x := instrs[..|instrs| - 1], instrs[|instrs| - 1];
      assert instrs == init + [x];
      TraceIsRegister(init);
      var (d, a) := Trace(init);
      var (d2, a2) := Trace(instrs);
      var c := Cycles(init);
      assert forall p :: 1 <= p < |d2| ==> d2[p] == 1 + AddedBefore(instrs, p) by {
        forall p | 1 <= p < |d2| ensures d2[p] == 1 + AddedBefore(instrs, p) {
          AddedBeforeLater(init, x, p);
          if p > c {
            AddedBeforeAll(init, p, c + 1);
          }
        }
      }
      assert forall p :: 0 <= p < |a2| ==> a2[p] == 1 + AddedBefore(instrs, p + 1) by {
        forall p | 0 <= p < |a2| ensures a2[p] == 1 + AddedBefore(instrs, p + 1) {
          if p + 1 <= Cycles(instrs) {
            AddedBeforeLater(init, x, p + 1);
            if p + 1 > c {
              AddedBeforeAll(init, p + 1, c + 1);
            }
          } else {
            AddedBeforeAll(init, p + 1, c + 1);
          }
        }
      }
    }
  }

  /** `range(20, 221, 40)` */
  function SamplePositions(): (ps: seq<nat>)
    ensures |ps| == 6 && ps[0] == 20 && ps[5] == 220
    ensures forall k :: 0 <= k < 6 ==> ps[k] == 20 + 40 * k
  {
    seq(6, k => 20 + 40 * k)
  }

  /** Part 1: the sum of position times the value during that cycle; a
      trace that is too short raises IndexError. */
  function SignalStrength(during: seq<int>): (r: Result<int>)
    ensures r.Ok? <==> |during| > 220
    ensures r.Ok? ==> r.value == Sum(seq(6, k requires 0 <= k < 6 => SamplePositions()[k] * during[SamplePositions()[k]]))
  {
    if |during| <= 220 then Err("IndexError")
    else Ok(Sum(seq(6, k requires 0 <= k < 6 => SamplePositions()[k] * during[SamplePositions()[k]])))
  }

  function Part1(lines: seq<string>): Result<int>
  {
    var instrs :- Collect(seq(|lines|, k requires 0 <= k < |lines| => ParseForTrace(PyText.Strip(lines[k]))));
    SignalStrength(Trace(instrs).0)
  }

  /** The part 1 answer in terms of the reference register. */
  lemma SignalStrengthOfRegister(instrs: seq<Instr>)
    requires Cycles(instrs) >= 220
    ensures SignalStrength(Trace(instrs).0) ==
              Ok(Sum(seq(6, k requires 0 <= k < 6 => (20 + 40 * k) * (1 + AddedBefore(instrs, 20 + 40 * k)))))
  {
    TraceIsRegister(instrs);
    var d := Trace(instrs).0;
    forall k | 0 <= k < 6
      ensures SamplePositions()[k] * d[SamplePositions()[k]] == (20 + 40 * k) * (1 + AddedBefore(instrs, 20 + 40 * k))
    {
      assert SamplePositions()[k] == 20 + 40 * k;
    }
    assert seq(6, k requires 0 <= k < 6 => SamplePositions()[k] * d[SamplePositions()[k]])
        == seq(6, k requires 0 <= k < 6 => (20 + 40 * k) * (1 + AddedBefore(instrs, 20 + 40 * k)));
  }

  /** One pixel: lit when the column (counter mod 40, plus one) falls on
      the sprite `sprite .. sprite + 2`. */
  function Pixel(counter: nat, sprite: int, spaces: bool): (c: char)
    ensures c == '#' <==> sprite <= counter % 40 + 1 <= sprite + 2
  {
    if sprite <= counter % 40 + 1 <= sprite + 2 then '#' else if spaces then ' ' else '.'
  }

  /** The display: finished rows, the row being drawn, the pixel counter
      and the first position of the sprite. */
  datatype Crt = Crt(image: seq<string>, row: string, counter: nat, sprite: int)

  /** The row reset, checked before the first pixel and after the first
      pixel of every instruction, but not after an addx's second one. */
  function Flush(c: Crt): Crt
  {
    if c.counter % 40 == 0 && c.counter > 0 && c.row != [] then c.(image := c.image + [c.row], row := [])
    else c
  }

  function Draw(c: Crt, spaces: bool): Crt
  {
    c.(row := c.row + [Pixel(c.counter, c.sprite, spaces)], counter := c.counter + 1)
  }

  function Execute(c: Crt, instr: Instr, spaces: bool): Crt
  {
    var c2 := Flush(Draw(Flush(c), spaces));
    match instr
    case Noop => c2
    case Addx(v) =>
      var c3 := Draw(c2, spaces);
      c3.(sprite := c3.sprite + v)
  }

  function RunCrt(instrs: seq<Instr>, spaces: bool): Crt
  {
    if instrs == [] then Crt([], [], 0, 1)
    else Execute(RunCrt(instrs[..|instrs| - 1], spaces), instrs[|instrs| - 1], spaces)
  }

  /** `pixel_image`: the finished rows, each followed by a newline. */
  function Render(image: seq<string>): (s: string)
    ensures |s| == |Flatten(image)| + |image|
  {
    if image == [] then [] else Render(image[..|image| - 1]) + image[|image| - 1] + "\n"
  }

  /** The printed image is the rows joined at newlines, with the final
      newline leaving an empty last piece. */
  lemma {:induction false} RenderJoin(image: seq<string>)
    ensures Render(image) == PyText.Join(image + [""], '\n')
  {
    if image != [] {
      var init, last := image[..|image| - 1], image[|image| - 1];
      assert image == init + [last];
      RenderJoin(init);
      JoinNewline(Render(init), init, last);
    }
  }

  /** One more row after the rows `init` printed as `printed`. */
  lemma JoinNewline(printed: string, init: seq<string>, last: string)
    requires printed == PyText.Join(init + [""], '\n')
    ensures printed + last + "\n" == PyText.Join(init + [last] + [""], '\n')
  {
    PyText.JoinSnoc(init + [last], "", '\n');
    if init == [] {
      assert init + [last] == [last];
    } else {
      PyText.JoinSnoc(init, "", '\n');
      PyText.JoinSnoc(init, last, '\n');
    }
  }

  /** Reading the printed image back line by line gives the rows, then the
      empty piece after the last newline, when no row holds a newline. */
  lemma RenderSplit(image: seq<string>)
    requires forall k :: 0 <= k < |image| ==> '\n' !in image[k]
    ensures PyText.Split(Render(image), '\n') == image + [""]
  {
    var parts := image + [""];
    forall k | 0 <= k < |parts| ensures '\n' !in parts[k] {
      if k < |image| {
        assert parts[k] == image[k];
      }
    }
    RenderJoin(image);
    PyText.SplitJoin(parts, '\n');
  }

  function Flatten(rows: seq<string>): string
  {
    if rows == [] then [] else Flatten(rows[..|rows| - 1]) + rows[|rows| - 1]
  }

  /** Every pixel drawn so far, flushed or not. */
  function Drawn(c: Crt): string
  {
    Flatten(c.image) + c.row
  }

  /** Rows are flushed only when full, and the row in progress never
      exceeds a full row. */
  ghost predicate WellFormed(c: Crt)
  {
    (forall k :: 0 <= k < |c.image| ==> |c.image[k]| == 40)
    && |c.row| <= 40
    && c.counter == 40 * |c.image| + |c.row|
  }

  /** The pixels the program draws, computed from part 1's register
      trace: pixel `k` is drawn during cycle `k + 1`. */
  function Expected(instrs: seq<Instr>, spaces: bool): (s: string)
    ensures |s| == Cycles(instrs)
  {
    var during := Trace(instrs).0;
    seq(Cycles(instrs), k requires 0 <= k < Cycles(instrs) => Pixel(k, during[k + 1], spaces))
  }

  /** The reset moves a full row into the image and changes nothing
      else; afterwards the row in progress has room for another pixel. */
  lemma FlushKeeps(c: Crt)
    requires WellFormed(c)
    ensures WellFormed(Flush(c)) && Drawn(Flush(c)) == Drawn(c) && |Flush(c).row| < 40
    ensures Flush(c).counter == c.counter && Flush(c).sprite == c.sprite
  {
    var f := Flush(c);
    if |c.row| == 40 {
      assert c.counter == 40 * (|c.image| + 1);
      assert c.counter % 40 == 0;
    }
    if f != c {
      assert Flatten(f.image) == Flatten(c.image) + c.row by {
        assert f.image[..|f.image| - 1] == c.image;
      }
    }
  }

  lemma DrawAppends(c: Crt, spaces: bool)
    requires WellFormed(c) && |c.row| < 40
    ensures WellFormed(Draw(c, spaces))
    ensures Drawn(Draw(c, spaces)) == Drawn(c) + [Pixel(c.counter, c.sprite, spaces)]
  {
  }

  /** One instruction draws one pixel per cycle with the sprite where it
      was, then an addx moves the sprite. */
  lemma ExecuteDraws(c: Crt, x: Instr, spaces: bool)
    requires WellFormed(c)
    ensures WellFormed(Execute(c, x, spaces))
    ensures Execute(c, x, spaces).counter == c.counter + Length(x)
    ensures Execute(c, x, spaces).sprite == c.sprite + (if x.Addx? then x.v else 0)
    ensures x.Noop? ==> Drawn(Execute(c, x, spaces)) == Drawn(c) + [Pixel(c.counter, c.sprite, spaces)]
    ensures x.Addx? ==> (Drawn(Execute(c, x, spaces)) ==
                           Drawn(c) + [Pixel(c.counter, c.sprite, spaces), Pixel(c.counter + 1, c.sprite, spaces)])
  {
    FlushKeeps(c);
    var c1 := Draw(Flush(c), spaces);
    DrawAppends(Flush(c), spaces);
    FlushKeeps(c1);
    var c2 := Flush(c1);
    if x.Addx? {
      DrawAppends(c2, spaces);
    }
  }

  /** The new pixels an instruction adds to the expected picture. */
  lemma ExpectedStep(instrs: seq<Instr>, spaces: bool)
    requires instrs != []
    ensures var init, x := instrs[..|instrs| - 1], instrs[|instrs| - 1];
            var n, a := Cycles(init), Trace(init).1;
            Expected(instrs, spaces) == Expected(init, spaces) +
              (if x.Noop? then [Pixel(n, a[n], spaces)] else [Pixel(n, a[n], spaces), Pixel(n + 1, a[n], spaces)])
  {
    var init := instrs[..|instrs| - 1];
    var n := Cycles(init);
    var d, d2 := Trace(init).0, Trace(instrs).0;
    assert d2[..n + 1] == d;
  }

  /** The display stays well formed, draws one pixel per cycle, and draws
      exactly the pixels that the register trace predicts. */
  lemma {:induction false} RunCrtDraws(instrs: seq<Instr>, spaces: bool)
    ensures WellFormed(RunCrt(instrs, spaces))
    ensures RunCrt(instrs, spaces).counter == Cycles(instrs)
    ensures RunCrt(instrs, spaces).sprite == Trace(instrs).1[Cycles(instrs)]
    ensures Drawn(RunCrt(instrs, spaces)) == Expected(instrs, spaces)
  {
    if instrs != [] {
      var init, x := instrs[..|instrs| - 1], instrs[|instrs| - 1];
      RunCrtDraws(init, spaces);
      ExecuteDraws(RunCrt(init, spaces), x, spaces);
      ExpectedStep(instrs, spaces);
    }
  }

  /** When the last pixel completes a row and comes from an addx, the reset
      never runs: that full row is missing from the image. */
  lemma PendingRowDropped(instrs: seq<Instr>, spaces: bool)
    requires instrs != [] && instrs[|instrs| - 1].Addx? && Cycles(instrs) % 40 == 0
    ensures |RunCrt(instrs, spaces).row| == 40
    ensures |RunCrt(instrs, spaces).image| == Cycles(instrs) / 40 - 1
  {
    var init := instrs[..|instrs| - 1];
    RunCrtDraws(init, spaces);
    var c := RunCrt(init, spaces);
    FlushKeeps(c);
    var c1 := Draw(Flush(c), spaces);
    DrawAppends(Flush(c), spaces);
    FlushKeeps(c1);
    var c2 := Flush(c1);
    assert c2.row != [] by {
      assert c1.counter % 40 != 0;
    }
    DrawAppends(c2, spaces);
    RunCrtDraws(instrs, spaces);
    var last := RunCrt(instrs, spaces);
    assert |last.row| > 0;
    FullRow(|last.image|, |last.row|);
  }

  lemma FullRow(rows: nat, pending: nat)
    requires 0 < pending <= 40 && (40 * rows + pending) % 40 == 0
    ensures pending == 40 && (40 * rows + pending) / 40 - 1 == rows
  {
  }

  /** Part 2: the rendered image. */
  function Part2(lines: seq<string>, spaces: bool): Result<string>
  {
    var instrs :- Collect(seq(|lines|, k requires 0 <= k < |lines| => ParseForCrt(PyText.Strip(lines[k]))));
    Ok(Render(RunCrt(instrs, spaces).image))
  }
}
