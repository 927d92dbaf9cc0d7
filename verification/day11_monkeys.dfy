/** Day 11: monkeys pass items around; each inspection changes the item's
    worry level, and a divisibility test picks the monkey it is thrown to.
    Two scripts play the game: the part-1 script keeps plain integers, the
    combined script keeps worry levels modulo the product of the divisors
    when the level is not divided by three. */
module MonkeyInTheMiddle {
  import opened Results
  import opened Seqs
  import PySlice
  import PyText
  import opened WorryLevels
  import Iteration

  /** Which script plays: the part-1 script on plain integers, or the
      combined script whose items keep only their remainder. */
  datatype Script = Plain | Tracked

  /** A monkey: its queue of items, its operation (`*` multiplies, any
      other operator adds), its test divisor, where it throws, and how
      many items it has inspected so far. */
  datatype Monkey = Monkey(items: seq<int>, multiply: bool, operand: Operand,
                           dividend: int, ifTrue: int, ifFalse: int,
                           inspections: nat)

  /** What one inspection produces: the new worry level, the monkey it is
      thrown to, and the inspecting monkey afterwards. */
  datatype Thrown = Thrown(worry: int, target: int, monkey: Monkey)

  /** The puzzle's operation on unbounded integers: `new = old * x` or
      `new = old + x`, where `x` is a number or the old value itself. */
  function Operation(m: Monkey, level: int): int
  {
    var x := if m.operand.Num? then m.operand.n else level;
    if m.multiply then level * x else level + x
  }

  /** The operation as each script performs it: the combined script's
      item class cannot add an item to itself. */
  function Apply(script: Script, m: Monkey, worry: int): (r: Result<int>)
    ensures r.Ok? <==> script.Plain? || m.multiply || m.operand.Num?
    ensures r.Ok? ==> r.value == Operation(m, worry)
  {
    if m.multiply then Ok(Mul(worry, m.operand))
    else if script.Plain? then
      Ok(worry + (if m.operand.Num? then m.operand.n else worry))
    else Add(worry, m.operand)
  }

  /** `examine_next_item`: the front item is taken off the queue, operated
      on, counted, then either divided by three (rounding down) or, in the
      combined script, reduced; its divisibility picks the target. */
  function Examine(m: Monkey, decrease: bool, script: Script): (r: Result<Thrown>)
    requires m.items != []
    ensures r.Ok? <==> Apply(script, m, m.items[0]).Ok? && m.dividend != 0
    ensures r.Ok? ==> r.value.monkey == m.(items := m.items[1..], inspections := m.inspections + 1)
    ensures r.Ok? && decrease ==>
              3 * r.value.worry <= Operation(m, m.items[0]) < 3 * r.value.worry + 3
    ensures r.Ok? && !decrease && script.Plain? ==>
              r.value.worry == Operation(m, m.items[0])
    ensures r.Ok? && !decrease && script.Tracked? ==>
              Congruent(r.value.worry, Operation(m, m.items[0])) && r.value.worry < Modulus()
    ensures r.Ok? ==>
              r.value.target == if r.value.worry % m.dividend == 0 then m.ifTrue else m.ifFalse
  {
    var operated :- Apply(script, m, m.items[0]);
    var kept := if !decrease && script.Tracked? then Reduce(operated) else operated;
    var worry := if decrease then kept / 3 else kept;
    ReduceCongruent(operated);
    var test :- DivTest(worry, m.dividend);
    Ok(Thrown(worry, if test then m.ifTrue else m.ifFalse,
              m.(items := m.items[1..], inspections := m.inspections + 1)))
  }

  /** The number of items each monkey holds, and all of them together. */
  function Holdings(ms: seq<Monkey>): (r: seq<int>)
    ensures |r| == |ms|
    ensures forall k :: 0 <= k < |ms| ==> r[k] == |ms[k].items|
  {
    seq(|ms|, k requires 0 <= k < |ms| => |ms[k].items|)
  }

  function TotalItems(ms: seq<Monkey>): int
  {
    Sum(Holdings(ms))
  }

  /** `[monkey.num_inspections for monkey in self.monkeys]` */
  function Inspections(ms: seq<Monkey>): (r: seq<int>)
    ensures |r| == |ms|
    ensures forall k :: 0 <= k < |ms| ==> r[k] == ms[k].inspections
  {
    if ms == [] then []
    else
      var rest := Inspections(ms[1..]);
      assert forall k :: 1 <= k < |ms| ==> ms[k] == ms[1..][k - 1];
      [ms[0].inspections] + rest
  }

  /** A monkey without its items and its count: what never changes. */
  function Rules(m: Monkey): Monkey
  {
    m.(items := [], inspections := 0)
  }

  ghost predicate SameRules(a: seq<Monkey>, b: seq<Monkey>)
  {
    |a| == |b| && forall k :: 0 <= k < |a| ==> Rules(a[k]) == Rules(b[k])
  }

  /** Appending an item to the queue of the monkey at `target`
      (`self.monkeys[throw_to].items_with_worry_level.append(...)`);
      an index outside the list raises IndexError. */
  function Catch(ms: seq<Monkey>, target: int, worry: int): (r: Result<seq<Monkey>>)
    ensures r.Ok? <==> PySlice.Index(|ms|, target).Some?
    ensures r.Ok? ==> |r.value| == |ms|
    ensures r.Ok? ==> forall k :: 0 <= k < |ms| ==>
              r.value[k] == if Some(k) == PySlice.Index(|ms|, target)
                            then ms[k].(items := ms[k].items + [worry]) else ms[k]
  {
    match PySlice.Index(|ms|, target)
    case None => Err("IndexError")
    case Some(t) => Ok(ms[t := ms[t].(items := ms[t].items + [worry])])
  }

  /** One inspection by monkey `i` and the throw that follows it; popping
      from an empty queue raises IndexError. */
  function Step(ms: seq<Monkey>, i: nat, decrease: bool, script: Script): (r: Result<seq<Monkey>>)
    ensures r.Ok? ==> i < |ms| && ms[i].items != []
    ensures r.Ok? ==> |r.value| == |ms| && |r.value[i].items| >= |ms[i].items| - 1
  {
    if i >= |ms| || ms[i].items == [] then Err("IndexError")
    else
      var thrown :- Examine(ms[i], decrease, script);
      var next :- Catch(ms[i := thrown.monkey], thrown.target, thrown.worry);
      StepFacts(ms, i, thrown, next);
      Ok(next)
  }

  /** Monkey `i`'s inspections as a step of its turn. */
  function TurnStep(i: nat, decrease: bool, script: Script): (step: seq<Monkey> -> Result<seq<Monkey>>)
    ensures forall ms :: step(ms) == Step(ms, i, decrease, script)
  {
    ms => Step(ms, i, decrease, script)
  }

  /** The last `count` inspections of monkey `i`'s turn. */
  function TurnSteps(ms: seq<Monkey>, i: nat, count: nat, decrease: bool, script: Script): Result<seq<Monkey>>
  {
    Iteration.Repeat(ms, count, TurnStep(i, decrease, script))
  }

  /** Inspections during a turn keep every monkey's rules and the number
      of items in play; monkey `i` inspects `count` items and nobody else
      inspects; when monkey `i` never throws to itself, it is left with
      the items it has not inspected yet, in their order. */
  lemma {:induction false} TurnStepsKeep(ms: seq<Monkey>, i: nat, count: nat, decrease: bool, script: Script)
    requires i < |ms| && count <= |ms[i].items|
    requires TurnSteps(ms, i, count, decrease, script).Ok?
    ensures var r := TurnSteps(ms, i, count, decrease, script).value;
            SameRules(ms, r) && TotalItems(r) == TotalItems(ms)
    ensures var r := TurnSteps(ms, i, count, decrease, script).value;
            r[i].inspections == ms[i].inspections + count &&
            forall k :: 0 <= k < |ms| && k != i ==> r[k].inspections == ms[k].inspections
    ensures var r := TurnSteps(ms, i, count, decrease, script).value;
            PySlice.Index(|ms|, ms[i].ifTrue) != Some(i) && PySlice.Index(|ms|, ms[i].ifFalse) != Some(i) ==>
              r[i].items == ms[i].items[count..]
    decreases count
  {
    if count == 0 {
      assert TurnSteps(ms, i, count, decrease, script) == Ok(ms);
    } else {
      var next := Step(ms, i, decrease, script).value;
      StepKeeps(ms, i, decrease, script);
      TurnStepsKeep(next, i, count - 1, decrease, script);
      var r := TurnSteps(next, i, count - 1, decrease, script).value;
      assert TurnSteps(ms, i, count, decrease, script) == Ok(r);
      SameRulesTransitive(ms, next, r);
      if PySlice.Index(|ms|, ms[i].ifTrue) != Some(i) && PySlice.Index(|ms|, ms[i].ifFalse) != Some(i) {
        assert Rules(next[i]) == Rules(ms[i]);
        assert ms[i].items[1..][count - 1..] == ms[i].items[count..];
      }
    }
  }

  /** What one inspection and throw do to the monkeys. */
  lemma StepKeeps(ms: seq<Monkey>, i: nat, decrease: bool, script: Script)
    requires Step(ms, i, decrease, script).Ok?
    ensures var next := Step(ms, i, decrease, script).value;
            SameRules(ms, next) && TotalItems(next) == TotalItems(ms) &&
            next[i].inspections == ms[i].inspections + 1 &&
            (forall k :: 0 <= k < |ms| && k != i ==> next[k].inspections == ms[k].inspections)
    ensures var next := Step(ms, i, decrease, script).value;
            PySlice.Index(|ms|, ms[i].ifTrue) != Some(i) && PySlice.Index(|ms|, ms[i].ifFalse) != Some(i) ==>
              next[i].items == ms[i].items[1..]
  {
    var thrown := Examine(ms[i], decrease, script).value;
    var next := Catch(ms[i := thrown.monkey], thrown.target, thrown.worry).value;
    StepFacts(ms, i, thrown, next);
  }

  /** The effect of popping monkey `i`'s front item and appending a level
      to the queue of the target. */
  lemma StepFacts(ms: seq<Monkey>, i: nat, thrown: Thrown, next: seq<Monkey>)
    requires i < |ms| && ms[i].items != []
    requires thrown.monkey == ms[i].(items := ms[i].items[1..], inspections := ms[i].inspections + 1)
    requires Catch(ms[i := thrown.monkey], thrown.target, thrown.worry) == Ok(next)
    ensures SameRules(ms, next)
    ensures TotalItems(next) == TotalItems(ms)
    ensures next[i].inspections == ms[i].inspections + 1
    ensures forall k :: 0 <= k < |ms| && k != i ==> next[k].inspections == ms[k].inspections
    ensures |next[i].items| >= |ms[i].items| - 1
    ensures PySlice.Index(|ms|, thrown.target) != Some(i) ==> next[i].items == ms[i].items[1..]
  {
    var popped := ms[i := thrown.monkey];
    var t := PySlice.Index(|ms|, thrown.target).value;
    assert Holdings(popped) == Holdings(ms)[i := |ms[i].items| - 1];
    SumUpdate(Holdings(ms), i, |ms[i].items| - 1);
    assert Holdings(next) == Holdings(popped)[t := |popped[t].items| + 1];
    SumUpdate(Holdings(popped), t, |popped[t].items| + 1);
  }

  /** One monkey's turn: it inspects as many items as it held when the
      turn began; items it throws to itself wait for its next turn. */
  function Turn(ms: seq<Monkey>, i: nat, decrease: bool, script: Script): (r: Result<seq<Monkey>>)
    requires i < |ms|
    ensures r.Ok? ==> |r.value| == |ms|
  {
    var r := TurnSteps(ms, i, |ms[i].items|, decrease, script);
    assert r.Ok? ==> |r.value| == |ms| by {
      if r.Ok? {
        TurnStepsKeep(ms, i, |ms[i].items|, decrease, script);
      }
    }
    r
  }

  /** The turns of monkeys `i`, `i + 1`, ... of a round.  The combined
      script computes the monkey business before every turn, which raises
      IndexError with fewer than two monkeys. */
  function RoundFrom(ms: seq<Monkey>, i: nat, decrease: bool, script: Script): (r: Result<seq<Monkey>>)
    requires i <= |ms|
    ensures r.Ok? ==> |r.value| == |ms|
    ensures script.Tracked? && i < |ms| < 2 ==> r == Err("IndexError")
    decreases |ms| - i
  {
    if i == |ms| then Ok(ms)
    else if script.Tracked? && |ms| < 2 then Err("IndexError")
    else
      var next :- Turn(ms, i, decrease, script);
      RoundFrom(next, i + 1, decrease, script)
  }

  /** The rest of a round keeps the rules and the number of items in play;
      counts never decrease, and monkeys whose turn is over keep theirs. */
  lemma {:induction false} RoundFromKeeps(ms: seq<Monkey>, i: nat, decrease: bool, script: Script)
    requires i <= |ms| && RoundFrom(ms, i, decrease, script).Ok?
    ensures var r := RoundFrom(ms, i, decrease, script).value;
            SameRules(ms, r) && TotalItems(r) == TotalItems(ms)
    ensures var r := RoundFrom(ms, i, decrease, script).value;
            forall k :: 0 <= k < |ms| ==> r[k].inspections >= ms[k].inspections
    ensures var r := RoundFrom(ms, i, decrease, script).value;
            forall k :: 0 <= k < i ==> r[k].inspections == ms[k].inspections
    decreases |ms| - i
  {
    if i == |ms| {
      assert RoundFrom(ms, i, decrease, script) == Ok(ms);
    } else {
      var next := Turn(ms, i, decrease, script).value;
      TurnStepsKeep(ms, i, |ms[i].items|, decrease, script);
      RoundFromKeeps(next, i + 1, decrease, script);
      var r := RoundFrom(next, i + 1, decrease, script).value;
      assert RoundFrom(ms, i, decrease, script) == Ok(r);
      SameRulesTransitive(ms, next, r);
    }
  }

  /** A round: every monkey takes its turn, in order. */
  function Round(ms: seq<Monkey>, decrease: bool, script: Script): (r: Result<seq<Monkey>>)
    ensures r.Ok? ==> |r.value| == |ms|
  {
    RoundFrom(ms, 0, decrease, script)
  }

  /** One round as a step of the game. */
  function RoundStep(decrease: bool, script: Script): (step: seq<Monkey> -> Result<seq<Monkey>>)
    ensures forall ms :: step(ms) == Round(ms, decrease, script)
  {
    ms => Round(ms, decrease, script)
  }

  /** `play`: the monkeys after `rounds` rounds, with the inspection counts
      recorded after every round. */
  function Play(ms: seq<Monkey>, rounds: nat, decrease: bool, script: Script)
    : (r: Result<(seq<Monkey>, seq<seq<int>>)>)
    ensures r.Ok? ==> |r.value.1| == rounds
  {
    Iteration.Iterate(ms, rounds, RoundStep(decrease, script), Inspections)
  }

  lemma SameRulesTransitive(a: seq<Monkey>, b: seq<Monkey>, c: seq<Monkey>)
    requires SameRules(a, b) && SameRules(b, c)
    ensures SameRules(a, c)
  {
    forall k | 0 <= k < |a|
      ensures Rules(a[k]) == Rules(c[k])
    {
      assert Rules(a[k]) == Rules(b[k]);
    }
  }

  /** `b` is a later state of the game than `a`: the same rules, the same
      number of items, and no count smaller. */
  ghost predicate Later(a: seq<Monkey>, b: seq<Monkey>)
  {
    SameRules(a, b) && TotalItems(a) == TotalItems(b) &&
    forall k :: 0 <= k < |a| ==> a[k].inspections <= b[k].inspections
  }

  lemma LaterPreorder()
    ensures forall a :: Later(a, a)
    ensures forall a, b, c :: Later(a, b) && Later(b, c) ==> Later(a, c)
  {
    forall a, b, c | Later(a, b) && Later(b, c)
      ensures Later(a, c)
    {
      SameRulesTransitive(a, b, c);
    }
  }

  lemma RoundIsLater(decrease: bool, script: Script)
    ensures forall ms :: RoundStep(decrease, script)(ms).Ok? ==>
              Later(ms, RoundStep(decrease, script)(ms).value)
  {
    forall ms | Round(ms, decrease, script).Ok?
      ensures Later(ms, Round(ms, decrease, script).value)
    {
      RoundFromKeeps(ms, 0, decrease, script);
    }
  }

  /** Playing keeps every monkey's rules and the number of items; the
      recorded counts have one entry per monkey, the last row is the final
      count, and every row lies between the starting and the final
      counts. */
  lemma PlayHistory(ms: seq<Monkey>, rounds: nat, decrease: bool, script: Script,
                    final: seq<Monkey>, history: seq<seq<int>>)
    requires Play(ms, rounds, decrease, script) == Ok((final, history))
    ensures |history| == rounds && |final| == |ms|
    ensures SameRules(ms, final) && TotalItems(final) == TotalItems(ms)
    ensures forall n :: 0 <= n < rounds ==> |history[n]| == |ms|
    ensures forall n, k :: 0 <= n < rounds && 0 <= k < |ms| ==>
              ms[k].inspections <= history[n][k] <= final[k].inspections
    ensures forall k :: 0 <= k < |ms| ==> ms[k].inspections <= final[k].inspections
    ensures rounds > 0 ==> history[rounds - 1] == Inspections(final)
  {
    var before := (a, b) => Later(a, b);
    LaterPreorder();
    RoundIsLater(decrease, script);
    Iteration.Progress(ms, rounds, RoundStep(decrease, script), Inspections, before);
    forall n | 0 <= n < rounds
      ensures |history[n]| == |ms|
      ensures forall k :: 0 <= k < |ms| ==> ms[k].inspections <= history[n][k] <= final[k].inspections
    {
      var m :| before(ms, m) && before(m, final) && history[n] == Inspections(m);
    }
  }

  /** `get_monkey_business`: the two largest inspection counts multiplied;
      fewer than two monkeys raise IndexError. */
  function MonkeyBusiness(ms: seq<Monkey>): (r: Result<int>)
    ensures r.Ok? <==> |ms| >= 2
  {
    var sorted := SortDescending(Inspections(ms));
    if |sorted| < 2 then Err("IndexError") else Ok(sorted[0] * sorted[1])
  }

  /** Two different positions of `a` reappear at two different positions
      of any permutation `b` of it. */
  lemma TwoOccurrences(a: seq<int>, b: seq<int>, i: nat, j: nat) returns (p: nat, q: nat)
    requires multiset(a) == multiset(b)
    requires i < |a| && j < |a| && i != j
    ensures p < |b| && q < |b| && p != q
    ensures b[p] == a[i] && b[q] == a[j]
  {
    assert a[i] in multiset(b);
    p :| 0 <= p < |b| && b[p] == a[i];
    q := OtherOccurrence(a, b, i, j, p);
  }

  lemma OtherOccurrence(a: seq<int>, b: seq<int>, i: nat, j: nat, p: nat) returns (q: nat)
    requires multiset(a) == multiset(b)
    requires i < |a| && j < |a| && i != j
    requires p < |b| && b[p] == a[i]
    ensures q < |b| && q != p && b[q] == a[j]
  {
    if a[j] != a[i] {
      assert a[j] in multiset(b);
      q :| 0 <= q < |b| && b[q] == a[j];
    } else {
      var restB := RemoveAt(b, p);
      assert a[j] in multiset(restB) by {
        AnotherCopy(a, i, j);
      }
      var q' :| 0 <= q' < |restB| && restB[q'] == a[j];
      if q' < p {
        q := q';
      } else {
        q := q' + 1;
      }
    }
  }

  lemma MulMono(a: int, b: int, c: int, d: int)
    requires 0 <= a <= c && 0 <= b <= d
    ensures a * b <= c * d
  {
    assert a * b <= c * b;
    assert c * b <= c * d;
  }

  /** The monkey business is the largest product of the counts of two
      different monkeys, and some pair attains it. */
  lemma MonkeyBusinessIsBest(ms: seq<Monkey>)
    requires |ms| >= 2
    ensures MonkeyBusiness(ms).Ok?
    ensures forall i, j :: 0 <= i < |ms| && 0 <= j < |ms| && i != j ==>
              ms[i].inspections * ms[j].inspections <= MonkeyBusiness(ms).value
    ensures exists i, j :: 0 <= i < |ms| && 0 <= j < |ms| && i != j &&
              ms[i].inspections * ms[j].inspections == MonkeyBusiness(ms).value
  {
    var counts := Inspections(ms);
    var sorted := SortDescending(counts);
    forall i, j | 0 <= i < |ms| && 0 <= j < |ms| && i != j
      ensures ms[i].inspections * ms[j].inspections <= sorted[0] * sorted[1]
    {
      var p, q := TwoOccurrences(counts, sorted, i, j);
      var hi := if p < q then p else q;
      var lo := if p < q then q else p;
      assert sorted[lo] <= sorted[1] && sorted[hi] <= sorted[0];
      assert sorted[lo] >= 0 && sorted[hi] >= 0;
      MulMono(sorted[hi], sorted[lo], sorted[0], sorted[1]);
      assert counts[i] * counts[j] == sorted[hi] * sorted[lo];
    }
    var i, j := TwoOccurrences(sorted, counts, 0, 1);
    assert ms[i].inspections * ms[j].inspections == sorted[0] * sorted[1];
  }

  /** The monkeys of the combined script hold congruent stand-ins for the
      items of the plain game, in the same places. */
  ghost predicate MonkeyTracks(t: Monkey, p: Monkey)
  {
    Rules(t) == Rules(p) && t.inspections == p.inspections && |t.items| == |p.items| &&
    forall j :: 0 <= j < |t.items| ==> Congruent(t.items[j], p.items[j])
  }

  /** Monkey by monkey, the combined script's monkeys track the plain
      game's. */
  ghost predicate Tracks(t: seq<Monkey>, p: seq<Monkey>)
    decreases |t|
  {
    |t| == |p| && (t == [] || (MonkeyTracks(t[0], p[0]) && Tracks(t[1..], p[1..])))
  }

  lemma {:induction false} TracksAll(t: seq<Monkey>, p: seq<Monkey>)
    ensures Tracks(t, p) <==> |t| == |p| && forall k :: 0 <= k < |t| ==> MonkeyTracks(t[k], p[k])
    decreases |t|
  {
    if t != [] && |t| == |p| {
      TracksAll(t[1..], p[1..]);
      assert forall k :: 1 <= k < |t| ==> t[k] == t[1..][k - 1] && p[k] == p[1..][k - 1];
    }
  }

  /** The situation the combined script is built for: no monkey adds an
      item to itself, and every test divisor divides the modulus. */
  ghost predicate Reducible(ms: seq<Monkey>)
  {
    forall k :: 0 <= k < |ms| ==>
      (ms[k].multiply || ms[k].operand.Num?) &&
      ms[k].dividend != 0 && Modulus() % ms[k].dividend == 0
  }

  lemma TracksReflexive(ms: seq<Monkey>)
    ensures Tracks(ms, ms)
  {
    forall k, j | 0 <= k < |ms| && 0 <= j < |ms[k].items|
      ensures Congruent(ms[k].items[j], ms[k].items[j])
    {
      CongruentReflexive(ms[k].items[j]);
    }
    TracksAll(ms, ms);
  }

  lemma ReducibleKept(a: seq<Monkey>, b: seq<Monkey>)
    requires Reducible(a) && SameRules(a, b)
    ensures Reducible(b)
  {
    forall k | 0 <= k < |b|
      ensures (b[k].multiply || b[k].operand.Num?) &&
              b[k].dividend != 0 && Modulus() % b[k].dividend == 0
    {
      assert Rules(a[k]) == Rules(b[k]);
    }
  }

  /** The operation keeps congruent levels congruent. */
  lemma OperationCongruent(m: Monkey, a: int, b: int)
    requires Congruent(a, b) && (m.multiply || m.operand.Num?)
    ensures Congruent(Operation(m, a), Operation(m, b))
  {
    if m.multiply {
      MulCongruent(a, b, m.operand);
    } else {
      AddCongruent(a, b, m.operand);
    }
  }

  /** One inspection without dividing by three: the combined script
      throws a congruent item to the same monkey as the plain game. */
  lemma {:induction false} ExamineTracks(t: Monkey, p: Monkey)
    requires MonkeyTracks(t, p) && t.items != []
    requires (t.multiply || t.operand.Num?) && t.dividend != 0 && Modulus() % t.dividend == 0
    ensures Examine(t, false, Tracked).Ok? && Examine(p, false, Plain).Ok?
    ensures Examine(t, false, Tracked).value.target == Examine(p, false, Plain).value.target
    ensures Congruent(Examine(t, false, Tracked).value.worry, Examine(p, false, Plain).value.worry)
    ensures MonkeyTracks(Examine(t, false, Tracked).value.monkey, Examine(p, false, Plain).value.monkey)
  {
    assert Rules(t) == Rules(p);
    var et := Examine(t, false, Tracked).value;
    var ep := Examine(p, false, Plain).value;
    OperationCongruent(t, t.items[0], p.items[0]);
    assert Operation(t, p.items[0]) == Operation(p, p.items[0]);
    CongruentTransitive(et.worry, Operation(t, t.items[0]), ep.worry);
    CongruentTests(et.worry, ep.worry, t.dividend);
    assert forall j :: 0 <= j < |et.monkey.items| ==> et.monkey.items[j] == t.items[j + 1];
    assert forall j :: 0 <= j < |ep.monkey.items| ==> ep.monkey.items[j] == p.items[j + 1];
  }

  /** Appending congruent items keeps the tracking. */
  lemma AppendTracks(t: Monkey, p: Monkey, a: int, b: int)
    requires MonkeyTracks(t, p) && Congruent(a, b)
    ensures MonkeyTracks(t.(items := t.items + [a]), p.(items := p.items + [b]))
  {
  }

  /** One inspection and throw of monkey `i` in both games. */
  lemma StepTracks(t: seq<Monkey>, p: seq<Monkey>, i: nat)
    requires Tracks(t, p) && Reducible(t) && i < |t|
    ensures Step(t, i, false, Tracked).Ok? == Step(p, i, false, Plain).Ok?
    ensures Step(t, i, false, Tracked).Ok? ==>
              var nt := Step(t, i, false, Tracked).value;
              Tracks(nt, Step(p, i, false, Plain).value) && Reducible(nt)
  {
    TracksAll(t, p);
    if t[i].items == [] {
      assert Step(t, i, false, Tracked).Err? && Step(p, i, false, Plain).Err?;
    } else {
      ExamineTracks(t[i], p[i]);
      var et := Examine(t[i], false, Tracked).value;
      var ep := Examine(p[i], false, Plain).value;
      var ct := Catch(t[i := et.monkey], et.target, et.worry);
      var cp := Catch(p[i := ep.monkey], ep.target, ep.worry);
      assert Step(t, i, false, Tracked) == ct;
      assert Step(p, i, false, Plain) == cp;
      if ct.Ok? {
        forall k | 0 <= k < |t|
          ensures MonkeyTracks(ct.value[k], cp.value[k])
        {
          assert MonkeyTracks(t[i := et.monkey][k], p[i := ep.monkey][k]);
          if Some(k) == PySlice.Index(|t|, et.target) {
            AppendTracks(t[i := et.monkey][k], p[i := ep.monkey][k], et.worry, ep.worry);
          }
        }
        TracksAll(ct.value, cp.value);
        StepFacts(t, i, et, ct.value);
        ReducibleKept(t, ct.value);
      }
    }
  }

  /** The rest of monkey `i`'s turn in both games. */
  lemma TurnStepsTrack(t: seq<Monkey>, p: seq<Monkey>, i: nat, count: nat)
    requires Tracks(t, p) && Reducible(t) && i < |t|
    ensures TurnSteps(t, i, count, false, Tracked).Ok? == TurnSteps(p, i, count, false, Plain).Ok?
    ensures TurnSteps(t, i, count, false, Tracked).Ok? ==>
              Tracks(TurnSteps(t, i, count, false, Tracked).value, TurnSteps(p, i, count, false, Plain).value)
  {
    var related := (x, y) => Tracks(x, y) && Reducible(x) && i < |x|;
    var stepT := TurnStep(i, false, Tracked);
    var stepP := TurnStep(i, false, Plain);
    forall x, y | related(x, y)
      ensures stepT(x).Ok? == stepP(y).Ok?
      ensures stepT(x).Ok? ==> related(stepT(x).value, stepP(y).value)
    {
      StepTracks(x, y, i);
    }
    Iteration.RepeatSimulation(t, p, count, stepT, stepP, related);
  }

  lemma {:induction false} RoundFromTracks(t: seq<Monkey>, p: seq<Monkey>, i: nat)
    requires Tracks(t, p) && Reducible(t) && i <= |t| && |t| >= 2
    ensures RoundFrom(t, i, false, Tracked).Ok? == RoundFrom(p, i, false, Plain).Ok?
    ensures RoundFrom(t, i, false, Tracked).Ok? ==>
              Tracks(RoundFrom(t, i, false, Tracked).value, RoundFrom(p, i, false, Plain).value)
    decreases |t| - i
  {
    if i < |t| {
      TracksAll(t, p);
      TurnStepsTrack(t, p, i, |t[i].items|);
      var nt := Turn(t, i, false, Tracked);
      if nt.Ok? {
        TurnStepsKeep(t, i, |t[i].items|, false, Tracked);
        ReducibleKept(t, nt.value);
        RoundFromTracks(nt.value, Turn(p, i, false, Plain).value, i + 1);
      }
    }
  }

  lemma TracksInspections(t: seq<Monkey>, p: seq<Monkey>)
    requires Tracks(t, p)
    ensures Inspections(t) == Inspections(p)
  {
    TracksAll(t, p);
  }

  lemma RoundTracks(t: seq<Monkey>, p: seq<Monkey>)
    requires Tracks(t, p) && Reducible(t) && |t| >= 2
    ensures Round(t, false, Tracked).Ok? == Round(p, false, Plain).Ok?
    ensures Round(t, false, Tracked).Ok? ==>
              var nt := Round(t, false, Tracked).value;
              Tracks(nt, Round(p, false, Plain).value) && Reducible(nt) && |nt| >= 2 &&
              Inspections(nt) == Inspections(Round(p, false, Plain).value)
  {
    RoundFromTracks(t, p, 0);
    if Round(t, false, Tracked).Ok? {
      RoundFromKeeps(t, 0, false, Tracked);
      ReducibleKept(t, Round(t, false, Tracked).value);
      TracksInspections(Round(t, false, Tracked).value, Round(p, false, Plain).value);
    }
  }

  /** The combined script's state shadows the plain game's. */
  ghost predicate Shadows(t: seq<Monkey>, p: seq<Monkey>)
  {
    Tracks(t, p) && Reducible(t) && |t| >= 2
  }

  /** Keeping only remainders changes nothing observable: when no monkey
      adds an item to itself and every divisor divides the modulus, the
      combined script without division by three fails exactly when the
      plain game does, records the same inspection counts, and reports
      the same monkey business. */
  lemma TrackedMatchesPlain(ms: seq<Monkey>, rounds: nat)
    requires Reducible(ms) && |ms| >= 2
    ensures Play(ms, rounds, false, Tracked).Ok? == Play(ms, rounds, false, Plain).Ok?
    ensures Play(ms, rounds, false, Tracked).Ok? ==>
              Play(ms, rounds, false, Tracked).value.1 == Play(ms, rounds, false, Plain).value.1 &&
              MonkeyBusiness(Play(ms, rounds, false, Tracked).value.0)
                == MonkeyBusiness(Play(ms, rounds, false, Plain).value.0)
  {
    var related := (t, p) => Shadows(t, p);
    var stepT := RoundStep(false, Tracked);
    var stepP := RoundStep(false, Plain);
    forall t, p | related(t, p)
      ensures stepT(t).Ok? == stepP(p).Ok?
      ensures stepT(t).Ok? ==> related(stepT(t).value, stepP(p).value) &&
                               Inspections(stepT(t).value) == Inspections(stepP(p).value)
    {
      RoundTracks(t, p);
    }
    TracksReflexive(ms);
    Iteration.Simulation(ms, ms, rounds, stepT, stepP, Inspections, related);
    var r := Play(ms, rounds, false, Tracked);
    if r.Ok? {
      TracksInspections(r.value.0, Play(ms, rounds, false, Plain).value.0);
    }
  }

  /** No monkey adds an item to itself. */
  ghost predicate NoSelfAddition(ms: seq<Monkey>)
  {
    forall k :: 0 <= k < |ms| ==> ms[k].multiply || ms[k].operand.Num?
  }

  lemma NoSelfAdditionKept(a: seq<Monkey>, b: seq<Monkey>)
    requires NoSelfAddition(a) && SameRules(a, b)
    ensures NoSelfAddition(b)
  {
    forall k | 0 <= k < |b|
      ensures b[k].multiply || b[k].operand.Num?
    {
      assert Rules(a[k]) == Rules(b[k]);
    }
  }

  /** With division by three both scripts play the same game, as long as
      no monkey adds an item to itself. */
  lemma DecreasingScriptsAgree(ms: seq<Monkey>, rounds: nat)
    requires |ms| >= 2 && NoSelfAddition(ms)
    ensures Play(ms, rounds, true, Tracked) == Play(ms, rounds, true, Plain)
  {
    var holds := m => |m| >= 2 && NoSelfAddition(m);
    var stepT := RoundStep(true, Tracked);
    forall m | holds(m)
      ensures stepT(m) == RoundStep(true, Plain)(m)
      ensures stepT(m).Ok? ==> holds(stepT(m).value)
    {
      RoundsAgree(m, 0);
      if stepT(m).Ok? {
        RoundFromKeeps(m, 0, true, Tracked);
        NoSelfAdditionKept(m, stepT(m).value);
      }
    }
    Iteration.Agreement(ms, rounds, stepT, RoundStep(true, Plain), Inspections, holds);
  }

  lemma {:induction false} RoundsAgree(ms: seq<Monkey>, i: nat)
    requires |ms| >= 2 && i <= |ms| && NoSelfAddition(ms)
    ensures RoundFrom(ms, i, true, Tracked) == RoundFrom(ms, i, true, Plain)
    decreases |ms| - i
  {
    if i < |ms| {
      TurnsAgree(ms, i, |ms[i].items|);
      var next := Turn(ms, i, true, Tracked);
      if next.Ok? {
        TurnStepsKeep(ms, i, |ms[i].items|, true, Tracked);
        NoSelfAdditionKept(ms, next.value);
        RoundsAgree(next.value, i + 1);
      }
    }
  }

  lemma TurnsAgree(ms: seq<Monkey>, i: nat, count: nat)
    requires NoSelfAddition(ms)
    ensures TurnSteps(ms, i, count, true, Tracked) == TurnSteps(ms, i, count, true, Plain)
  {
    var stepT := TurnStep(i, true, Tracked);
    forall m: seq<Monkey> | NoSelfAddition(m)
      ensures stepT(m) == TurnStep(i, true, Plain)(m)
      ensures stepT(m).Ok? ==> NoSelfAddition(stepT(m).value)
    {
      if i < |m| && m[i].items != [] {
        assert Examine(m[i], true, Tracked) == Examine(m[i], true, Plain);
      }
      if stepT(m).Ok? {
        StepKeeps(m, i, true, Tracked);
        NoSelfAdditionKept(m, stepT(m).value);
      }
    }
    Iteration.RepeatAgreement(ms, count, stepT, TurnStep(i, true, Plain), (m: seq<Monkey>) => NoSelfAddition(m));
  }

  /** Line `k` of the input, or IndexError. */
  function Line(lines: seq<string>, k: nat): (r: Result<string>)
    ensures r.Ok? <==> k < |lines|
    ensures r.Ok? ==> r.value == lines[k]
  {
    if k < |lines| then Ok(lines[k]) else Err("IndexError")
  }

  /** `int(token)`, or ValueError. */
  function Int(token: string): (r: Result<int>)
    ensures r.Ok? <==> PyText.ParseInt(token).Some?
    ensures r.Ok? ==> r.value == PyText.ParseInt(token).value
  {
    match PyText.ParseInt(token)
    case None => Err("ValueError")
    case Some(n) => Ok(n)
  }

  /** The integer after the last space of a line. */
  function LastInt(line: string): Result<int>
  {
    LastTokenInt(PyText.Split(line, ' '))
  }

  /** `int(tokens[-1])`. */
  function LastTokenInt(tokens: seq<string>): Result<int>
    requires |tokens| >= 1
  {
    Int(tokens[|tokens| - 1])
  }

  /** The words of the items line after the first two, commas removed. */
  function ItemTokens(line: string): seq<string>
  {
    PySlice.From(PyText.Split(PyText.Remove(line, ','), ' '), 2)
  }

  /** The starting items: the integers of the item tokens, or ValueError
      at the first token that is not one. */
  function StartingItems(line: string): (r: Result<seq<int>>)
    ensures r.Ok? <==> forall k :: 0 <= k < |ItemTokens(line)| ==> PyText.ParseInt(ItemTokens(line)[k]).Some?
    ensures r.Ok? ==> (|r.value| == |ItemTokens(line)| &&
              forall k :: 0 <= k < |ItemTokens(line)| ==> PyText.ParseInt(ItemTokens(line)[k]) == Some(r.value[k]))
  {
    Ints(ItemTokens(line))
  }

  /** `[int(t) for t in tokens]`: the first token that is not an integer
      raises ValueError. */
  function Ints(tokens: seq<string>): (r: Result<seq<int>>)
    ensures r.Ok? <==> forall k :: 0 <= k < |tokens| ==> PyText.ParseInt(tokens[k]).Some?
    ensures r.Ok? ==> (|r.value| == |tokens| &&
              forall k :: 0 <= k < |tokens| ==> PyText.ParseInt(tokens[k]) == Some(r.value[k]))
  {
    var rs := seq(|tokens|, k requires 0 <= k < |tokens| => Int(tokens[k]));
    assert forall k :: 0 <= k < |tokens| ==> (rs[k].Ok? <==> PyText.ParseInt(tokens[k]).Some?);
    Collect(rs)
  }

  /** The last two tokens of the operation line, the operator and the
      operand text; a line of fewer than two tokens cannot be unpacked
      into two names (ValueError). */
  function OperationTokens(line: string): (r: Result<(string, string)>)
    ensures var tokens := PyText.Split(line, ' ');
            (r.Ok? <==> |tokens| >= 2)
            && (r.Ok? ==> r.value == (tokens[|tokens| - 2], tokens[|tokens| - 1]))
  {
    LastTwo(PyText.Split(line, ' '))
  }

  /** `a, b = tokens[-2:]`: unpacking fewer than two tokens raises
      ValueError. */
  function LastTwo(tokens: seq<string>): (r: Result<(string, string)>)
    ensures r.Ok? <==> |tokens| >= 2
    ensures r.Ok? ==> r.value == (tokens[|tokens| - 2], tokens[|tokens| - 1])
  {
    var last := PySlice.From(tokens, -2);
    if |last| != 2 then Err("ValueError") else Ok((last[0], last[1]))
  }

  /** The operand as the monkey's constructor stores it: `old` stays a
      name, anything else goes through `int` (ValueError). */
  function ReadOperand(token: string): (r: Result<Operand>)
    ensures r == Ok(Old) <==> token == "old"
    ensures r.Err? <==> token != "old" && PyText.ParseInt(token).None?
    ensures r.Ok? && r.value.Num? ==> PyText.ParseInt(token) == Some(r.value.n)
  {
    if token == "old" then Ok(Old)
    else
      var n :- Int(token);
      Ok(Num(n))
  }

  /** The operation line: its last two tokens are the operator and the
      operand, `old` or an integer. */
  function ParseOperation(line: string): (r: Result<(bool, Operand)>)
    ensures var tokens := PySlice.From(PyText.Split(line, ' '), -2);
            r.Ok? ==> (|tokens| == 2 && r.value.0 == (tokens[0] == "*") &&
              (r.value.1.Old? <==> tokens[1] == "old"))
    ensures var tokens := PySlice.From(PyText.Split(line, ' '), -2);
            r.Ok? && r.value.1.Num? ==> PyText.ParseInt(tokens[1]) == Some(r.value.1.n)
  {
    var tokens :- OperationTokens(line);
    var operand :- ReadOperand(tokens.1);
    Ok((tokens.0 == "*", operand))
  }

  /** The monkey described by the six lines from `start + 1` on.  As in
      the script, the operand text is only turned into an integer by the
      monkey's constructor, after the three lines that follow it have been
      read. */
  function ParseMonkey(lines: seq<string>, start: nat): (r: Result<Monkey>)
    ensures r.Ok? <==> start + 5 < |lines| && StartingItems(lines[start + 1]).Ok?
                       && ParseOperation(lines[start + 2]).Ok? && LastInt(lines[start + 3]).Ok?
                       && LastInt(lines[start + 4]).Ok? && LastInt(lines[start + 5]).Ok?
    ensures r.Ok? ==> r.value.inspections == 0
    ensures r.Ok? ==> StartingItems(lines[start + 1]) == Ok(r.value.items)
    ensures r.Ok? ==> ParseOperation(lines[start + 2]) == Ok((r.value.multiply, r.value.operand))
    ensures r.Ok? ==> LastInt(lines[start + 3]) == Ok(r.value.dividend)
    ensures r.Ok? ==> LastInt(lines[start + 4]) == Ok(r.value.ifTrue)
    ensures r.Ok? ==> LastInt(lines[start + 5]) == Ok(r.value.ifFalse)
    ensures (|lines| == start + 3 && StartingItems(lines[start + 1]).Ok?
             && OperationTokens(lines[start + 2]).Ok?) ==> r == Err("IndexError")
  {
    var itemsLine :- Line(lines, start + 1);
    var items :- StartingItems(itemsLine);
    var operationLine :- Line(lines, start + 2);
    var operation :- OperationTokens(operationLine);
    var testLine :- Line(lines, start + 3);
    var dividend :- LastInt(testLine);
    var trueLine :- Line(lines, start + 4);
    var ifTrue :- LastInt(trueLine);
    var falseLine :- Line(lines, start + 5);
    var ifFalse :- LastInt(falseLine);
    var operand :- ReadOperand(operation.1);
    Ok(Monkey(items, operation.0 == "*", operand, dividend, ifTrue, ifFalse, 0))
  }

  /** One monkey per block of seven lines. */
  function ParseMonkeys(lines: seq<string>): (r: Result<seq<Monkey>>)
    ensures r.Ok? <==> forall k :: 0 <= k < |Blocks(lines)| ==> Blocks(lines)[k].Ok?
    ensures r.Ok? ==> |r.value| * 7 >= |lines| > (|r.value| - 1) * 7
    ensures r.Ok? ==> forall k :: 0 <= k < |r.value| ==> ParseMonkey(lines, 7 * k) == Ok(r.value[k])
    ensures r.Err? ==> exists k :: 0 <= k < |Blocks(lines)| && Blocks(lines)[k] == Err(r.error) &&
                                   forall j :: 0 <= j < k ==> Blocks(lines)[j].Ok?
  {
    Collect(Blocks(lines))
  }

  /** The reading of every block of seven lines, the last one possibly
      short. */
  function Blocks(lines: seq<string>): (rs: seq<Result<Monkey>>)
    ensures |rs| == (|lines| + 6) / 7
    ensures forall k :: 0 <= k < |rs| ==> rs[k] == ParseMonkey(lines, 7 * k)
  {
    var count := (|lines| + 6) / 7;
    seq(count, k requires 0 <= k < count => ParseMonkey(lines, 7 * k))
  }

  /** The text of a number holds no space or comma, and is not `old`. */
  lemma NumberText(n: int)
    ensures ' ' !in PyText.ShowInt(n) && ',' !in PyText.ShowInt(n)
    ensures PyText.ShowInt(n) != "old"
  {
    PyText.ShowIntChars(n);
  }

  /** The words of an items line: every number but the last carries a comma. */
  function ItemWords(items: seq<int>): (ws: seq<string>)
    ensures |ws| == |items|
  {
    seq(|items|, k requires 0 <= k < |items| =>
      PyText.ShowInt(items[k]) + (if k + 1 < |items| then "," else ""))
  }

  /** `Starting items: 79, 98`, as the puzzle writes it. */
  function ItemsLine(items: seq<int>): string
  {
    PyText.Join(["Starting", "items:"] + ItemWords(items), ' ')
  }

  /** The written numbers, without commas. */
  function Shown(items: seq<int>): (ws: seq<string>)
    ensures |ws| == |items|
  {
    seq(|items|, k requires 0 <= k < |items| => PyText.ShowInt(items[k]))
  }

  /** A written items line reads back as its items. */
  lemma ParseItemsLine(items: seq<int>)
    ensures StartingItems(ItemsLine(items)) == Ok(items)
  {
    var line := ItemsLine(items);
    var plain := ["Starting", "items:"] + Shown(items);
    assert PyText.Split(PyText.Remove(line, ','), ' ') == plain by {
      ItemsLineCommas(items);
      forall k | 0 <= k < |plain|
        ensures ' ' !in plain[k]
      {
        if k >= 2 {
          NumberText(items[k - 2]);
        }
      }
      PyText.SplitJoin(plain, ' ');
    }
    assert ItemTokens(line) == Shown(items) by {
      assert plain[2..] == Shown(items);
    }
    IntsShown(items);
  }

  /** Dropping the commas of an items line leaves the numbers separated by
      single spaces. */
  lemma ItemsLineCommas(items: seq<int>)
    ensures PyText.Remove(ItemsLine(items), ',') == PyText.Join(["Starting", "items:"] + Shown(items), ' ')
  {
    var words := ["Starting", "items:"] + ItemWords(items);
    var plain := ["Starting", "items:"] + Shown(items);
    forall k | 0 <= k < |words|
      ensures PyText.Remove(words[k], ',') == plain[k]
    {
      if k >= 2 {
        assert words[k] == ItemWords(items)[k - 2] && plain[k] == Shown(items)[k - 2];
        WordCommas(items[k - 2], k - 1 < |items|);
      } else {
        PyText.RemoveAbsent(words[k], ',');
      }
    }
    PyText.RemoveJoin(words, plain, ' ', ',');
  }

  /** Dropping the comma after a written number leaves the number. */
  lemma WordCommas(n: int, comma: bool)
    ensures PyText.Remove(PyText.ShowInt(n) + (if comma then "," else ""), ',') == PyText.ShowInt(n)
  {
    NumberText(n);
    PyText.RemoveAbsent(PyText.ShowInt(n), ',');
    PyText.RemoveConcat(PyText.ShowInt(n), if comma then "," else "", ',');
    assert PyText.Remove(",", ',') == [] by {
      assert ","[1..] == [];
    }
  }

  /** The written numbers read back as the numbers. */
  lemma IntsShown(items: seq<int>)
    ensures Ints(Shown(items)) == Ok(items)
  {
    var shown := Shown(items);
    forall k | 0 <= k < |shown|
      ensures PyText.ParseInt(shown[k]) == Some(items[k])
    {
      PyText.ParseShow(items[k]);
    }
    assert Ints(shown).value == items;
  }

  /** The text of an operand: `old`, or the number. */
  function OperandText(operand: Operand): string
  {
    match operand
    case Old => "old"
    case Num(n) => PyText.ShowInt(n)
  }

  /** `Operation: new = old * 19`, as the puzzle writes it. */
  function OperationLine(multiply: bool, operand: Operand): string
  {
    PyText.Join(["Operation:", "new", "=", "old", if multiply then "*" else "+", OperandText(operand)], ' ')
  }

  /** A written operation line reads back as its operator and operand. */
  lemma ParseOperationLine(multiply: bool, operand: Operand)
    ensures ParseOperation(OperationLine(multiply, operand)) == Ok((multiply, operand))
  {
    var words := ["Operation:", "new", "=", "old", if multiply then "*" else "+", OperandText(operand)];
    assert OperationTokens(OperationLine(multiply, operand)) == Ok((words[4], words[5])) by {
      if operand.Num? {
        NumberText(operand.n);
      }
      assert forall k :: 0 <= k < |words| ==> ' ' !in words[k];
      PyText.SplitJoin(words, ' ');
    }
    if operand.Num? {
      NumberText(operand.n);
      PyText.ParseShow(operand.n);
    }
  }

  /** `int` reads a written number back. */
  lemma IntShow(n: int)
    ensures Int(PyText.ShowInt(n)) == Ok(n)
  {
    PyText.ParseShow(n);
  }

  /** A line ending in a space and a written number ends in that number. */
  lemma ParseLastNumber(prefix: string, n: int)
    ensures LastInt(prefix + " " + PyText.ShowInt(n)) == Ok(n)
  {
    var line := prefix + " " + PyText.ShowInt(n);
    assert PyText.Split(line, ' ') == PyText.Split(prefix, ' ') + [PyText.ShowInt(n)] by {
      NumberText(n);
      PyText.SplitLast(prefix, PyText.ShowInt(n), ' ');
    }
    IntShow(n);
    ParseLastToken(line, PyText.Split(prefix, ' ') + [PyText.ShowInt(n)], n);
  }

  /** A line whose last space-separated token reads as `n` ends in `n`. */
  lemma ParseLastToken(line: string, tokens: seq<string>, n: int)
    requires PyText.Split(line, ' ') == tokens
    requires |tokens| >= 1 && Int(tokens[|tokens| - 1]) == Ok(n)
    ensures LastInt(line) == Ok(n)
  {
  }

  /** The seven lines describing monkey `k`, the last one blank. */
  function Block(k: int, m: Monkey): (b: seq<string>)
    ensures |b| == 7
  {
    ["Monkey " + PyText.ShowInt(k) + ":",
     ItemsLine(m.items),
     OperationLine(m.multiply, m.operand),
     "Test: divisible by" + " " + PyText.ShowInt(m.dividend),
     "If true: throw to monkey" + " " + PyText.ShowInt(m.ifTrue),
     "If false: throw to monkey" + " " + PyText.ShowInt(m.ifFalse),
     ""]
  }

  /** The puzzle input describing the monkeys, one block each. */
  function Render(ms: seq<Monkey>): (lines: seq<string>)
    ensures |lines| == 7 * |ms|
  {
    Sevens(seq(|ms|, k requires 0 <= k < |ms| => Block(k, ms[k])))
  }

  /** Blocks of seven placed one after the other. */
  function Sevens<T>(blocks: seq<seq<T>>): (s: seq<T>)
    requires forall k :: 0 <= k < |blocks| ==> |blocks[k]| == 7
    ensures |s| == 7 * |blocks|
  {
    seq(7 * |blocks|, i requires 0 <= i < 7 * |blocks| => blocks[i / 7][i % 7])
  }

  /** Element `7k + j` of blocks of seven is element `j` of block `k`. */
  lemma SevensIndex<T>(blocks: seq<seq<T>>, k: nat, j: nat)
    requires forall k :: 0 <= k < |blocks| ==> |blocks[k]| == 7
    requires k < |blocks| && j < 7
    ensures 7 * k + j < |Sevens(blocks)| && Sevens(blocks)[7 * k + j] == blocks[k][j]
  {
    var i := 7 * k + j;
    assert i / 7 == k && i % 7 == j;
  }

  /** The lines of a block read back as its monkey, which has inspected
      nothing yet. */
  lemma ParseBlock(lines: seq<string>, start: nat, k: int, m: Monkey)
    requires start + 5 < |lines| && m.inspections == 0
    requires forall j :: 1 <= j < 6 ==> lines[start + j] == Block(k, m)[j]
    ensures ParseMonkey(lines, start) == Ok(m)
  {
    var b := Block(k, m);
    assert lines[start + 1] == b[1] && lines[start + 2] == b[2] && lines[start + 3] == b[3]
           && lines[start + 4] == b[4] && lines[start + 5] == b[5];
    assert StartingItems(lines[start + 1]) == Ok(m.items) by {
      ParseItemsLine(m.items);
    }
    assert ParseOperation(lines[start + 2]) == Ok((m.multiply, m.operand)) by {
      ParseOperationLine(m.multiply, m.operand);
    }
    assert LastInt(lines[start + 3]) == Ok(m.dividend) by {
      ParseLastNumber("Test: divisible by", m.dividend);
    }
    assert LastInt(lines[start + 4]) == Ok(m.ifTrue) by {
      ParseLastNumber("If true: throw to monkey", m.ifTrue);
    }
    assert LastInt(lines[start + 5]) == Ok(m.ifFalse) by {
      ParseLastNumber("If false: throw to monkey", m.ifFalse);
    }
    ParseFields(lines, start, m);
  }

  /** Lines whose fields read back as those of `m` describe `m`. */
  lemma ParseFields(lines: seq<string>, start: nat, m: Monkey)
    requires start + 5 < |lines| && m.inspections == 0
    requires StartingItems(lines[start + 1]) == Ok(m.items)
    requires ParseOperation(lines[start + 2]) == Ok((m.multiply, m.operand))
    requires LastInt(lines[start + 3]) == Ok(m.dividend)
    requires LastInt(lines[start + 4]) == Ok(m.ifTrue)
    requires LastInt(lines[start + 5]) == Ok(m.ifFalse)
    ensures ParseMonkey(lines, start) == Ok(m)
  {
  }

  /** Written monkeys that have inspected nothing read back as themselves. */
  lemma ParseRender(ms: seq<Monkey>)
    requires forall k :: 0 <= k < |ms| ==> ms[k].inspections == 0
    ensures ParseMonkeys(Render(ms)) == Ok(ms)
  {
    forall k | 0 <= k < |ms|
      ensures ParseMonkey(Render(ms), 7 * k) == Ok(ms[k])
    {
      ParseRenderAt(ms, k);
    }
    ParseEveryBlock(Render(ms), ms);
  }

  /** The block of monkey `k` in the written input reads back as it. */
  lemma ParseRenderAt(ms: seq<Monkey>, k: nat)
    requires k < |ms| && ms[k].inspections == 0
    ensures ParseMonkey(Render(ms), 7 * k) == Ok(ms[k])
  {
    var lines := Render(ms);
    forall j | 1 <= j < 6
      ensures lines[7 * k + j] == Block(k, ms[k])[j]
    {
      RenderLine(ms, k, j);
    }
    ParseBlock(lines, 7 * k, k, ms[k]);
  }

  /** Lines whose every block of seven reads back as the matching monkey
      read back as the monkeys. */
  lemma ParseEveryBlock(lines: seq<string>, ms: seq<Monkey>)
    requires |lines| == 7 * |ms|
    requires forall k :: 0 <= k < |ms| ==> ParseMonkey(lines, 7 * k) == Ok(ms[k])
    ensures ParseMonkeys(lines) == Ok(ms)
  {
    CollectOk(Blocks(lines), ms);
  }

  /** Line `7k + j` of the written input is line `j` of the block of monkey `k`. */
  lemma RenderLine(ms: seq<Monkey>, k: nat, j: nat)
    requires k < |ms| && j < 7
    ensures 7 * k + j < |Render(ms)| && Render(ms)[7 * k + j] == Block(k, ms[k])[j]
  {
    var blocks := seq(|ms|, k requires 0 <= k < |ms| => Block(k, ms[k]));
    SevensIndex(blocks, k, j);
  }

  /** Steps that all succeed collect to their values. */
  lemma CollectOk<T>(rs: seq<Result<T>>, vs: seq<T>)
    requires |rs| == |vs| && forall k :: 0 <= k < |rs| ==> rs[k] == Ok(vs[k])
    ensures Collect(rs) == Ok(vs)
  {
    assert Collect(rs).value == vs;
  }

  /** The printed answer: 20 rounds dividing by three, or with `--part-2`
      10000 rounds keeping remainders. */
  function Answer(lines: seq<string>, part2: bool, script: Script): Result<int>
  {
    var monkeys :- ParseMonkeys(seq(|lines|, k requires 0 <= k < |lines| => PyText.Strip(lines[k])));
    var played :- Play(monkeys, if part2 then 10000 else 20, !part2, script);
    MonkeyBusiness(played.0)
  }
}
