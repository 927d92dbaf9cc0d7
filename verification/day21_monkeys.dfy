/** Yelling monkeys: every monkey either yells a number or combines the
    numbers of two other monkeys with an operator.  Part 1 evaluates the
    tree under `root`; part 2 finds the number `humn` must yell so that
    both sides of `root` agree, by inverting the operators on the way down
    to `humn`.

    Python's `/` gives floats; the model computes with exact rationals
    (`real`), so rounding is not modelled. */
module MonkeyMath {
  import opened Results
  import PyText

  /** The operators `evaluate_operation` tells apart; every other symbol
      divides. */
  datatype Operator = Add | Sub | Mul | Other(symbol: string)

  /** Reading an operator token. */
  function OperatorOf(token: string): (o: Operator)
    ensures o.Other? ==> o.symbol == token && token !in {"+", "-", "*"}
  {
    if token == "+" then Add
    else if token == "-" then Sub
    else if token == "*" then Mul
    else Other(token)
  }

  function Symbol(o: Operator): string
  {
    match o
    case Add => "+"
    case Sub => "-"
    case Mul => "*"
    case Other(s) => s
  }

  /** An operator as `OperatorOf` produces it. */
  predicate Canonical(o: Operator)
  {
    o.Other? ==> o.symbol !in {"+", "-", "*"}
  }

  /** Printing an operator and reading it back gives the operator. */
  lemma OperatorSymbol(o: Operator)
    requires Canonical(o)
    ensures OperatorOf(Symbol(o)) == o
  {
  }

  /** A monkey's job as written on its line. */
  datatype Job = Yell(number: int) | Math(left: string, op: Operator, right: string)

  /** The tree of monkeys hanging under one monkey, each node carrying its
      name. */
  datatype Expr =
    | Leaf(name: string, value: real)
    | Node(name: string, op: Operator, left: Expr, right: Expr)

  /** `get_inverse_operator`: `+` and `-` undo each other, `*` is undone by
      `/`, and every other operator is treated as `/` and undone by `*`. */
  function Inverse(op: Operator): (r: Operator)
    ensures r == Add <==> op == Sub
    ensures r == Sub <==> op == Add
    ensures r == Mul <==> op.Other?
    ensures r.Other? <==> op == Mul
    ensures r.Other? ==> r.symbol == "/"
  {
    match op
    case Add => Sub
    case Sub => Add
    case Mul => Other("/")
    case Other(_) => Mul
  }

  /** On `+`, `-`, `*` and `/`, inverting twice gives the operator back. */
  lemma InverseInvolution(op: Operator)
    requires op.Other? ==> op.symbol == "/"
    ensures Inverse(Inverse(op)) == op
  {
  }

  /** `evaluate_operation`: every operator other than `+`, `-` and `*`
      divides, and dividing by zero raises ZeroDivisionError. */
  function Apply(op: Operator, a: real, b: real): (r: Result<real>)
    ensures r.Err? <==> op.Other? && b == 0.0
    ensures r.Err? ==> r.error == "ZeroDivisionError"
  {
    match op
    case Add => Ok(a + b)
    case Sub => Ok(a - b)
    case Mul => Ok(a * b)
    case Other(_) => if b == 0.0 then Err("ZeroDivisionError") else Ok(a / b)
  }

  /** Applying the inverse operator with the same right operand undoes an
      operation. */
  lemma ApplyUndo(op: Operator, a: real, b: real)
    requires b != 0.0
    ensures Apply(op, a, b).Ok?
    ensures Apply(Inverse(op), Apply(op, a, b).value, b) == Ok(a)
  {
    var n := Apply(op, a, b).value;
    assert Apply(Inverse(op), n, b).Ok? && Apply(Inverse(op), n, b).value == a by {
      if op.Mul? || op.Other? {
        Cancel(a, b);
      }
    }
  }

  /** Multiplying and dividing by the same non-zero number cancel. */
  lemma Cancel(a: real, b: real)
    requires b != 0.0
    ensures (a * b) / b == a && (a / b) * b == a
  {
  }

  /** `get_value`: a leaf's number, or the operator applied to the values of
      the two operands, left first.  The script caches each value; caching
      does not change any value, so the model recomputes. */
  function Eval(e: Expr): (r: Result<real>)
    ensures e.Leaf? ==> r == Ok(e.value)
    ensures r.Err? ==> r.error == "ZeroDivisionError"
  {
    match e
    case Leaf(_, v) => Ok(v)
    case Node(_, op, l, r) =>
      var a :- Eval(l);
      var b :- Eval(r);
      Apply(op, a, b)
  }

  /** The number of monkeys called `humn` in the tree. */
  function Humans(e: Expr): nat
  {
    (if e.name == "humn" then 1 else 0)
    + match e
      case Leaf(_, _) => 0
      case Node(_, _, l, r) => Humans(l) + Humans(r)
  }

  /** `search_for_monkey`: whether `humn` is this monkey, one of its two
      operands, or somewhere below them. */
  function Search(e: Expr): bool
  {
    if e.name == "humn" then true
    else match e
      case Leaf(_, _) => false
      case Node(_, _, l, r) => l.name == "humn" || r.name == "humn" || Search(l) || Search(r)
  }

  /** The search finds `humn` exactly when it is in the tree. */
  lemma {:induction false} SearchFinds(e: Expr)
    ensures Search(e) <==> Humans(e) > 0
  {
    match e
    case Leaf(_, _) =>
    case Node(_, _, l, r) =>
      SearchFinds(l);
      SearchFinds(r);
  }

  /** The tree with every monkey called `humn` yelling `x` instead. */
  function WithHuman(e: Expr, x: real): (r: Expr)
    ensures r.name == e.name
  {
    if e.name == "humn" then Leaf("humn", x)
    else match e
      case Leaf(_, _) => e
      case Node(n, op, l, r) => Node(n, op, WithHuman(l, x), WithHuman(r, x))
  }

  /** A tree without `humn` is not affected by what `humn` yells. */
  lemma {:induction false} WithoutHuman(e: Expr, x: real)
    requires Humans(e) == 0
    ensures WithHuman(e, x) == e
  {
    match e
    case Leaf(_, _) =>
    case Node(_, _, l, r) =>
      WithoutHuman(l, x);
      WithoutHuman(r, x);
  }

  /** `determine_humn_monkey_value` before the final `int()`: the number
      `humn` must yell for `e` to evaluate to `target`.  It reads the
      operator before anything else, so a number monkey other than `humn`
      raises AttributeError; it goes left when `humn` is found there and
      right otherwise. */
  function SolveExact(e: Expr, target: real): (r: Result<real>)
    ensures e.name == "humn" ==> r == Ok(target)
    ensures e.name != "humn" && e.Leaf? ==> r == Err("AttributeError")
  {
    if e.name == "humn" then Ok(target)
    else match e
      case Leaf(_, _) => Err("AttributeError")
      case Node(_, op, l, r) =>
        var inv := Inverse(op);
        if Search(l) then
          var b :- Eval(r);
          var next :- Apply(inv, target, b);
          SolveExact(l, next)
        else if inv == Sub || inv == Other("/") then
          var a :- Eval(l);
          var next :- Apply(inv, target, a);
          SolveExact(r, next)
        else
          var a :- Eval(l);
          var next :- Apply(op, a, target);
          SolveExact(r, next)
  }

  /** `int(x)`: truncation toward zero. */
  function Trunc(x: real): (n: int)
    ensures 0.0 <= x ==> n as real <= x < n as real + 1.0
    ensures x < 0.0 ==> n as real - 1.0 < x <= n as real
  {
    if x >= 0.0 then x.Floor else -((-x).Floor)
  }

  /** The value `determine_humn_monkey_value` returns. */
  function Solve(e: Expr, target: real): (r: Result<int>)
    ensures r.Ok? <==> SolveExact(e, target).Ok?
    ensures r.Ok? ==> r.value == Trunc(SolveExact(e, target).value)
  {
    var x :- SolveExact(e, target);
    Ok(Trunc(x))
  }

  /** Every division on the way down to `humn` has a non-zero operand on
      the other side.  A division by zero there cannot be inverted: the
      solver multiplies by zero and the check evaluation fails. */
  predicate NonZeroPath(e: Expr)
  {
    if e.name == "humn" then true
    else match e
      case Leaf(_, _) => true
      case Node(_, op, l, r) =>
        && (op.Other? && Humans(l) > 0 ==> Eval(r) != Ok(0.0))
        && (op.Other? && Humans(l) == 0 ==> Eval(l) != Ok(0.0))
        && NonZeroPath(l) && NonZeroPath(r)
  }

  /** Soundness of the solver: when `humn` occurs once and no division on
      its path is by zero, `humn` yelling the solved value makes the tree
      evaluate to the target. */
  lemma {:induction false} SolveSound(e: Expr, target: real)
    requires Humans(e) == 1 && NonZeroPath(e)
    requires SolveExact(e, target).Ok?
    ensures Eval(WithHuman(e, SolveExact(e, target).value)) == Ok(target)
  {
    var x := SolveExact(e, target).value;
    if e.name != "humn" {
      match e
      case Node(n, op, l, r) =>
        SearchFinds(l);
        var inv := Inverse(op);
        if Search(l) {
          WithoutHuman(r, x);
          var b := Eval(r).value;
          var next := Apply(inv, target, b).value;
          SolveSound(l, next);
          UndoLeft(op, target, b, next);
        } else {
          WithoutHuman(l, x);
          var a := Eval(l).value;
          if inv == Sub || inv == Other("/") {
            var next := Apply(inv, target, a).value;
            SolveSound(r, next);
            UndoRightInverse(op, a, target, next);
          } else {
            var next := Apply(op, a, target).value;
            SolveSound(r, next);
            UndoRight(op, a, target, next);
          }
        }
    }
  }

  /** One step down the left side: the child's target combined with the
      right value gives the parent's target back. */
  lemma UndoLeft(op: Operator, target: real, b: real, next: real)
    requires op.Other? ==> b != 0.0
    requires Apply(Inverse(op), target, b).Ok? && Apply(Inverse(op), target, b).value == next
    ensures Apply(op, next, b).Ok? && Apply(op, next, b).value == target
  {
    if op.Mul? || op.Other? {
      Cancel(target, b);
    }
  }

  /** One step down the right side of a `+` or a `*`, which commute. */
  lemma UndoRightInverse(op: Operator, a: real, target: real, next: real)
    requires op == Add || op == Mul
    requires Apply(Inverse(op), target, a).Ok? && Apply(Inverse(op), target, a).value == next
    ensures Apply(op, a, next).Ok? && Apply(op, a, next).value == target
  {
    if op == Mul {
      Cancel(target, a);
    }
  }

  /** One step down the right side of a `-` or a division. */
  lemma UndoRight(op: Operator, a: real, target: real, next: real)
    requires op == Sub || op.Other?
    requires op.Other? ==> a != 0.0
    requires Apply(op, a, target).Ok? && Apply(op, a, target).value == next
    ensures Apply(op, a, next).Ok? && Apply(op, a, next).value == target
  {
    if op.Other? {
      Cancel(a, target);
      Cancel(target, next);
    }
  }

  /** The tokens of a monkey's line: `strip()`, the colon dropped, split at
      single spaces. */
  function Tokenize(raw: string): (tokens: seq<string>)
    ensures |tokens| >= 1
  {
    PyText.Split(PyText.Remove(PyText.Strip(raw), ':'), ' ')
  }

  /** A monkey's line: four tokens make an operation and otherwise the
      second token is the number (IndexError when there is none,
      ValueError when it is not one). */
  function ParseLine(raw: string): (r: Result<(string, Job)>)
    ensures r.Ok? ==> r.value.0 == Tokenize(raw)[0]
    ensures |Tokenize(raw)| == 4 ==>
              r == Ok((Tokenize(raw)[0], Math(Tokenize(raw)[1], OperatorOf(Tokenize(raw)[2]), Tokenize(raw)[3])))
    ensures |Tokenize(raw)| < 2 ==> r == Err("IndexError")
    ensures 2 <= |Tokenize(raw)| && |Tokenize(raw)| != 4 ==>
              r == match PyText.ParseInt(Tokenize(raw)[1])
                   case Some(n) => Ok((Tokenize(raw)[0], Yell(n)))
                   case None => Err("ValueError")
    ensures r.Err? ==> r.error in {"IndexError", "ValueError"}
  {
    var tokens := Tokenize(raw);
    if |tokens| == 4 then Ok((tokens[0], Math(tokens[1], OperatorOf(tokens[2]), tokens[3])))
    else if |tokens| < 2 then Err("IndexError")
    else match PyText.ParseInt(tokens[1])
      case None => Err("ValueError")
      case Some(n) => Ok((tokens[0], Yell(n)))
  }

  /** A name or operator that survives the parser: non-empty, without
      colon or whitespace. */
  predicate Word(w: string)
  {
    w != [] && forall i :: 0 <= i < |w| ==> w[i] != ':' && !PyText.IsSpace(w[i])
  }

  /** The line describing one monkey, as the puzzle writes it. */
  function Format(name: string, job: Job): string
  {
    match job
    case Yell(n) => name + ": " + PyText.ShowInt(n)
    case Math(l, op, r) => name + ": " + l + " " + Symbol(op) + " " + r
  }

  /** Reading a formatted line gives back the monkey and its job. */
  lemma ParseFormat(name: string, job: Job)
    requires Word(name)
    requires job.Math? ==> Word(job.left) && Word(Symbol(job.op)) && Canonical(job.op) && Word(job.right)
    ensures ParseLine(Format(name, job)) == Ok((name, job))
  {
    match job {
      case Yell(n) => ParseYell(name, n);
      case Math(l, op, r) => ParseMath(name, l, op, r);
    }
  }

  lemma ParseYell(name: string, n: int)
    requires Word(name)
    ensures ParseLine(Format(name, Yell(n))) == Ok((name, Yell(n)))
  {
    var digits := PyText.ShowInt(n);
    ShowIntWord(n);
    Tokens(name, [digits], Format(name, Yell(n)));
    PyText.ParseShow(n);
  }

  lemma ParseMath(name: string, l: string, op: Operator, r: string)
    requires Word(name) && Word(l) && Word(Symbol(op)) && Canonical(op) && Word(r)
    ensures ParseLine(Format(name, Math(l, op, r))) == Ok((name, Math(l, op, r)))
  {
    var words := [l, Symbol(op), r];
    JoinThree(l, Symbol(op), r);
    Tokens(name, words, Format(name, Math(l, op, r)));
    OperatorSymbol(op);
  }

  lemma JoinThree(a: string, b: string, c: string)
    ensures PyText.Join([a, b, c], ' ') == a + " " + b + " " + c
  {
    var words := [a, b, c];
    assert words[1..] == [b, c] && words[1..][1..] == [c];
    assert PyText.Join([c], ' ') == c;
    assert PyText.Join([b, c], ' ') == b + " " + c;
    assert PyText.Join(words, ' ') == a + " " + (b + " " + c);
  }

  /** The tokens the parser sees on a line `name: w1 w2 ...`. */
  lemma Tokens(name: string, ws: seq<string>, line: string)
    requires Word(name) && |ws| >= 1 && forall k :: 0 <= k < |ws| ==> Word(ws[k])
    requires line == name + ": " + PyText.Join(ws, ' ')
    ensures Tokenize(line) == [name] + ws
  {
    Cleaned(name, ws);
    SplitSpaced(name, ws);
  }

  /** Stripping `name: w1 w2 ...` and dropping its colon. */
  lemma Cleaned(name: string, ws: seq<string>)
    requires Word(name) && |ws| >= 1 && forall k :: 0 <= k < |ws| ==> Word(ws[k])
    ensures PyText.Remove(PyText.Strip(name + ": " + PyText.Join(ws, ' ')), ':')
            == name + " " + PyText.Join(ws, ' ')
  {
    var rest := PyText.Join(ws, ' ');
    JoinWords(ws);
    StripLine(name, rest);
    DropColon(name, rest);
  }

  /** Splitting `name w1 w2 ...` on spaces. */
  lemma SplitSpaced(name: string, ws: seq<string>)
    requires Word(name) && |ws| >= 1 && forall k :: 0 <= k < |ws| ==> Word(ws[k])
    ensures PyText.Split(name + " " + PyText.Join(ws, ' '), ' ') == [name] + ws
  {
    var all := [name] + ws;
    assert all[1..] == ws;
    assert PyText.Join(all, ' ') == name + " " + PyText.Join(ws, ' ');
    forall k | 0 <= k < |all|
      ensures ' ' !in all[k]
    {
      if k == 0 {
        NoSpace(name);
      } else {
        assert all[k] == ws[k - 1];
        NoSpace(ws[k - 1]);
      }
    }
    PyText.SplitJoin(all, ' ');
  }

  /** A line `name: rest` is already stripped. */
  lemma StripLine(name: string, rest: string)
    requires Word(name) && rest != [] && !PyText.IsSpace(rest[|rest| - 1])
    ensures PyText.Strip(name + ": " + rest) == name + ": " + rest
  {
    var line := name + ": " + rest;
    assert line[0] == name[0] && line[|line| - 1] == rest[|rest| - 1];
    PyText.StripUnpadded(line);
  }

  /** Dropping the colon from `name: rest`. */
  lemma DropColon(name: string, rest: string)
    requires Word(name) && forall i :: 0 <= i < |rest| ==> rest[i] != ':'
    ensures PyText.Remove(name + ": " + rest, ':') == name + " " + rest
  {
    PyText.RemoveAbsent(name, ':');
    PyText.RemoveAbsent(rest, ':');
    PyText.RemoveConcat(name, ": ", ':');
    PyText.RemoveConcat(name + ": ", rest, ':');
    assert PyText.Remove(": ", ':') == " " by {
      assert ": "[1..] == " ";
    }
  }

  /** Words joined by single spaces: not empty, no colon, and no
      whitespace at the end. */
  lemma {:induction false} JoinWords(ws: seq<string>)
    requires |ws| >= 1 && forall k :: 0 <= k < |ws| ==> Word(ws[k])
    ensures var s := PyText.Join(ws, ' ');
            s != [] && !PyText.IsSpace(s[|s| - 1]) && forall i :: 0 <= i < |s| ==> s[i] != ':'
    decreases |ws|
  {
    if |ws| > 1 {
      JoinWords(ws[1..]);
      var tail := PyText.Join(ws[1..], ' ');
      var s := ws[0] + " " + tail;
      assert PyText.Join(ws, ' ') == s;
      assert forall i :: 0 <= i < |s| ==>
        s[i] == (if i < |ws[0]| then ws[0][i] else if i == |ws[0]| then ' ' else tail[i - |ws[0]| - 1]);
    }
  }

  /** Printed integers are words. */
  lemma ShowIntWord(n: int)
    ensures Word(PyText.ShowInt(n))
  {
    var s := PyText.ShowInt(n);
    var m: nat := if n < 0 then -n else n;
    var digits := PyText.ShowNat(m);
    assert forall i :: 0 <= i < |digits| ==> PyText.IsDigit(digits[i]);
    if n < 0 {
      assert forall i :: 1 <= i < |s| ==> s[i] == digits[i - 1];
    }
  }

  /** Words contain no space. */
  lemma NoSpace(w: string)
    requires Word(w)
    ensures ' ' !in w
  {
    assert PyText.IsSpace(' ');
  }


  /** The monkey list built from the parsed lines in order. */
  function Table(entries: seq<(string, Job)>): map<string, Job>
    decreases |entries|
  {
    if entries == [] then map[]
    else
      var e := entries[|entries| - 1];
      Table(entries[..|entries| - 1])[e.0 := e.1]
  }

  /** Every parsed monkey is in the list, and nothing else is. */
  lemma {:induction false} TableKeys(entries: seq<(string, Job)>)
    ensures Table(entries).Keys == set i | 0 <= i < |entries| :: entries[i].0
    decreases |entries|
  {
    if entries != [] {
      var front := entries[..|entries| - 1];
      TableKeys(front);
      assert forall i :: 0 <= i < |front| ==> entries[i] == front[i];
      var all := set i | 0 <= i < |entries| :: entries[i].0;
      var earlier := set i | 0 <= i < |front| :: front[i].0;
      assert all == earlier + {entries[|entries| - 1].0};
    }
  }

  /** A later line for the same monkey replaces the earlier one: each
      monkey has the job of its last line. */
  lemma {:induction false} TableLast(entries: seq<(string, Job)>, i: int)
    requires 0 <= i < |entries| && Last(entries, i)
    ensures entries[i].0 in Table(entries) && Table(entries)[entries[i].0] == entries[i].1
    decreases |entries|
  {
    if i < |entries| - 1 {
      var front := entries[..|entries| - 1];
      assert front[i] == entries[i];
      assert Last(front, i);
      TableLast(front, i);
    }
  }

  /** No later entry names the same monkey as entry `i`. */
  predicate Last(entries: seq<(string, Job)>, i: int)
    requires 0 <= i < |entries|
  {
    forall j :: i < j < |entries| ==> entries[j].0 != entries[i].0
  }

  /** Parsing every line; the first bad line's error is raised. */
  function ParseAll(lines: seq<string>): (r: Result<map<string, Job>>)
  {
    var entries :- Collect(seq(|lines|, i requires 0 <= i < |lines| => ParseLine(lines[i])));
    Ok(Table(entries))
  }

  /** `set_operators`: every operation monkey's operands must be monkeys of
      the list (KeyError otherwise). */
  predicate Linked(jobs: map<string, Job>)
  {
    forall name :: name in jobs && jobs[name].Math? ==>
      jobs[name].left in jobs && jobs[name].right in jobs
  }

  /** `get_value` on the monkey list, left operand first; `fuel` bounds the
      recursion depth (RecursionError). */
  function Value(jobs: map<string, Job>, name: string, fuel: nat): (r: Result<real>)
    ensures r.Err? ==> r.error in {"KeyError", "RecursionError", "ZeroDivisionError"}
    decreases fuel
  {
    if fuel == 0 then Err("RecursionError")
    else if name !in jobs then Err("KeyError")
    else match jobs[name]
      case Yell(n) => Ok(n as real)
      case Math(l, op, r) =>
        var a :- Value(jobs, l, fuel - 1);
        var b :- Value(jobs, r, fuel - 1);
        Apply(op, a, b)
  }

  /** The tree of monkeys under `name`. */
  function Tree(jobs: map<string, Job>, name: string, fuel: nat): (r: Result<Expr>)
    ensures r.Ok? ==> r.value.name == name
    decreases fuel
  {
    if fuel == 0 then Err("RecursionError")
    else if name !in jobs then Err("KeyError")
    else match jobs[name]
      case Yell(n) => Ok(Leaf(name, n as real))
      case Math(l, op, r) =>
        var left :- Tree(jobs, l, fuel - 1);
        var right :- Tree(jobs, r, fuel - 1);
        Ok(Node(name, op, left, right))
  }

  /** A monkey list that yields a value also yields a tree, and the tree
      evaluates to that value. */
  lemma {:induction false} ValueIsTree(jobs: map<string, Job>, name: string, fuel: nat)
    requires Value(jobs, name, fuel).Ok?
    ensures Tree(jobs, name, fuel).Ok?
    ensures Eval(Tree(jobs, name, fuel).value) == Value(jobs, name, fuel)
    decreases fuel
  {
    match jobs[name]
    case Yell(_) =>
    case Math(l, op, r) =>
      ValueIsTree(jobs, l, fuel - 1);
      ValueIsTree(jobs, r, fuel - 1);
  }

  /** The whole script: parse, link, evaluate `root` (KeyError when there
      is none) and, for part 1, truncate its value. */
  function Part1(lines: seq<string>, fuel: nat): (r: Result<int>)
    ensures r.Ok? ==> ParseAll(lines).Ok? && Linked(ParseAll(lines).value)
                      && Value(ParseAll(lines).value, "root", fuel).Ok?
                      && r.value == Trunc(Value(ParseAll(lines).value, "root", fuel).value)
  {
    var jobs :- ParseAll(lines);
    if !Linked(jobs) then Err("KeyError")
    else
      var v :- Value(jobs, "root", fuel);
      Ok(Trunc(v))
  }

  /** Part 2: after the same evaluation, the side of `root` holding `humn`
      is solved for the value of the other side.  A `root` that yells a
      number has no operands (AttributeError). */
  function Part2(lines: seq<string>, fuel: nat): (r: Result<int>)
    ensures r.Ok? ==> ParseAll(lines).Ok? && Linked(ParseAll(lines).value)
                      && Value(ParseAll(lines).value, "root", fuel).Ok?
    ensures r.Ok? ==> Tree(ParseAll(lines).value, "root", fuel).Ok?
                      && r == Balance(Tree(ParseAll(lines).value, "root", fuel).value)
  {
    var jobs :- ParseAll(lines);
    if !Linked(jobs) then Err("KeyError")
    else
      var _ :- Value(jobs, "root", fuel);
      var root :- Tree(jobs, "root", fuel);
      Balance(root)
  }

  /** The part 1 answer is the truncated value of the tree under `root`. */
  lemma Part1IsTree(lines: seq<string>, fuel: nat)
    requires Part1(lines, fuel).Ok?
    ensures Tree(ParseAll(lines).value, "root", fuel).Ok?
    ensures Eval(Tree(ParseAll(lines).value, "root", fuel).value).Ok?
    ensures Part1(lines, fuel).value == Trunc(Eval(Tree(ParseAll(lines).value, "root", fuel).value).value)
  {
    ValueIsTree(ParseAll(lines).value, "root", fuel);
  }

  /** The number `humn` must yell for the equality test under `root`: the
      side where `humn` is found takes the other side's value as its
      target. */
  function BalanceExact(root: Expr): (r: Result<real>)
    ensures root.Leaf? ==> r == Err("AttributeError")
    ensures root.Node? && Search(root.left) && Eval(root.right).Ok? ==>
              r == SolveExact(root.left, Eval(root.right).value)
    ensures root.Node? && !Search(root.left) && Eval(root.left).Ok? ==>
              r == SolveExact(root.right, Eval(root.left).value)
  {
    match root
    case Leaf(_, _) => Err("AttributeError")
    case Node(_, _, l, r) =>
      if Search(l) then
        var target :- Eval(r);
        SolveExact(l, target)
      else
        var target :- Eval(l);
        SolveExact(r, target)
  }

  /** The printed answer: the solver's value, truncated where it reaches
      `humn`.  A `root` that yells a number has no operands
      (AttributeError). */
  function Balance(root: Expr): (r: Result<int>)
    ensures r.Ok? <==> BalanceExact(root).Ok?
    ensures r.Ok? ==> r.value == Trunc(BalanceExact(root).value)
  {
    match root
    case Leaf(_, _) => Err("AttributeError")
    case Node(_, _, l, r) =>
      if Search(l) then
        var target :- Eval(r);
        Solve(l, target)
      else
        var target :- Eval(l);
        Solve(r, target)
  }

  /** With `humn` occurring once below `root` and no zero divisor on its
      path, `humn` yelling the solved value makes the two sides of `root`
      equal. */
  lemma BalanceSound(root: Expr)
    requires root.Node? && root.name != "humn" && Humans(root) == 1
    requires NonZeroPath(root.left) && NonZeroPath(root.right)
    requires BalanceExact(root).Ok?
    ensures var balanced := WithHuman(root, BalanceExact(root).value);
            Eval(balanced.left).Ok? && Eval(balanced.left) == Eval(balanced.right)
  {
    var x := BalanceExact(root).value;
    SearchFinds(root.left);
    if Search(root.left) {
      WithoutHuman(root.right, x);
      SolveSound(root.left, Eval(root.right).value);
    } else {
      WithoutHuman(root.left, x);
      SolveSound(root.right, Eval(root.left).value);
    }
  }

  /** When the solved value is whole, it is the printed answer. */
  lemma BalanceWhole(root: Expr)
    requires BalanceExact(root).Ok?
    requires BalanceExact(root).value == BalanceExact(root).value.Floor as real
    ensures Balance(root) == Ok(BalanceExact(root).value.Floor)
  {
  }

  /** The printed part 2 answer is right: when `humn` occurs once under
      `root`, no division on its path is by zero and the solved value is
      whole, `humn` yelling the printed number makes both sides of `root`
      equal. */
  lemma Part2Sound(lines: seq<string>, fuel: nat)
    requires Part2(lines, fuel).Ok?
    requires var root := Tree(ParseAll(lines).value, "root", fuel).value;
             root.Node? && Humans(root) == 1 && NonZeroPath(root.left) && NonZeroPath(root.right)
             && BalanceExact(root).value == BalanceExact(root).value.Floor as real
    ensures var root := Tree(ParseAll(lines).value, "root", fuel).value;
            var balanced := WithHuman(root, Part2(lines, fuel).value as real);
            Eval(balanced.left).Ok? && Eval(balanced.left) == Eval(balanced.right)
  {
    var root := Tree(ParseAll(lines).value, "root", fuel).value;
    BalanceWhole(root);
    BalanceSound(root);
  }
}
