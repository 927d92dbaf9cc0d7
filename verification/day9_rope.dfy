/** Day 9: a rope of knots on the integer plane.  The head moves one cell
    at a time; every other knot follows its parent whenever the two stop
    touching, and the answer is the number of cells the tail visited. */
module RopeBridge {
  import opened Results
  import PyText
  import opened Seqs

  type Pos = (int, int)


  function Sign(a: int): int
  {
    if a < 0 then -1 else if a > 0 then 1 else 0
  }

  /** Two knots touch when they are at most one cell apart on each axis. */
  function Chebyshev(dx: int, dy: int): nat
  {
    if Abs(dx) >= Abs(dy) then Abs(dx) else Abs(dy)
  }

  /** The four orthogonal neighbours of the offset. */
  function Kernel4(dx: int, dy: int): set<Pos>
  {
    {(dx, dy + 1), (dx, dy - 1), (dx - 1, dy), (dx + 1, dy)}
  }

  /** The 3x3 block centred on the offset. */
  function Kernel8(dx: int, dy: int): set<Pos>
  {
    {(dx - 1, dy - 1), (dx - 1, dy), (dx - 1, dy + 1),
     (dx, dy - 1), (dx, dy), (dx, dy + 1),
     (dx + 1, dy - 1), (dx + 1, dy), (dx + 1, dy + 1)}
  }

  /** `a.intersection(b)` */
  function Intersection(a: set<Pos>, b: set<Pos>): (r: set<Pos>)
    ensures forall p :: p in r <==> p in a && p in b
  {
    set p | p in a && p in b
  }

  /** `get_connection_kernel`: '4' and '8' connectivity, anything else
      raises NotImplementedError. */
  function ConnectionKernel(connectivity: string, dx: int, dy: int): (r: Result<set<Pos>>)
    ensures r.Ok? <==> connectivity == "4" || connectivity == "8"
    ensures connectivity == "4" ==> r == Ok(Kernel4(dx, dy))
    ensures connectivity == "8" ==> r == Ok(Kernel8(dx, dy))
  {
    if connectivity == "4" then Ok(Kernel4(dx, dy))
    else if connectivity == "8" then Ok(Kernel8(dx, dy))
    else Err("NotImplementedError")
  }

  /** The kernels contain what their names say. */
  lemma KernelMembership(dx: int, dy: int, p: Pos)
    ensures p in Kernel4(dx, dy) <==> Abs(p.0 - dx) + Abs(p.1 - dy) == 1
    ensures p in Kernel8(dx, dy) <==> Chebyshev(p.0 - dx, p.1 - dy) <= 1
  {
  }

  lemma SingletonUnique(s: set<Pos>)
    requires |s| == 1
    ensures forall p, q :: p in s && q in s ==> p == q
  {
    forall p, q | p in s && q in s ensures p == q {
      assert |s - {p}| == 0;
      assert q in s - {p} || q == p;
    }
  }

  /** `list(intersection)[0]` for a one-element set. */
  function Only(s: set<Pos>): (p: Pos)
    requires |s| == 1
    ensures p in s
  {
    SingletonUnique(s);
    var p :| p in s; p
  }

  /** The step a following knot takes, given its parent's offset: none while
      they touch; otherwise the cell next to the knot that is orthogonally
      next to the parent, or failing that diagonally next to it.  The
      script asserts that exactly one such cell exists. */
  function Follow(dx: int, dy: int): (r: Result<Pos>)
    ensures Chebyshev(dx, dy) <= 1 ==> r == Ok((0, 0))
  {
    if Abs(dx) <= 1 && Abs(dy) <= 1 then Ok((0, 0))
    else
      var near := Intersection(Kernel4(dx, dy), Kernel8(0, 0));
      var both := if |near| == 0 then Intersection(Kernel8(dx, dy), Kernel8(0, 0)) else near;
      if |both| != 1 then Err("AssertionError") else Ok(Only(both))
  }

  /** A parent at most two cells away on each axis leaves exactly one
      candidate: one step towards the parent on each axis where they
      differ. */
  lemma FollowStep(dx: int, dy: int)
    requires Chebyshev(dx, dy) == 2
    ensures Follow(dx, dy) == Ok((Sign(dx), Sign(dy)))
  {
    if Abs(dx) == 2 && Abs(dy) == 2 {
      FollowDiagonal(dx, dy);
    } else {
      FollowStraight(dx, dy);
    }
  }

  /** A parent two cells away on both axes: no orthogonal neighbour of it
      touches the knot, and exactly one diagonal one does. */
  lemma FollowDiagonal(dx: int, dy: int)
    requires Abs(dx) == 2 && Abs(dy) == 2
    ensures Intersection(Kernel4(dx, dy), Kernel8(0, 0)) == {}
    ensures Intersection(Kernel8(dx, dy), Kernel8(0, 0)) == {(Sign(dx), Sign(dy))}
  {
    var s := (Sign(dx), Sign(dy));
    var near := Intersection(Kernel4(dx, dy), Kernel8(0, 0));
    forall p | p in near ensures false {
      KernelMembership(dx, dy, p);
      KernelMembership(0, 0, p);
    }
    var far := Intersection(Kernel8(dx, dy), Kernel8(0, 0));
    forall p | p in far ensures p == s {
      KernelMembership(dx, dy, p);
      KernelMembership(0, 0, p);
    }
    KernelMembership(dx, dy, s);
    KernelMembership(0, 0, s);
  }

  /** A parent two cells away on one axis only: exactly one orthogonal
      neighbour of it touches the knot. */
  lemma FollowStraight(dx: int, dy: int)
    requires Chebyshev(dx, dy) == 2 && !(Abs(dx) == 2 && Abs(dy) == 2)
    ensures Intersection(Kernel4(dx, dy), Kernel8(0, 0)) == {(Sign(dx), Sign(dy))}
  {
    var s := (Sign(dx), Sign(dy));
    var near := Intersection(Kernel4(dx, dy), Kernel8(0, 0));
    forall p | p in near ensures p == s {
      KernelMembership(dx, dy, p);
      KernelMembership(0, 0, p);
    }
    KernelMembership(dx, dy, s);
    KernelMembership(0, 0, s);
  }

  /** The same rule by arithmetic: one step towards a parent two cells
      away on some axis, and the script's assertion failure beyond that. */
  function Chase(dx: int, dy: int): (r: Result<Pos>)
    ensures Chebyshev(dx, dy) <= 1 ==> r == Ok((0, 0))
    ensures r.Ok? <==> Chebyshev(dx, dy) <= 2
    ensures r.Ok? ==> Abs(r.value.0) <= 1 && Abs(r.value.1) <= 1
    ensures r.Ok? ==> Chebyshev(dx - r.value.0, dy - r.value.1) <= 1
  {
    if Abs(dx) <= 1 && Abs(dy) <= 1 then Ok((0, 0))
    else if Abs(dx) <= 2 && Abs(dy) <= 2 then Ok((Sign(dx), Sign(dy)))
    else Err("AssertionError")
  }

  /** The kernel-intersection rule and the arithmetic rule agree on every
      offset, including the ones where the assertion fails. */
  lemma FollowIsChase(dx: int, dy: int)
    ensures Follow(dx, dy) == Chase(dx, dy)
  {
    if Chebyshev(dx, dy) == 2 {
      FollowStep(dx, dy);
    } else if Chebyshev(dx, dy) > 2 {
      var near := Intersection(Kernel4(dx, dy), Kernel8(0, 0));
      forall p | p in near ensures false {
        KernelMembership(dx, dy, p);
        KernelMembership(0, 0, p);
      }
      assert near == {};
      var far := Intersection(Kernel8(dx, dy), Kernel8(0, 0));
      forall p | p in far ensures false {
        KernelMembership(dx, dy, p);
        KernelMembership(0, 0, p);
      }
      assert far == {};
    }
  }

  /** A knot: its position and every position it has held, oldest first. */
  datatype Knot = Knot(x: int, y: int, prev: seq<Pos>)

  function NewKnot(): (k: Knot)
    ensures k.prev == [(k.x, k.y)]
  {
    Knot(0, 0, [(0, 0)])
  }

  /** `move` with a direction: one cell along one axis.  Any other
      direction would make the head look for a parent it does not have. */
  function MoveHead(k: Knot, direction: string): (r: Result<Knot>)
    ensures r.Ok? <==> direction in {"L", "R", "U", "D"}
    ensures r.Ok? ==> Abs(r.value.x - k.x) + Abs(r.value.y - k.y) == 1
    ensures direction == "L" ==> r.Ok? && r.value.x == k.x - 1 && r.value.y == k.y
    ensures direction == "R" ==> r.Ok? && r.value.x == k.x + 1 && r.value.y == k.y
    ensures direction == "U" ==> r.Ok? && r.value.x == k.x && r.value.y == k.y + 1
    ensures direction == "D" ==> r.Ok? && r.value.x == k.x && r.value.y == k.y - 1
    ensures r.Ok? ==> r.value.prev == k.prev + [(r.value.x, r.value.y)]
  {
    if direction == "L" then Ok(Record(k, k.x - 1, k.y))
    else if direction == "R" then Ok(Record(k, k.x + 1, k.y))
    else if direction == "U" then Ok(Record(k, k.x, k.y + 1))
    else if direction == "D" then Ok(Record(k, k.x, k.y - 1))
    else Err("AttributeError")
  }

  function Record(k: Knot, x: int, y: int): Knot
  {
    Knot(x, y, k.prev + [(x, y)])
  }

  /** `move(direction=None)` for knots `k` onwards: each follows its
      already-moved parent and records its position.  The step is `Chase`,
      which `FollowIsChase` shows equal to the kernel rule `Follow`. */
  function Pull(rope: seq<Knot>, k: nat): (r: Result<seq<Knot>>)
    requires 1 <= k
    ensures r.Ok? ==> |r.value| == |rope|
    ensures r.Ok? ==> forall j :: 0 <= j < k && j < |rope| ==> r.value[j] == rope[j]
    ensures r.Ok? ==> forall j :: k <= j < |rope| ==> r.value[j].prev == rope[j].prev + [(r.value[j].x, r.value[j].y)]
    decreases |rope| - k
  {
    if k >= |rope| then Ok(rope)
    else
      var parent, knot := rope[k - 1], rope[k];
      var step :- Chase(parent.x - knot.x, parent.y - knot.y);
      Pull(rope[k := Record(knot, knot.x + step.0, knot.y + step.1)], k + 1)
  }

  /** One head step of the whole rope. */
  function Step(rope: seq<Knot>, direction: string): (r: Result<seq<Knot>>)
    requires |rope| >= 1
    ensures r.Ok? ==> |r.value| == |rope|
    ensures r.Ok? ==> forall j :: 0 <= j < |rope| ==> r.value[j].prev == rope[j].prev + [(r.value[j].x, r.value[j].y)]
  {
    var head :- MoveHead(rope[0], direction);
    Pull(rope[0 := head], 1)
  }

  /** How far knot `j` is from its parent. */
  function Gap(rope: seq<Knot>, j: nat): nat
    requires 1 <= j < |rope|
  {
    Chebyshev(rope[j - 1].x - rope[j].x, rope[j - 1].y - rope[j].y)
  }

  /** Every knot touches its parent. */
  ghost predicate Taut(rope: seq<Knot>)
  {
    forall j :: 1 <= j < |rope| ==> Gap(rope, j) <= 1
  }

  lemma ChebyshevShift(dx: int, dy: int, ax: int, ay: int)
    requires Chebyshev(dx, dy) <= 1 && Abs(ax) <= 1 && Abs(ay) <= 1
    ensures Chebyshev(dx + ax, dy + ay) <= 2
  {
  }

  lemma {:induction false} PullUnfold(rope: seq<Knot>, k: nat)
    requires 1 <= k < |rope|
    requires Chase(rope[k - 1].x - rope[k].x, rope[k - 1].y - rope[k].y).Ok?
    ensures var step := Chase(rope[k - 1].x - rope[k].x, rope[k - 1].y - rope[k].y).value;
      Pull(rope, k) == Pull(rope[k := Record(rope[k], rope[k].x + step.0, rope[k].y + step.1)], k + 1)
  {
  }

  /** Replacing knot `k` changes no gap but its own and its child's. */
  lemma {:induction false} GapsElsewhere(rope: seq<Knot>, k: nat, knot: Knot)
    requires k < |rope|
    ensures forall j :: 1 <= j < |rope| && j != k && j != k + 1 ==> Gap(rope[k := knot], j) == Gap(rope, j)
  {
  }

  /** Knot `k` following a parent at most two cells away ends up touching
      it, and its child is then at most two cells away. */
  lemma {:induction false} FollowerMoves(rope: seq<Knot>, k: nat) returns (next: seq<Knot>)
    requires 1 <= k < |rope| && Gap(rope, k) <= 2
    requires k + 1 < |rope| ==> Gap(rope, k + 1) <= 1
    ensures Chase(rope[k - 1].x - rope[k].x, rope[k - 1].y - rope[k].y).Ok?
    ensures var step := Chase(rope[k - 1].x - rope[k].x, rope[k - 1].y - rope[k].y).value;
      next == rope[k := Record(rope[k], rope[k].x + step.0, rope[k].y + step.1)]
    ensures forall j :: 1 <= j < |rope| && j != k && j != k + 1 ==> Gap(next, j) == Gap(rope, j)
    ensures Gap(next, k) <= 1
    ensures k + 1 < |rope| ==> Gap(next, k + 1) <= 2
  {
    var parent, knot := rope[k - 1], rope[k];
    var dx, dy := parent.x - knot.x, parent.y - knot.y;
    var step := Chase(dx, dy).value;
    var moved := Record(knot, knot.x + step.0, knot.y + step.1);
    next := rope[k := moved];
    GapsElsewhere(rope, k, moved);
    if k + 1 < |rope| {
      ChebyshevShift(rope[k].x - rope[k + 1].x, rope[k].y - rope[k + 1].y, step.0, step.1);
    }
  }

  /** Pulling a rope whose only gap is just behind knot `k - 1`, which
      moved by at most one cell per axis, succeeds and leaves it taut. */
  lemma {:induction false} PullTaut(rope: seq<Knot>, k: nat)
    requires 1 <= k
    requires forall j :: 1 <= j < k && j < |rope| ==> Gap(rope, j) <= 1
    requires k < |rope| ==> Gap(rope, k) <= 2
    requires forall j :: k < j < |rope| ==> Gap(rope, j) <= 1
    ensures Pull(rope, k).Ok? && Taut(Pull(rope, k).value)
    decreases |rope| - k
  {
    if k < |rope| {
      if k + 1 < |rope| {
        assert Gap(rope, k + 1) <= 1;
      }
      var next := FollowerMoves(rope, k);
      PullUnfold(rope, k);
      forall j | 1 <= j < k + 1 && j < |next|
        ensures Gap(next, j) <= 1
      {
        if j != k {
          assert Gap(next, j) == Gap(rope, j);
        }
      }
      forall j | k + 1 < j < |next|
        ensures Gap(next, j) <= 1
      {
        assert Gap(next, j) == Gap(rope, j);
      }
      PullTaut(next, k + 1);
    }
  }

  /** A taut rope stays taut through any head step in L, R, U or D. */
  lemma {:induction false} StepTaut(rope: seq<Knot>, direction: string)
    requires |rope| >= 1 && Taut(rope) && direction in {"L", "R", "U", "D"}
    ensures Step(rope, direction).Ok? && Taut(Step(rope, direction).value)
  {
    var head := MoveHead(rope[0], direction).value;
    var next := rope[0 := head];
    GapsElsewhere(rope, 0, head);
    forall j | 1 < j < |next| ensures Gap(next, j) <= 1 {
      assert Gap(next, j) == Gap(rope, j);
    }
    if |rope| > 1 {
      assert Gap(rope, 1) <= 1;
      ChebyshevShift(rope[0].x - rope[1].x, rope[0].y - rope[1].y, head.x - rope[0].x, head.y - rope[0].y);
    }
    PullTaut(next, 1);
  }

  /** The head and `children` followers, all at the origin. */
  function NewRope(children: nat): (rope: seq<Knot>)
    ensures |rope| == children + 1 && Taut(rope)
  {
    seq(children + 1, _ => NewKnot())
  }

  /** `for _ in range(num_steps)`: a negative count takes no steps. */
  function Repeat(direction: string, n: int): (r: seq<string>)
    ensures |r| == if n > 0 then n else 0
    ensures forall k :: 0 <= k < |r| ==> r[k] == direction
  {
    seq(if n > 0 then n else 0, _ => direction)
  }

  function Directions(movements: seq<(string, int)>): seq<string>
  {
    if movements == [] then []
    else Repeat(movements[0].0, movements[0].1) + Directions(movements[1..])
  }

  function Run(rope: seq<Knot>, directions: seq<string>): (r: Result<seq<Knot>>)
    requires |rope| >= 1
    ensures r.Ok? ==> |r.value| == |rope|
    decreases |directions|
  {
    if directions == [] then Ok(rope)
    else
      var next :- Step(rope, directions[0]);
      Run(next, directions[1..])
  }

  ghost predicate ValidDirections(directions: seq<string>)
  {
    forall k :: 0 <= k < |directions| ==> directions[k] in {"L", "R", "U", "D"}
  }

  /** A run of valid directions from a taut rope never trips the
      assertion, keeps the rope taut, and makes every knot record exactly
      one position per head step, the last being where it now is. */
  lemma {:induction false} RunTaut(rope: seq<Knot>, directions: seq<string>)
    requires |rope| >= 1 && Taut(rope) && ValidDirections(directions)
    ensures Run(rope, directions).Ok?
    ensures Taut(Run(rope, directions).value)
    ensures forall j :: 0 <= j < |rope| ==> |Run(rope, directions).value[j].prev| == |rope[j].prev| + |directions|
    ensures directions != [] ==> forall j :: 0 <= j < |rope| ==>
              var knot := Run(rope, directions).value[j]; knot.prev[|knot.prev| - 1] == (knot.x, knot.y)
    decreases |directions|
  {
    if directions != [] {
      StepTaut(rope, directions[0]);
      var next := Step(rope, directions[0]).value;
      RunTaut(next, directions[1..]);
      if |directions| > 1 {
        assert directions[1..] != [];
      } else {
        assert Run(next, directions[1..]) == Ok(next);
      }
    }
  }

  /** The set of tail positions after the initial entry. */
  function VisitedCount(rope: seq<Knot>): (n: nat)
    requires |rope| >= 1
    ensures var tail := rope[|rope| - 1].prev; |tail| >= 1 ==> n <= |tail| - 1
  {
    var tail := rope[|rope| - 1].prev;
    var visited := set k | 1 <= k < |tail| :: tail[k];
    CardinalityOfImage(tail);
    |visited|
  }

  lemma CardinalityOfImage(s: seq<Pos>)
    ensures |s| >= 1 ==> |set k | 1 <= k < |s| :: s[k]| <= |s| - 1
  {
    if |s| >= 1 {
      var t := s[1..];
      assert (set k | 1 <= k < |s| :: s[k]) == (set k | 0 <= k < |t| :: t[k]);
      SetOfSeqBound(t);
    }
  }

  lemma {:induction false} SetOfSeqBound(t: seq<Pos>)
    ensures |set k | 0 <= k < |t| :: t[k]| <= |t|
  {
    if t != [] {
      var rest := t[..|t| - 1];
      SetOfSeqBound(rest);
      assert (set k | 0 <= k < |t| :: t[k]) == (set k | 0 <= k < |rest| :: rest[k]) + {t[|t| - 1]};
    }
  }

  /** `line.strip().split(' ')` unpacked into a direction and `int`. */
  function ParseMovement(line: string): (r: Result<(string, int)>)
    ensures var tokens := PyText.Split(PyText.Strip(line), ' ');
            r.Ok? <==> |tokens| == 2 && PyText.ParseInt(tokens[1]).Some?
    ensures var tokens := PyText.Split(PyText.Strip(line), ' ');
            r.Ok? ==> r.value == (tokens[0], PyText.ParseInt(tokens[1]).value)
  {
    var tokens := PyText.Split(PyText.Strip(line), ' ');
    if |tokens| != 2 then Err("ValueError")
    else match PyText.ParseInt(tokens[1])
      case None => Err("ValueError")
      case Some(n) => Ok((tokens[0], n))
  }

  function ParseMovements(lines: seq<string>): (r: Result<seq<(string, int)>>)
  {
    Collect(seq(|lines|, k requires 0 <= k < |lines| => ParseMovement(lines[k])))
  }

  /** The printed answer: one follower, or nine with `--part-2`. */
  function Answer(lines: seq<string>, part2: bool): Result<nat>
  {
    var movements :- ParseMovements(lines);
    var rope :- Run(NewRope(if part2 then 9 else 1), Directions(movements));
    Ok(VisitedCount(rope))
  }
}
