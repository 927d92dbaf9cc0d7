/** Day 18: the surface area of a droplet made of unit cubes, and the
    outer surface found by flood-filling the air around it inside a
    bounding box. */
module BoilingBoulders {
  import opened Results
  import Seqs

  /** A unit cube named by its integer corner `(i, j, k)`. */
  type Cube = (int, int, int)

  function Add(a: Cube, b: Cube): Cube
  {
    (a.0 + b.0, a.1 + b.1, a.2 + b.2)
  }

  /** Two cubes share a face when their coordinates differ by one along
      exactly one axis: `np.abs(a - b).sum() == 1`. */
  predicate Adjacent(a: Cube, b: Cube)
  {
    Seqs.Abs(a.0 - b.0) + Seqs.Abs(a.1 - b.1) + Seqs.Abs(a.2 - b.2) == 1
  }

  /** The six face directions, in the order `cube_march` adds them. */
  function Direction(k: nat): Cube
    requires k < 6
  {
    if k == 0 then (1, 0, 0)
    else if k == 1 then (-1, 0, 0)
    else if k == 2 then (0, 1, 0)
    else if k == 3 then (0, -1, 0)
    else if k == 4 then (0, 0, 1)
    else (0, 0, -1)
  }

  /** Sharing a face is the same as being one of the six steps away. */
  lemma AdjacentDirection(a: Cube, b: Cube)
    ensures Adjacent(a, b) <==> exists k :: 0 <= k < 6 && b == Add(a, Direction(k))
  {
    if Adjacent(a, b) {
      var k :=
        if b.0 == a.0 + 1 then 0 else if b.0 == a.0 - 1 then 1
        else if b.1 == a.1 + 1 then 2 else if b.1 == a.1 - 1 then 3
        else if b.2 == a.2 + 1 then 4 else 5;
      assert b == Add(a, Direction(k));
    }
  }

  /** How many cubes of `s` share a face with `x`. */
  function Partners(x: Cube, s: seq<Cube>): nat
  {
    if s == [] then 0
    else Partners(x, s[..|s| - 1]) + (if Adjacent(x, s[|s| - 1]) then 1 else 0)
  }

  /** The number of face-sharing pairs `i < j`, counted as the nested
      loops of `get_cube_surface` visit them: each cube against the cubes
      after it. */
  function Touching(s: seq<Cube>): nat
  {
    if s == [] then 0 else Partners(s[0], s[1..]) + Touching(s[1..])
  }

  /** `get_cube_surface`: six faces per cube, two fewer for every pair
      that shares a face. */
  method SurfaceArea(cubes: seq<Cube>) returns (area: int)
    ensures area == 6 * |cubes| - 2 * Touching(cubes)
  {
    area := 6 * |cubes|;
    for i := 0 to |cubes|
      invariant area == 6 * |cubes| - 2 * (Touching(cubes) - Touching(cubes[i..]))
    {
      var x, after := cubes[i], cubes[i + 1..];
      assert Touching(cubes[i..]) == Partners(x, after) + Touching(after) by {
        assert cubes[i..][1..] == after;
      }
      for j := 0 to |after|
        invariant area == 6 * |cubes| - 2 * (Touching(cubes) - Touching(cubes[i..])) - 2 * Partners(x, after[..j])
      {
        assert after[..j + 1][..j] == after[..j];
        if Adjacent(x, after[j]) {
          area := area - 2;
        }
      }
      assert after[..|after|] == after;
    }
  }

  /** A cube read after the others shares faces with exactly its partners
      among them. */
  lemma {:induction false} TouchingSnoc(s: seq<Cube>, c: Cube)
    ensures Touching(s + [c]) == Touching(s) + Partners(c, s)
  {
    if s != [] {
      var h, t := s[0], s[1..];
      assert (s + [c])[1..] == t + [c];
      assert (t + [c])[..|t|] == t;
      TouchingSnoc(t, c);
      assert s == [h] + t;
      PartnersCons(c, h, t);
      assert Adjacent(h, c) == Adjacent(c, h);
    }
  }

  /** One more cube adds its six faces and hides two for each cube already
      there that it shares a face with. */
  lemma SurfaceSnoc(s: seq<Cube>, c: Cube)
    ensures 6 * |s + [c]| - 2 * Touching(s + [c]) == 6 * |s| - 2 * Touching(s) + 6 - 2 * Partners(c, s)
  {
    TouchingSnoc(s, c);
  }

  /** How often `y` occurs in `s`. */
  function Count(s: seq<Cube>, y: Cube): nat
  {
    if s == [] then 0 else Count(s[..|s| - 1], y) + (if s[|s| - 1] == y then 1 else 0)
  }

  lemma {:induction false} CountDistinct(s: seq<Cube>, y: Cube)
    requires Seqs.Distinct(s)
    ensures Count(s, y) <= 1
  {
    if s != [] {
      var front := s[..|s| - 1];
      CountDistinct(front, y);
      if s[|s| - 1] == y {
        CountAbsent(front, y);
      }
    }
  }

  lemma {:induction false} CountAbsent(s: seq<Cube>, y: Cube)
    requires y !in s
    ensures Count(s, y) == 0
  {
    if s != [] {
      CountAbsent(s[..|s| - 1], y);
    }
  }

  /** The partners of `x`, sorted by the direction they lie in. */
  function Around(x: Cube, s: seq<Cube>): nat
  {
    Count(s, Add(x, Direction(0))) + Count(s, Add(x, Direction(1))) + Count(s, Add(x, Direction(2)))
    + Count(s, Add(x, Direction(3))) + Count(s, Add(x, Direction(4))) + Count(s, Add(x, Direction(5)))
  }

  lemma {:induction false} PartnersAround(x: Cube, s: seq<Cube>)
    ensures Partners(x, s) == Around(x, s)
  {
    if s != [] {
      PartnersAround(x, s[..|s| - 1]);
    }
  }

  /** Among distinct cubes, one has at most six partners. */
  lemma PartnersBound(x: Cube, s: seq<Cube>)
    requires Seqs.Distinct(s)
    ensures Partners(x, s) <= 6
  {
    PartnersAround(x, s);
    CountDistinct(s, Add(x, Direction(0)));
    CountDistinct(s, Add(x, Direction(1)));
    CountDistinct(s, Add(x, Direction(2)));
    CountDistinct(s, Add(x, Direction(3)));
    CountDistinct(s, Add(x, Direction(4)));
    CountDistinct(s, Add(x, Direction(5)));
  }

  /** The partners of every cube of `xs` among `s`, added up. */
  function Degrees(xs: seq<Cube>, s: seq<Cube>): nat
  {
    if xs == [] then 0 else Degrees(xs[..|xs| - 1], s) + Partners(xs[|xs| - 1], s)
  }

  lemma {:induction false} PartnersCons(x: Cube, h: Cube, s: seq<Cube>)
    ensures Partners(x, [h] + s) == (if Adjacent(x, h) then 1 else 0) + Partners(x, s)
  {
    if s != [] {
      PartnersCons(x, h, s[..|s| - 1]);
      assert ([h] + s)[..|s|] == [h] + s[..|s| - 1];
    }
  }

  lemma {:induction false} DegreesCons(xs: seq<Cube>, h: Cube, s: seq<Cube>)
    ensures Degrees(xs, [h] + s) == Partners(h, xs) + Degrees(xs, s)
  {
    if xs != [] {
      DegreesCons(xs[..|xs| - 1], h, s);
      PartnersCons(xs[|xs| - 1], h, s);
    }
  }

  lemma {:induction false} DegreesFront(h: Cube, xs: seq<Cube>, s: seq<Cube>)
    ensures Degrees([h] + xs, s) == Partners(h, s) + Degrees(xs, s)
  {
    if xs != [] {
      DegreesFront(h, xs[..|xs| - 1], s);
      assert ([h] + xs)[..|xs|] == [h] + xs[..|xs| - 1];
    }
  }

  /** Every face-sharing pair is seen once from each of its cubes. */
  lemma {:induction false} Handshake(s: seq<Cube>)
    ensures Degrees(s, s) == 2 * Touching(s)
  {
    if s != [] {
      var h, t := s[0], s[1..];
      assert s == [h] + t;
      Handshake(t);
      DegreesFront(h, t, s);
      DegreesCons(t, h, t);
      PartnersCons(h, h, t);
    }
  }

  lemma {:induction false} DegreesBound(xs: seq<Cube>, s: seq<Cube>)
    requires Seqs.Distinct(s)
    ensures Degrees(xs, s) <= 6 * |xs|
  {
    if xs != [] {
      DegreesBound(xs[..|xs| - 1], s);
      PartnersBound(xs[|xs| - 1], s);
    }
  }

  /** For distinct cubes the surface lies between 0 and six faces per
      cube. */
  lemma SurfaceBounds(cubes: seq<Cube>)
    requires Seqs.Distinct(cubes)
    ensures 0 <= 6 * |cubes| - 2 * Touching(cubes) <= 6 * |cubes|
  {
    Handshake(cubes);
    DegreesBound(cubes, cubes);
  }

  /** Every cube moved by `d` along each axis (`cubes += d`). */
  function Shift(cubes: seq<Cube>, d: int): (r: seq<Cube>)
    ensures |r| == |cubes|
    ensures forall i :: 0 <= i < |r| ==> r[i] == Add(cubes[i], (d, d, d))
  {
    seq(|cubes|, i requires 0 <= i < |cubes| => Add(cubes[i], (d, d, d)))
  }

  lemma {:induction false} PartnersShift(x: Cube, s: seq<Cube>, d: int)
    ensures Partners(Add(x, (d, d, d)), Shift(s, d)) == Partners(x, s)
  {
    if s != [] {
      PartnersShift(x, s[..|s| - 1], d);
      assert Shift(s, d)[..|s| - 1] == Shift(s[..|s| - 1], d);
    }
  }

  /** Moving the droplet does not change which cubes touch. */
  lemma {:induction false} TouchingShift(s: seq<Cube>, d: int)
    ensures Touching(Shift(s, d)) == Touching(s)
  {
    if s != [] {
      TouchingShift(s[1..], d);
      PartnersShift(s[0], s[1..], d);
      assert Shift(s, d)[1..] == Shift(s[1..], d);
    }
  }

  function Min3(c: Cube): int
  {
    Seqs.Smaller(c.0, Seqs.Smaller(c.1, c.2))
  }

  function Max3(c: Cube): int
  {
    Seqs.Larger(c.0, Seqs.Larger(c.1, c.2))
  }

  /** `cubes.min()`: the least coordinate over every axis of every cube. */
  function MinCoord(cubes: seq<Cube>): (m: int)
    requires cubes != []
    ensures forall i :: 0 <= i < |cubes| ==> m <= Min3(cubes[i])
    ensures exists i :: 0 <= i < |cubes| && m == Min3(cubes[i])
  {
    if |cubes| == 1 then Min3(cubes[0])
    else
      var m := MinCoord(cubes[..|cubes| - 1]);
      assert forall i :: 0 <= i < |cubes| - 1 ==> cubes[..|cubes| - 1][i] == cubes[i];
      Seqs.Smaller(m, Min3(cubes[|cubes| - 1]))
  }

  /** `cubes.max()` */
  function MaxCoord(cubes: seq<Cube>): (m: int)
    requires cubes != []
    ensures forall i :: 0 <= i < |cubes| ==> Max3(cubes[i]) <= m
    ensures exists i :: 0 <= i < |cubes| && m == Max3(cubes[i])
  {
    if |cubes| == 1 then Max3(cubes[0])
    else
      var m := MaxCoord(cubes[..|cubes| - 1]);
      assert forall i :: 0 <= i < |cubes| - 1 ==> cubes[..|cubes| - 1][i] == cubes[i];
      Seqs.Larger(m, Max3(cubes[|cubes| - 1]))
  }

  /** `cubes -= cubes.min(); cubes += 2`; numpy refuses the minimum of no
      cubes with ValueError. */
  function Normalise(cubes: seq<Cube>): (r: Result<seq<Cube>>)
    ensures r.Err? <==> cubes == []
    ensures r.Err? ==> r.error == "ValueError"
    ensures r.Ok? ==> r.value == Shift(cubes, 2 - MinCoord(cubes))
  {
    if cubes == [] then Err("ValueError") else Ok(Shift(cubes, 2 - MinCoord(cubes)))
  }

  /** After normalising, the least coordinate is 2, so layers 0 and 1 on
      every side are free of lava, and the droplet keeps its shape. */
  lemma NormaliseSound(cubes: seq<Cube>)
    requires cubes != []
    ensures MinCoord(Normalise(cubes).value) == 2
    ensures Touching(Normalise(cubes).value) == Touching(cubes)
  {
    var d := 2 - MinCoord(cubes);
    var s := Shift(cubes, d);
    forall i | 0 <= i < |s|
      ensures Min3(s[i]) == Min3(cubes[i]) + d
    {
    }
    var m := MinCoord(s);
    var i :| 0 <= i < |s| && m == Min3(s[i]);
    var k :| 0 <= k < |cubes| && MinCoord(cubes) == Min3(cubes[k]);
    assert Min3(s[k]) == 2;
    TouchingShift(cubes, d);
  }

  /** Every cube of the `size`-sided box `[0, size)³`. */
  predicate InBox(c: Cube, size: int)
  {
    0 <= c.0 < size && 0 <= c.1 < size && 0 <= c.2 < size
  }

  /** `zip(np.tile(np.arange(size), size), np.arange(size).repeat(size))`:
      every pair of indices below `size`. */
  function Square(size: int): set<(int, int)>
  {
    set a, b | 0 <= a < size && 0 <= b < size :: (a, b)
  }

  /** `get_border_cubes`: the six faces of the box, one layer thick. */
  function Border(size: int): set<Cube>
  {
    (set p | p in Square(size) :: (p.0, p.1, 0))
    + (set p | p in Square(size) :: (p.0, p.1, size - 1))
    + (set p | p in Square(size) :: (p.0, 0, p.1))
    + (set p | p in Square(size) :: (p.0, size - 1, p.1))
    + (set p | p in Square(size) :: (0, p.0, p.1))
    + (set p | p in Square(size) :: (size - 1, p.0, p.1))
  }

  /** The border holds exactly the cubes of the box with a coordinate at
      either end. */
  lemma BorderMembers(size: int, c: Cube)
    ensures c in Border(size) <==> (InBox(c, size)
      && (c.0 == 0 || c.0 == size - 1 || c.1 == 0 || c.1 == size - 1 || c.2 == 0 || c.2 == size - 1))
  {
    if InBox(c, size) {
      if c.2 == 0 || c.2 == size - 1 {
        assert (c.0, c.1) in Square(size);
      } else if c.1 == 0 || c.1 == size - 1 {
        assert (c.0, c.2) in Square(size);
      } else if c.0 == 0 || c.0 == size - 1 {
        assert (c.1, c.2) in Square(size);
      }
    }
  }

  /** The cubes strictly inside the border of the `size`-sided box. */
  predicate Inner(c: Cube, size: int)
  {
    1 <= c.0 <= size - 2 && 1 <= c.1 <= size - 2 && 1 <= c.2 <= size - 2
  }

  function Sub(a: Cube, b: Cube): Cube
  {
    (a.0 - b.0, a.1 - b.1, a.2 - b.2)
  }

  /** The six neighbours of every cube of `s` (the first loop of
      `cube_march`). */
  function Neighbours(s: set<Cube>): set<Cube>
  {
    set x, k | x in s && 0 <= k < 6 :: Add(x, Direction(k))
  }

  /** The neighbours of a set are the cubes sharing a face with one of
      its cubes. */
  lemma NeighbourOf(s: set<Cube>, c: Cube)
    ensures c in Neighbours(s) <==> exists k :: 0 <= k < 6 && Sub(c, Direction(k)) in s
  {
    assert c in Neighbours(s) ==> exists k :: 0 <= k < 6 && Sub(c, Direction(k)) in s by {
      if c in Neighbours(s) {
        var x, k :| x in s && 0 <= k < 6 && c == Add(x, Direction(k));
        assert Sub(c, Direction(k)) == x;
      }
    }
    assert (exists k :: 0 <= k < 6 && Sub(c, Direction(k)) in s) ==> c in Neighbours(s) by {
      if exists k :: 0 <= k < 6 && Sub(c, Direction(k)) in s {
        var k :| 0 <= k < 6 && Sub(c, Direction(k)) in s;
        assert c == Add(Sub(c, Direction(k)), Direction(k));
      }
    }
  }

  /** A neighbour of a set shares a face with one of its cubes. */
  lemma NeighbourAdjacent(s: set<Cube>, c: Cube)
    requires c in Neighbours(s)
    ensures exists x :: x in s && Adjacent(x, c)
  {
    var x, k :| x in s && 0 <= k < 6 && c == Add(x, Direction(k));
    AdjacentDirection(x, c);
  }

  /** `cube_march`: the cubes of the current layer, joined with the
      march from the next layer — the neighbours that are neither
      invalid nor in the layer visited before. Each layer is one Python
      call; `fuel` is the recursion depth the interpreter allows. */
  function March(current: set<Cube>, visited: set<Cube>, invalid: set<Cube>, fuel: nat): (r: Result<set<Cube>>)
    ensures r.Err? ==> r.error == "RecursionError"
    ensures r.Ok? ==> current <= r.value
    ensures r.Ok? ==> forall c :: c in r.value && c !in current ==> c !in invalid
    decreases fuel
  {
    if fuel == 0 then Err("RecursionError")
    else
      var next := Neighbours(current) - invalid - visited;
      if next == {} then Ok(current)
      else
        var rest :- March(next, current, invalid, fuel - 1);
        Ok(current + rest)
  }

  /** `c` is in `start`, or at most `n` face steps away from it, every
      step landing on a cube outside `invalid`. */
  predicate Reaches(start: set<Cube>, invalid: set<Cube>, n: nat, c: Cube)
    decreases n
  {
    c in start
    || (n > 0 && c !in invalid
        && exists k :: 0 <= k < 6 && Reaches(start, invalid, n - 1, Sub(c, Direction(k))))
  }

  lemma NeighboursMonotone(s: set<Cube>, t: set<Cube>)
    requires s <= t
    ensures Neighbours(s) <= Neighbours(t)
  {
    forall c | c in Neighbours(s)
      ensures c in Neighbours(t)
    {
      NeighbourOf(s, c);
      NeighbourOf(t, c);
    }
  }

  /** What is reachable from valid neighbours of `current` is reachable
      from `current` in one more step. */
  lemma {:induction false} ReachesStep(current: set<Cube>, next: set<Cube>, invalid: set<Cube>, m: nat, c: Cube)
    requires next <= Neighbours(current) - invalid
    requires Reaches(next, invalid, m, c)
    ensures Reaches(current, invalid, m + 1, c)
    decreases m
  {
    if c in next {
      NeighbourOf(current, c);
      var k :| 0 <= k < 6 && Sub(c, Direction(k)) in current;
      assert Reaches(current, invalid, m, Sub(c, Direction(k)));
    } else {
      var k :| 0 <= k < 6 && Reaches(next, invalid, m - 1, Sub(c, Direction(k)));
      ReachesStep(current, next, invalid, m - 1, Sub(c, Direction(k)));
    }
  }

  /** One layer of the march: the current cubes, and whatever is
      reachable from their valid neighbours, are reachable from the
      current cubes with one more step. */
  lemma ReachesLayer(current: set<Cube>, visited: set<Cube>, invalid: set<Cube>, m: nat, rest: set<Cube>)
    requires forall c :: c in rest ==> Reaches(Neighbours(current) - invalid - visited, invalid, m, c)
    ensures forall c :: c in current + rest ==> Reaches(current, invalid, m + 1, c)
  {
    var next := Neighbours(current) - invalid - visited;
    forall c | c in rest
      ensures Reaches(current, invalid, m + 1, c)
    {
      ReachesStep(current, next, invalid, m, c);
    }
  }

  /** Every cube the march returns can be reached from where it started,
      stepping face to face around the invalid cubes, in no more steps
      than the recursion depth allows. */
  lemma {:induction false} MarchReaches(current: set<Cube>, visited: set<Cube>, invalid: set<Cube>, fuel: nat)
    requires March(current, visited, invalid, fuel).Ok?
    ensures forall c :: c in March(current, visited, invalid, fuel).value ==> Reaches(current, invalid, fuel, c)
    decreases fuel
  {
    var next := Neighbours(current) - invalid - visited;
    if next != {} {
      MarchReaches(next, current, invalid, fuel - 1);
      ReachesLayer(current, visited, invalid, fuel - 1, March(next, current, invalid, fuel - 1).value);
    }
  }

  /** Starting inside a box whose border is invalid, the march stays
      inside the box. */
  lemma {:induction false} MarchInside(current: set<Cube>, visited: set<Cube>, invalid: set<Cube>, fuel: nat, size: int)
    requires Border(size) <= invalid
    requires forall c :: c in current ==> Inner(c, size)
    requires March(current, visited, invalid, fuel).Ok?
    ensures forall c :: c in March(current, visited, invalid, fuel).value ==> Inner(c, size)
    decreases fuel
  {
    var next := Neighbours(current) - invalid - visited;
    if next != {} {
      forall c | c in next
        ensures Inner(c, size)
      {
        NeighbourAdjacent(current, c);
        BorderMembers(size, c);
      }
      MarchInside(next, current, invalid, fuel - 1, size);
    }
  }

  /** The flood fill of part 2: the droplet is shifted to start at 2 and
      the air around it is marched through from `(1, 1, 1)`. */
  function Fill(cubes: seq<Cube>, fuel: nat): (r: Result<(set<Cube>, int)>)
    ensures cubes == [] ==> r == Err("ValueError")
  {
    var lava :- Normalise(cubes);
    FillBox(lava, fuel)
  }

  /** The box is `size` cubes wide, two layers larger than the droplet on
      every side; its border and the lava are invalid. */
  function FillBox(lava: seq<Cube>, fuel: nat): (r: Result<(set<Cube>, int)>)
    requires lava != []
  {
    var size := MaxCoord(lava) - MinCoord(lava) + 5;
    var filled :- March({(1, 1, 1)}, {}, Invalid(lava, size), fuel);
    Ok((filled, size))
  }

  /** `invalid_cubes`: the border of the box and every lava cube. */
  function Invalid(lava: seq<Cube>, size: int): set<Cube>
  {
    Border(size) + set i | 0 <= i < |lava| :: lava[i]
  }

  /** The filled air starts at `(1, 1, 1)`, stays strictly inside the box
      and never enters the lava. */
  lemma FillSound(cubes: seq<Cube>, fuel: nat)
    requires Fill(cubes, fuel).Ok?
    ensures (1, 1, 1) in Fill(cubes, fuel).value.0
    ensures forall c :: c in Fill(cubes, fuel).value.0 ==> Inner(c, Fill(cubes, fuel).value.1)
    ensures forall c :: c in Fill(cubes, fuel).value.0 ==> c !in Normalise(cubes).value
  {
    NormaliseSound(cubes);
    var lava := Normalise(cubes).value;
    assert Fill(cubes, fuel) == FillBox(lava, fuel);
    FillBoxSound(lava, fuel);
  }

  lemma FillBoxSound(lava: seq<Cube>, fuel: nat)
    requires lava != [] && MinCoord(lava) == 2
    requires FillBox(lava, fuel).Ok?
    ensures (1, 1, 1) in FillBox(lava, fuel).value.0
    ensures forall c :: c in FillBox(lava, fuel).value.0 ==> Inner(c, FillBox(lava, fuel).value.1)
    ensures forall c :: c in FillBox(lava, fuel).value.0 ==> c !in lava
  {
    var size := MaxCoord(lava) - MinCoord(lava) + 5;
    var invalid := Invalid(lava, size);
    var filled := March({(1, 1, 1)}, {}, invalid, fuel).value;
    assert FillBox(lava, fuel).value == (filled, size);
    assert forall c :: c in filled ==> Inner(c, size) by {
      assert size >= 5 by {
        var k :| 0 <= k < |lava| && MinCoord(lava) == Min3(lava[k]);
      }
      MarchInside({(1, 1, 1)}, {}, invalid, fuel, size);
    }
    assert forall c :: c in filled ==> c !in lava by {
      AirOutsideLava(lava, invalid, filled);
    }
  }

  lemma AirOutsideLava(lava: seq<Cube>, invalid: set<Cube>, filled: set<Cube>)
    requires (set i | 0 <= i < |lava| :: lava[i]) <= invalid
    requires forall c :: c in filled && c != (1, 1, 1) ==> c !in invalid
    requires forall i :: 0 <= i < |lava| ==> Min3(lava[i]) >= 2
    ensures forall c :: c in filled ==> c !in lava
  {
  }

  /** Part 2: the surface of the filled air, less the outside of the
      box it fills (`6 * (size - 2) ** 2`). The cubes of the set are
      listed in some order, which the surface does not depend on. */
  method OuterSurface(cubes: seq<Cube>, fuel: nat) returns (r: Result<int>, order: seq<Cube>)
    ensures cubes == [] ==> r == Err("ValueError")
    ensures r.Ok? <==> Fill(cubes, fuel).Ok?
    ensures r.Ok? ==> Seqs.Distinct(order)
    ensures r.Ok? ==> forall c :: c in order <==> c in Fill(cubes, fuel).value.0
    ensures r.Ok? ==> var size := Fill(cubes, fuel).value.1;
      r.value == 6 * |order| - 2 * Touching(order) - 6 * (size - 2) * (size - 2)
  {
    order := [];
    var filled := Fill(cubes, fuel);
    if filled.Err? {
      return Err(filled.error), order;
    }
    order := Enumerate(filled.value.0);
    var area := SurfaceArea(order);
    var size := filled.value.1;
    r := Ok(area - 6 * (size - 2) * (size - 2));
  }

  /** The cubes of a set, each once, in some order: Python's iteration
      over a set. */
  method Enumerate(s: set<Cube>) returns (order: seq<Cube>)
    ensures Seqs.Distinct(order)
    ensures forall c :: c in order <==> c in s
  {
    order := [];
    var rest := s;
    while rest != {}
      invariant Seqs.Distinct(order)
      invariant rest <= s
      invariant forall c :: c in order <==> c in s && c !in rest
      decreases |rest|
    {
      var c :| c in rest;
      order := order + [c];
      rest := rest - {c};
    }
  }
}
