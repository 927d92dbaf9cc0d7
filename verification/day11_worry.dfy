/** Day 11, part 2: the worry level of an item is kept as a remainder
    modulo the product of the monkeys' test divisors, which keeps the
    numbers small without changing the outcome of any test. */
module WorryLevels {
  import opened Results
  import opened Seqs

  /** The divisors the item class is built with by default. */
  const Dividends: seq<int> := [3, 13, 2, 11, 19, 17, 5, 7]

  /** `np.prod(self.dividends)`, written out as a number. */
  function Modulus(): int
  {
    9699690
  }

  lemma ModulusIsProduct()
    ensures Modulus() == Product(Dividends)
  {
    assert Dividends[1..][1..][1..][1..][1..][1..][1..][1..] == [];
  }

  /** Every default divisor divides the modulus. */
  lemma DividendsDivideModulus()
    ensures forall k :: 0 <= k < |Dividends| ==> Modulus() % Dividends[k] == 0
  {
  }

  /** The operand of a monkey's operation: a number or the old value. */
  datatype Operand = Old | Num(n: int)

  /** `mul`: times the factor, or squared for 'old'. */
  function Mul(rest: int, factor: Operand): (r: int)
    ensures factor.Num? ==> r == rest * factor.n
    ensures factor.Old? ==> r == rest * rest
  {
    match factor
    case Num(n) => rest * n
    case Old => rest * rest
  }

  /** `add`: plus the summand; adding the string 'old' to an int raises
      TypeError. */
  function Add(rest: int, summand: Operand): (r: Result<int>)
    ensures r.Ok? <==> summand.Num?
    ensures summand.Num? ==> r.value == rest + summand.n
  {
    match summand
    case Num(n) => Ok(rest + n)
    case Old => Err("TypeError")
  }

  /** `div_test`: the remainder is zero.  Python's remainder takes the
      divisor's sign, Dafny's is never negative, but both are zero exactly
      when the divisor divides the value; a zero divisor raises. */
  function DivTest(rest: int, dividend: int): (r: Result<bool>)
    ensures r.Ok? <==> dividend != 0
    ensures r.Ok? ==> (r.value <==> exists q :: rest == q * dividend)
    ensures r.Ok? ==> (r.value <==> rest % dividend == 0)
  {
    if dividend == 0 then Err("ZeroDivisionError")
    else
      if rest % dividend == 0 then
        assert rest == (rest / dividend) * dividend;
        Ok(true)
      else
        assert forall q :: rest != q * dividend by {
          forall q ensures rest != q * dividend {
            if rest == q * dividend {
              MultipleMod(q, dividend);
            }
          }
        }
        Ok(false)
  }

  /** `replace_with_dividend_factors`: a value at or above the modulus is
      replaced by its remainder, a smaller one is kept. */
  function Reduce(rest: int): (r: int)
    ensures rest < Modulus() ==> r == rest
    ensures rest >= Modulus() ==> 0 <= r
    ensures r < Modulus()
  {
    if rest >= Modulus() then rest % Modulus() else rest
  }

  /** `q * d` leaves remainder zero. */
  lemma MultipleMod(q: int, d: int)
    requires d != 0
    ensures (q * d) % d == 0
  {
    ShiftMod(0, q, d);
  }

  /** Adding a multiple of `d` keeps the remainder. */
  lemma ShiftMod(b: int, q: int, d: int)
    requires d != 0
    ensures (b + q * d) % d == b % d
  {
    var x := b + q * d;
    var ad := if d > 0 then d else -d;
    var k := x / d - b / d - q;
    assert x == (x / d) * d + x % d;
    assert b == (b / d) * d + b % d;
    assert k * d == b % d - x % d by {
      assert (x / d) * d - (b / d) * d - q * d == k * d;
    }
    assert -ad < k * d < ad;
    if k != 0 {
      MulAwayFromZero(k, d);
      assert false;
    }
  }

  lemma MulAwayFromZero(k: int, d: int)
    requires k != 0 && d != 0
    ensures k * d >= d || k * d <= -d
  {
    var a: nat := if k > 0 then k - 1 else -k - 1;
    var b: nat := if d > 0 then d else -d;
    NonNegativeProduct(a, b);
    assert (if k > 0 then k else -k) * b == a * b + b;
    if k > 0 && d > 0 {
      assert k * d == a * b + b;
    } else if k > 0 {
      assert k * d == -(a * b + b);
    } else if d > 0 {
      assert k * d == -(a * b + b);
    } else {
      assert k * d == a * b + b;
    }
  }

  lemma NonNegativeProduct(a: nat, b: nat)
    ensures a * b >= 0
  {
  }

  /** Two worry levels that differ by a multiple of the modulus. */
  predicate Congruent(a: int, b: int)
  {
    (a - b) % Modulus() == 0
  }

  /** Congruence means the difference is a multiple of the modulus. */
  lemma CongruentMultiple(a: int, b: int)
    ensures Congruent(a, b) <==> exists q :: a - b == q * Modulus()
  {
    var m := Modulus();
    if Congruent(a, b) {
      assert a - b == ((a - b) / m) * m;
    }
    if exists q :: a - b == q * m {
      var q :| a - b == q * m;
      MultipleMod(q, m);
    }
  }

  /** Congruent levels pass and fail the same tests, for every divisor
      of the modulus. */
  lemma CongruentTests(a: int, b: int, d: int)
    requires Congruent(a, b) && d != 0 && Modulus() % d == 0
    ensures (a % d == 0) <==> (b % d == 0)
  {
    CongruentMultiple(a, b);
    var q :| a - b == q * Modulus();
    var m := Modulus() / d;
    assert Modulus() == m * d;
    assert a == b + (q * m) * d;
    ShiftMod(b, q * m, d);
  }

  /** Reducing keeps the level congruent, so it keeps every default
      test's outcome. */
  lemma ReduceCongruent(rest: int)
    ensures Congruent(Reduce(rest), rest)
  {
    var m := Modulus();
    if rest >= m {
      assert rest == (rest / m) * m + rest % m;
      assert Reduce(rest) - rest == (-(rest / m)) * m;
    } else {
      assert Reduce(rest) - rest == 0 * m;
    }
    CongruentMultiple(Reduce(rest), rest);
  }

  lemma ReduceKeepsTests(rest: int)
    ensures forall k :: 0 <= k < |Dividends| ==>
              (Reduce(rest) % Dividends[k] == 0 <==> rest % Dividends[k] == 0)
  {
    ReduceCongruent(rest);
    DividendsDivideModulus();
    forall k | 0 <= k < |Dividends|
      ensures Reduce(rest) % Dividends[k] == 0 <==> rest % Dividends[k] == 0
    {
      CongruentTests(Reduce(rest), rest, Dividends[k]);
    }
  }

  /** The operations respect congruence: it does not matter whether the
      level was reduced before multiplying, squaring or adding. */
  lemma MulCongruent(a: int, b: int, factor: Operand)
    requires Congruent(a, b)
    ensures Congruent(Mul(a, factor), Mul(b, factor))
  {
    match factor
    case Num(n) =>
      Distribute(a, b, n);
      MultipleTimes(a - b, n, Modulus());
    case Old =>
      Distribute(a, b, a);
      Distribute(a, b, b);
      assert a * a - b * b == (a - b) * a + (a - b) * b;
      MultipleTimes(a - b, a, Modulus());
      MultipleTimes(a - b, b, Modulus());
      SumOfMultiples((a - b) * a, (a - b) * b, Modulus());
  }

  lemma Distribute(a: int, b: int, n: int)
    ensures a * n - b * n == (a - b) * n
  {
  }

  /** A multiple of `m` times anything is a multiple of `m`. */
  lemma MultipleTimes(x: int, n: int, m: int)
    requires m > 0 && x % m == 0
    ensures (x * n) % m == 0
  {
    var q := x / m;
    assert x == q * m;
    assert x * n == (q * n) * m;
    MultipleMod(q * n, m);
  }

  lemma SumOfMultiples(x: int, y: int, m: int)
    requires m > 0 && x % m == 0 && y % m == 0
    ensures (x + y) % m == 0
  {
    assert x == (x / m) * m;
    ShiftMod(y, x / m, m);
  }

  lemma AddCongruent(a: int, b: int, summand: Operand)
    requires Congruent(a, b) && summand.Num?
    ensures Congruent(Add(a, summand).value, Add(b, summand).value)
  {
    assert Add(a, summand).value - Add(b, summand).value == a - b;
  }

  lemma CongruentReflexive(a: int)
    ensures Congruent(a, a)
  {
  }

  lemma CongruentTransitive(a: int, b: int, c: int)
    requires Congruent(a, b) && Congruent(b, c)
    ensures Congruent(a, c)
  {
    CongruentMultiple(a, b);
    CongruentMultiple(b, c);
    var p :| a - b == p * Modulus();
    var q :| b - c == q * Modulus();
    assert a - c == (p + q) * Modulus();
    CongruentMultiple(a, c);
  }
}
