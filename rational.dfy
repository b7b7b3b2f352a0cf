/**
  The mixed-fraction number type of internal/rational/rational.go.

  A value `Rational(i, n, d)` stands for `i + n/d`; a zero denominator means
  "no fractional part", so `Rational(i, n, 0)` stands for `i` alone. The
  constructor `New` reduces `n/d` by Go's `gcd` loop and then moves whole units
  from `n` into `i`; the arithmetic operations build a numerator over a common
  denominator and hand it to `New`.

  Go's `/` and `%` on `int` truncate toward zero; they are `Quot` and `Rem` here.
  Integers are unbounded: the model has no 64-bit overflow.
*/
module Rationals {
  import opened Wrappers
  import opened GoStd

  datatype Rational = Rational(i: int, n: int, d: int)

  /** The number a value stands for; `Multiply` and `Divide` read their operands this way. */
  function Val(r: Rational): real
  {
    if r.d == 0 then r.i as real else r.i as real + r.n as real / r.d as real
  }

  /** Constructor form: a value without a denominator has no numerator either. */
  predicate Proper(r: Rational)
  {
    r.d == 0 ==> r.n == 0
  }

  // ---------------------------------------------------------------------------
  // Go integer arithmetic

  function Abs(x: int): nat
  {
    if x < 0 then -x else x
  }

  /** Go's `a / b`: the quotient truncated toward zero. */
  function Quot(a: int, b: int): int
    requires b != 0
  {
    if a >= 0 then (if b > 0 then a / b else -(a / -b))
    else (if b > 0 then -((-a) / b) else (-a) / (-b))
  }

  /** Go's `a % b`: what is left after `Quot`, carrying the sign of `a`. */
  function Rem(a: int, b: int): (r: int)
    requires b != 0
    ensures a == b * Quot(a, b) + r
    ensures Abs(r) < Abs(b)
    ensures a >= 0 ==> r >= 0
    ensures a <= 0 ==> r <= 0
  {
    var m := Abs(a) % Abs(b);
    QuotRem(a, b);
    if a >= 0 then m else -m
  }

  lemma QuotRem(a: int, b: int)
    requires b != 0
    ensures a == b * Quot(a, b) + (if a >= 0 then Abs(a) % Abs(b) else -(Abs(a) % Abs(b)))
  {
    var p: int, q: int := Abs(a), Abs(b);
    assert p == q * (p / q) + p % q;
    if a >= 0 && b < 0 {
      assert b * Quot(a, b) == q * (p / q);
    } else if a < 0 && b > 0 {
      assert b * Quot(a, b) == -(q * (p / q));
    } else if a < 0 && b < 0 {
      assert b * Quot(a, b) == -(q * (p / q));
    }
  }

  /** A truncated quotient is negative only when the operands have opposite signs. */
  lemma QuotSign(a: int, b: int)
    requires b != 0
    ensures Quot(a, b) < 0 ==> (a > 0 && b < 0) || (a < 0 && b > 0)
  {
    if a >= 0 && b > 0 {
      DivNonNeg(a, b);
    } else if a >= 0 {
      DivNonNeg(a, -b);
      assert a == 0 ==> a / -b == 0;
    } else if b > 0 {
      DivNonNeg(-a, b);
    } else {
      DivNonNeg(-a, -b);
    }
  }

  lemma DivNonNeg(a: int, b: int)
    requires a >= 0 && b > 0
    ensures a / b >= 0
  {
  }

  lemma AbsMul(a: int, b: int)
    ensures Abs(a * b) == Abs(a) * Abs(b)
  {
    if a < 0 && b < 0 {
      assert a * b == (-a) * (-b);
    } else if a < 0 {
      assert a * b == -((-a) * b);
    } else if b < 0 {
      assert a * b == -(a * (-b));
    }
  }

  /** A multiple of `k` that is smaller than `k` in absolute value is zero. */
  lemma SmallMultiple(k: int, t: int)
    requires Abs(k * t) < Abs(k)
    ensures t == 0
  {
    AbsMul(k, t);
    if t != 0 {
      MulMonotone(Abs(k), Abs(t), 1);
    }
  }

  lemma MulMonotone(x: nat, y: nat, z: nat)
    requires y >= z
    ensures x * y >= x * z
  {
    assert x * y == x * z + x * (y - z);
  }

  lemma DivModUnique(a: int, b: int, q: int, r: int)
    requires b > 0 && a == q * b + r && 0 <= r < b
    ensures q == a / b && r == a - (a / b) * b
  {
    var q', r' := a / b, a % b;
    assert a == q' * b + r';
    assert (q - q') * b == r' - r;
    assert Abs(b * (q - q')) < Abs(b);
    SmallMultiple(b, q - q');
  }

  // ---------------------------------------------------------------------------
  // Divisibility and Go's gcd loop

  /** `k` divides `x` exactly. */
  predicate Divides(k: int, x: int)
  {
    k != 0 && Rem(x, k) == 0
  }

  ghost predicate Coprime(a: int, b: int)
  {
    forall c :: c > 0 && Divides(c, a) && Divides(c, b) ==> c == 1
  }

  lemma DividesMultiple(k: int, q: int)
    requires k != 0
    ensures Divides(k, k * q) && Quot(k * q, k) == q
  {
    var x := k * q;
    var r := Rem(x, k);
    assert k * (q - Quot(x, k)) == r;
    SmallMultiple(k, q - Quot(x, k));
  }

  lemma DividesLinear(k: int, a: int, b: int, c: int)
    requires Divides(k, a) && Divides(k, b)
    ensures Divides(k, a * c + b)
  {
    var p, s := Quot(a, k), Quot(b, k);
    DividesElim(k, a);
    DividesElim(k, b);
    Distribute(k, p, c, s);
    DividesMultiple(k, p * c + s);
  }

  lemma DividesElim(k: int, a: int)
    requires Divides(k, a)
    ensures a == k * Quot(a, k)
  {
  }

  lemma Distribute(k: int, p: int, c: int, s: int)
    ensures (k * p) * c + k * s == k * (p * c + s)
  {
  }

  lemma DividesNeg(k: int, a: int)
    requires Divides(k, a)
    ensures Divides(k, -a) && Divides(-k, a)
  {
    var p := Quot(a, k);
    assert a == k * p;
    NegProducts(k, p);
    DividesMultiple(k, -p);
    DividesMultiple(-k, -p);
  }

  lemma NegProducts(k: int, p: int)
    ensures -(k * p) == k * -p && k * p == (-k) * (-p)
  {
  }

  /** Go's `gcd`: `for y != 0 { x, y = y, x%y }; return x`, unrolled as recursion. */
  function Euclid(x: int, y: int): int
    decreases Abs(y)
  {
    if y == 0 then x else Euclid(y, Rem(x, y))
  }

  lemma {:induction false} EuclidDivides(x: int, y: int)
    requires x != 0 || y != 0
    ensures Euclid(x, y) != 0
    ensures Divides(Euclid(x, y), x) && Divides(Euclid(x, y), y)
    decreases Abs(y)
  {
    if y == 0 {
      DividesMultiple(x, 1);
      DividesMultiple(x, 0);
    } else {
      var r := Rem(x, y);
      EuclidDivides(y, r);
      DividesLinear(Euclid(y, r), y, r, Quot(x, y));
    }
  }

  lemma {:induction false} EuclidGreatest(c: int, x: int, y: int)
    requires Divides(c, x) && Divides(c, y)
    ensures Divides(c, Euclid(x, y))
    decreases Abs(y)
  {
    if y != 0 {
      var r := Rem(x, y);
      assert r == y * (-Quot(x, y)) + x;
      DividesLinear(c, y, x, -Quot(x, y));
      EuclidGreatest(c, y, r);
    }
  }

  /**
    Every remainder carries the sign of its dividend, so the loop keeps the
    common sign of its arguments; with mixed signs either sign can come out.
  */
  lemma {:induction false} EuclidSign(x: int, y: int)
    ensures x >= 0 && y >= 0 ==> Euclid(x, y) >= 0
    ensures x <= 0 && y <= 0 ==> Euclid(x, y) <= 0
    decreases Abs(y)
  {
    if y != 0 {
      EuclidSign(y, Rem(x, y));
    }
  }

  /** The `gcd` function of rational.go:37-42, with its loop. */
  method Gcd(x: int, y: int) returns (g: int)
    ensures g == Euclid(x, y)
    ensures (x != 0 || y != 0) ==> g != 0 && Divides(g, x) && Divides(g, y)
    ensures forall c :: Divides(c, x) && Divides(c, y) ==> Divides(c, g)
  {
    var a, b := x, y;
    while b != 0
      invariant Euclid(a, b) == Euclid(x, y)
      decreases Abs(b)
    {
      a, b := b, Rem(a, b);
    }
    g := a;
    if x != 0 || y != 0 {
      EuclidDivides(x, y);
    }
    forall c | Divides(c, x) && Divides(c, y)
      ensures Divides(c, g)
    {
      EuclidGreatest(c, x, y);
    }
  }

  // ---------------------------------------------------------------------------
  // The constructor New

  /** Lines 19-21 of New: both halves of `n/d` divided by Go's gcd. */
  function Reduce(n: int, d: int): (nd: (int, int))
    requires d != 0
    ensures nd.1 != 0
    ensures n * nd.1 == d * nd.0
    ensures Coprime(nd.0, nd.1)
  {
    EuclidDivides(n, d);
    var g := Euclid(n, d);
    var n1, d1 := Quot(n, g), Quot(d, g);
    ReducedCoprime(n, d, g, n1, d1);
    (n1, d1)
  }

  lemma ReducedCoprime(n: int, d: int, g: int, n1: int, d1: int)
    requires d != 0 && g == Euclid(n, d)
    requires g != 0 && Divides(g, n) && Divides(g, d)
    requires n1 == Quot(n, g) && d1 == Quot(d, g)
    ensures d1 != 0 && n * d1 == d * n1 && Coprime(n1, d1)
  {
    DividesElim(g, n);
    DividesElim(g, d);
    CrossProduct(g, n1, d1);
    forall c | c > 0 && Divides(c, n1) && Divides(c, d1)
      ensures c == 1
    {
      CommonFactor(n, d, g, n1, d1, c);
    }
  }

  lemma CrossProduct(g: int, n1: int, d1: int)
    ensures (g * n1) * d1 == (g * d1) * n1
  {
  }

  lemma Reassociate(g: int, c: int, p: int)
    ensures g * (c * p) == (c * g) * p
  {
  }

  /** A common factor `c` of the reduced halves would make `c * g` a common divisor larger than the gcd `g`. */
  lemma CommonFactor(n: int, d: int, g: int, n1: int, d1: int, c: int)
    requires d != 0 && g == Euclid(n, d) && g != 0
    requires n == g * n1 && d == g * d1
    requires c > 0 && Divides(c, n1) && Divides(c, d1)
    ensures c == 1
  {
    var p, q := Quot(n1, c), Quot(d1, c);
    DividesElim(c, n1);
    DividesElim(c, d1);
    Reassociate(g, c, p);
    Reassociate(g, c, q);
    assert c * g != 0;
    DividesMultiple(c * g, p);
    DividesMultiple(c * g, q);
    EuclidGreatest(c * g, n, d);
    var t := Quot(g, c * g);
    DividesElim(c * g, g);
    UnitFactor(g, c, t);
  }

  /** `g == (c * g) * t` with `g != 0` forces `c == 1` for a positive `c`. */
  lemma UnitFactor(g: int, c: int, t: int)
    requires g != 0 && c > 0 && g == (c * g) * t
    ensures c == 1
  {
    assert g * (c * t - 1) == 0;
    assert c * t == 1;
    if c > 1 {
      AbsMul(c, t);
      MulMonotone(Abs(t), Abs(c), 2);
    }
  }

  /**
    Lines 22-28 of New: the loop `for n >= d { n -= d; i += 1 }` followed by
    `if n == 0 { d = 0 }`, for a positive `d`, where the loop always exits. A
    negative `n` is below `d` from the start and stays where it is.
  */
  function Carry(i: int, n: int, d: int): Rational
    requires d > 0
  {
    var k := if n >= 0 then n / d else 0;
    var m := n - k * d;
    if m == 0 then Rational(i + k, 0, 0) else Rational(i + k, m, d)
  }

  /**
    Whether the loop of New at rational.go:22-25 exits: either no reduction
    happens (`d == 0`), or the reduced denominator is positive, or the reduced
    numerator starts below it.
  */
  predicate Halts(n: int, d: int)
  {
    d == 0 || Reduce(n, d).1 > 0 || Reduce(n, d).0 < Reduce(n, d).1
  }

  /**
    New with the fault of the source corrected: when Go's `gcd` comes out with
    the opposite sign to `d`, the reduced denominator is negative and the
    source loops forever; here both halves are negated first. On every input
    where the source returns, this is exactly what it returns (see `New`).
  */
  function Normalize(i: int, n: int, d: int): Rational
  {
    if d == 0 then Rational(i, n, 0)
    else
      var nd := Reduce(n, d);
      if nd.1 < 0 then Carry(i, -nd.0, -nd.1) else Carry(i, nd.0, nd.1)
  }

  /**
    The normal form New produces: no fraction at all, or a fraction in lowest
    terms with a positive denominator and a numerator below it (a negative
    numerator is not folded into the integer part).
  */
  ghost predicate Reduced(r: Rational)
  {
    (r.d == 0 && r.n == 0) || (r.d > 0 && r.n != 0 && r.n < r.d && Coprime(r.n, r.d))
  }

  /** A negative reduced denominator only arises with a non-negative reduced numerator. */
  lemma ReducedSign(n: int, d: int)
    requires d != 0
    ensures Reduce(n, d).1 < 0 ==> Reduce(n, d).0 >= 0
  {
    EuclidDivides(n, d);
    var g := Euclid(n, d);
    var n1, d1 := Quot(n, g), Quot(d, g);
    if d1 < 0 && n1 < 0 {
      QuotSign(d, g);
      QuotSign(n, g);
      EuclidSign(n, d);
    }
  }

  /** For a non-zero `d`, the source's loop exits exactly when the reduced denominator is positive. */
  lemma HaltsIff(n: int, d: int)
    requires d != 0
    ensures Halts(n, d) <==> Reduce(n, d).1 > 0
  {
    ReducedSign(n, d);
  }

  /** The inputs the arithmetic of non-negative values produces: New always returns. */
  lemma HaltsOnNonNegative(n: int, d: int)
    requires n >= 0 && d > 0
    ensures Halts(n, d) && Reduce(n, d).0 >= 0
  {
    EuclidDivides(n, d);
    EuclidSign(n, d);
    var g := Euclid(n, d);
    assert g > 0;
    assert d == g * Quot(d, g);
    assert n == g * Quot(n, g);
  }

  /** With denominator 1, Go's gcd is 1, nothing is divided and New always returns. */
  lemma HaltsOnUnitDenominator(n: int)
    ensures Halts(n, 1) && Reduce(n, 1) == (n, 1)
  {
    assert Rem(n, 1) == 0 by {
      DividesMultiple(1, n);
    }
    assert Euclid(n, 1) == Euclid(1, 0) == 1;
  }

  /**
    The finding: where `Halts` fails, Go's gcd has made the reduced denominator
    negative while the numerator is at least as large, and the guard `n >= d`
    still holds after any number `k` of iterations (each one raises `n`).
  */
  lemma NewLoopNeverExits(n: int, d: int, k: nat)
    requires d != 0 && !Halts(n, d)
    ensures Reduce(n, d).1 < 0
    ensures Reduce(n, d).0 - k * Reduce(n, d).1 >= Reduce(n, d).1
  {
    var n1, d1 := Reduce(n, d).0, Reduce(n, d).1;
    assert d1 < 0 && n1 >= d1;
    assert k * d1 <= 0;
  }

  /**
    Two inputs on which the source's New never returns: New(0, -2, 4) (gcd -2
    leaves 1/-2) and New(0, -159, 7) (gcd -1 leaves 159/-7), the second being
    the call `Sub` makes for 47 - 69 5/7, the entry (1,1) of the first
    elimination step on the 5x5 matrix of matrix_test.go.
  */
  lemma NewDivergesExamples()
    ensures Reduce(-2, 4) == (1, -2) && !Halts(-2, 4)
    ensures Reduce(-159, 7) == (159, -7) && !Halts(-159, 7)
    ensures Sub(ParseInt(47), Rational(69, 5, 7)) == Normalize(0, -159, 7)
  {
    assert Rem(-2, 4) == -2;
    assert Rem(4, -2) == 0;
    assert Euclid(-2, 4) == -2;
    assert Rem(-159, 7) == -5;
    assert Rem(7, -5) == 2;
    assert Rem(-5, 2) == -1;
    assert Rem(2, -1) == 0;
    assert Euclid(-159, 7) == Euclid(7, -5) == Euclid(-5, 2) == Euclid(2, -1) == Euclid(-1, 0) == -1;
  }

  /**
    The source's `New` (rational.go:17-35), with its two loops. It is given
    only the inputs on which its loop exits, and there it computes `Normalize`.
  */
  method New(i: int, n: int, d: int) returns (r: Rational)
    requires Halts(n, d)
    ensures r == Normalize(i, n, d)
    ensures d == 0 ==> r == Rational(i, n, 0)
    ensures d != 0 ==> Reduced(r) && Val(r) == i as real + n as real / d as real
  {
    if d != 0 {
      NormalizeReduced(i, n, d);
      NormalizeValue(i, n, d);
    }
    var ri, rn, rd := i, n, d;
    if rd != 0 {
      var g := Gcd(rn, rd);
      rn := Quot(rn, g);
      rd := Quot(rd, g);
      assert (rn, rd) == Reduce(n, d);
      HaltsIff(n, d);
      ghost var n1 := rn;
      while rn >= rd
        invariant rd > 0 && rn + (ri - i) * rd == n1
        invariant n1 >= 0 ==> rn >= 0
        invariant n1 < 0 ==> ri == i && rn == n1
        decreases rn
      {
        StepDown(rn, ri - i, rd);
        rn := rn - rd;
        ri := ri + 1;
      }
      CarryLoop(i, n1, rd, ri, rn);
      if rn == 0 {
        rd := 0;
      }
    }
    r := Rational(ri, rn, rd);
  }

  lemma StepDown(m: int, k: int, d: int)
    ensures (m - d) + (k + 1) * d == m + k * d
  {
  }

  /** Where the loop of New stops, it has computed `Carry`. */
  lemma CarryLoop(i: int, n1: int, d: int, ri: int, rn: int)
    requires d > 0 && rn + (ri - i) * d == n1 && rn < d
    requires n1 >= 0 ==> rn >= 0
    requires n1 < 0 ==> ri == i && rn == n1
    ensures Carry(i, n1, d) == Rational(ri, rn, if rn == 0 then 0 else d)
  {
    if n1 >= 0 {
      DivModUnique(n1, d, ri - i, rn);
    }
  }

  // ---------------------------------------------------------------------------
  // Properties of the constructor

  lemma RealMul(a: int, b: int)
    ensures (a * b) as real == a as real * b as real
  {
  }

  lemma CrossRatio(a: int, b: int, c: int, e: int)
    requires b != 0 && e != 0 && a * e == b * c
    ensures a as real / b as real == c as real / e as real
  {
    var ra, rb, rc, re := a as real, b as real, c as real, e as real;
    RealMul(a, e);
    RealMul(b, c);
    assert ra * re == rb * rc;
    calc {
      ra / rb;
      (ra * re) / (rb * re);
      (rb * rc) / (rb * re);
      rc / re;
    }
  }

  lemma RealSplit(k: real, d: real, m: real)
    requires d != 0.0
    ensures (k * d + m) / d == k + m / d
  {
  }

  lemma CarryValue(i: int, n: int, d: int)
    requires d > 0
    ensures Val(Carry(i, n, d)) == i as real + n as real / d as real
  {
    var k := if n >= 0 then n / d else 0;
    var m := n - k * d;
    RealMul(k, d);
    assert n as real == k as real * d as real + m as real;
    RealSplit(k as real, d as real, m as real);
  }

  /** Taking whole multiples of `d` off `n` keeps it coprime to `d`. */
  lemma CoprimeShift(n: int, d: int, k: int)
    requires Coprime(n, d)
    ensures Coprime(n - k * d, d)
  {
    var m := n - k * d;
    forall c | c > 0 && Divides(c, m) && Divides(c, d)
      ensures c == 1
    {
      DividesLinear(c, d, m, k);
      assert d * k + m == n;
    }
  }

  lemma CarryReduced(i: int, n: int, d: int)
    requires d > 0 && Coprime(n, d)
    ensures Reduced(Carry(i, n, d))
    ensures n >= 0 ==> Carry(i, n, d).n >= 0
  {
    var k := if n >= 0 then n / d else 0;
    CarryRemainder(n, d);
    CoprimeShift(n, d, k);
    CarryShape(i + k, n - k * d, d);
  }

  /** What `Carry` leaves in the numerator is below the denominator, and not negative when `n` is not. */
  lemma CarryRemainder(n: int, d: int)
    requires d > 0
    ensures var k := if n >= 0 then n / d else 0; n - k * d < d && (n >= 0 ==> n - k * d >= 0)
  {
    if n >= 0 {
      assert n - (n / d) * d == n % d;
    }
  }

  lemma CarryShape(j: int, m: int, d: int)
    requires d > 0 && m < d && Coprime(m, d)
    ensures Reduced(if m == 0 then Rational(j, 0, 0) else Rational(j, m, d))
  {
  }

  lemma CoprimeNeg(a: int, b: int)
    requires Coprime(a, b)
    ensures Coprime(-a, -b)
  {
    var a', b' := -a, -b;
    forall c | c > 0 && Divides(c, a') && Divides(c, b')
      ensures c == 1
    {
      DividesNeg(c, a');
      DividesNeg(c, b');
    }
  }

  lemma FlipRatio(a: int, b: int)
    requires b != 0
    ensures a as real / b as real == (-a) as real / (-b) as real
  {
  }

  /** New keeps the value: `i + n/d` (rational.go:19-25). */
  lemma NormalizeValue(i: int, n: int, d: int)
    requires d != 0
    ensures Val(Normalize(i, n, d)) == i as real + n as real / d as real
  {
    var nd := Reduce(n, d);
    CrossRatio(n, d, nd.0, nd.1);
    if nd.1 < 0 {
      FlipRatio(nd.0, nd.1);
      CarryValue(i, -nd.0, -nd.1);
    } else {
      CarryValue(i, nd.0, nd.1);
    }
  }

  /** New always leaves its result in normal form, and keeps a non-negative fraction non-negative. */
  lemma NormalizeReduced(i: int, n: int, d: int)
    requires d != 0
    ensures Reduced(Normalize(i, n, d))
    ensures n >= 0 && d > 0 ==> 0 <= Normalize(i, n, d).n < Normalize(i, n, d).d || Normalize(i, n, d).d == 0
  {
    var nd := Reduce(n, d);
    if nd.1 < 0 {
      CoprimeNeg(nd.0, nd.1);
      CarryReduced(i, -nd.0, -nd.1);
    } else {
      CarryReduced(i, nd.0, nd.1);
    }
    if n >= 0 && d > 0 {
      HaltsOnNonNegative(n, d);
    }
  }

  /** Go's gcd of two coprime numbers is 1 or -1. */
  lemma UnitGcd(n: int, d: int)
    requires d != 0 && Coprime(n, d)
    ensures Euclid(n, d) == 1 || Euclid(n, d) == -1
  {
    EuclidDivides(n, d);
    var g := Euclid(n, d);
    if g < 0 {
      DividesNeg(g, n);
      DividesNeg(g, d);
      assert Divides(-g, n) && Divides(-g, d);
    }
  }

  lemma QuotByUnit(x: int)
    ensures Quot(x, 1) == x && Quot(x, -1) == -x
  {
    DividesMultiple(1, x);
    DividesMultiple(-1, -x);
    assert (-1) * (-x) == x;
  }

  /** Reducing a reduced value again changes nothing. */
  lemma NormalizeIdempotent(r: Rational)
    requires Reduced(r)
    ensures Normalize(r.i, r.n, r.d) == r
  {
    if r.d != 0 {
      UnitGcd(r.n, r.d);
      QuotByUnit(r.n);
      QuotByUnit(r.d);
      assert Reduce(r.n, r.d) == (r.n, r.d) || Reduce(r.n, r.d) == (-r.n, -r.d);
      if r.n >= 0 {
        DivModUnique(r.n, r.d, 0, r.n);
      }
    }
  }

  /** The example of rational_test.go:27-35. */
  lemma NormalizeExample()
    ensures Normalize(0, 16, 8) == Rational(2, 0, 0)
  {
    assert Rem(16, 8) == 0;
    assert Euclid(16, 8) == Euclid(8, 0) == 8;
  }

  // ---------------------------------------------------------------------------
  // ParseInt and the arithmetic operations

  /** `ParseInt` (rational.go:44-48): an integer with no fractional part. */
  function ParseInt(k: int): (r: Rational)
    ensures r == Normalize(k, 0, 0)
    ensures Proper(r) && Reduced(r) && Val(r) == k as real
  {
    Rational(k, 0, 0)
  }

  /** The common denominator of `Add` and `Sub` (rational.go:73-79). */
  function CommonDenominator(a: Rational, b: Rational): (cd: int)
    ensures cd != 0
    ensures a.d >= 0 && b.d >= 0 ==> cd > 0
  {
    (if a.d != 0 then a.d else 1) * (if b.d != 0 then b.d else 1)
  }

  /**
    The numerators of `a` and `b` over the common denominator, as `Add` and
    `Sub` build them (rational.go:80-89): `ai + an` and `bi + bn`.
  */
  function Scaled(a: Rational, b: Rational): (int, int)
  {
    var cd := CommonDenominator(a, b);
    (a.i * cd + (if b.d != 0 then a.n * b.d else a.n), b.i * cd + (if a.d != 0 then b.n * a.d else b.n))
  }

  /**
    `a.Add(b)` (rational.go:72-92): `New(0, ai + an + bi + bn, cd)`, here with
    the corrected constructor. Where `AddHalts(a, b)` holds, the source's `New`
    returns and gives the same value (see `New`); elsewhere it never returns.
  */
  function Add(a: Rational, b: Rational): (r: Rational)
    ensures Reduced(r)
  {
    var cd := CommonDenominator(a, b);
    var s := Scaled(a, b);
    NormalizeReduced(0, s.0 + s.1, cd);
    Normalize(0, s.0 + s.1, cd)
  }

  /** `a.Sub(b)` (rational.go:94-114): `New(0, ai + an - bi - bn, cd)`, with the corrected constructor. */
  function Sub(a: Rational, b: Rational): (r: Rational)
    ensures Reduced(r)
  {
    var cd := CommonDenominator(a, b);
    var s := Scaled(a, b);
    NormalizeReduced(0, s.0 - s.1, cd);
    Normalize(0, s.0 - s.1, cd)
  }

  /** An operand as numerator over denominator, the way `Multiply` and `Divide` read it (rational.go:117-128). */
  function Fraction(a: Rational): (f: (int, int))
    ensures f.1 != 0
    ensures Val(a) == f.0 as real / f.1 as real
  {
    if a.d != 0 then
      FractionValue(a);
      (a.d * a.i + a.n, a.d)
    else
      (a.i, 1)
  }

  lemma FractionValue(a: Rational)
    requires a.d != 0
    ensures Val(a) == (a.d * a.i + a.n) as real / a.d as real
  {
    RealMul(a.d, a.i);
    var rd, ri, rn := a.d as real, a.i as real, a.n as real;
    calc {
      (rd * ri + rn) / rd;
      ri + rn / rd;
    }
  }

  /** `a.Multiply(b)` (rational.go:116-132): `New(0, an*bn, ad*bd)`, with the corrected constructor. */
  function Multiply(a: Rational, b: Rational): (r: Rational)
    ensures Reduced(r)
  {
    var fa, fb := Fraction(a), Fraction(b);
    NormalizeReduced(0, fa.0 * fb.0, fa.1 * fb.1);
    Normalize(0, fa.0 * fb.0, fa.1 * fb.1)
  }

  /**
    `a.Divide(b)` (rational.go:134-150): `New(0, an*bd, ad*bn)`, with the
    corrected constructor. No error is reported when `b` is zero: the result
    is then the fraction with denominator 0 that `New` leaves untouched.
  */
  function Divide(a: Rational, b: Rational): (r: Rational)
    ensures Fraction(b).0 != 0 ==> Reduced(r)
    ensures Fraction(b).0 == 0 ==> r == Rational(0, Fraction(a).0 * Fraction(b).1, 0)
  {
    var fa, fb := Fraction(a), Fraction(b);
    if fb.0 != 0 then
      NormalizeReduced(0, fa.0 * fb.1, fa.1 * fb.0);
      Normalize(0, fa.0 * fb.1, fa.1 * fb.0)
    else
      Normalize(0, fa.0 * fb.1, fa.1 * fb.0)
  }

  // ---------------------------------------------------------------------------
  // Where the source's arithmetic returns

  /*
    Each operation ends with a call of the source's `New`, which returns exactly
    when `Halts` holds of its numerator and denominator. The predicates below
    name that condition for each operation; where it fails, the Go call never
    returns, while the functions above return the corrected constructor's value.
  */

  /** Go's `a.Add(b)` returns: its `New(0, n, cd)` at rational.go:91 exits. */
  predicate AddHalts(a: Rational, b: Rational)
  {
    Halts(Scaled(a, b).0 + Scaled(a, b).1, CommonDenominator(a, b))
  }

  /** Go's `a.Sub(b)` returns: its `New(0, n, cd)` at rational.go:113 exits. */
  predicate SubHalts(a: Rational, b: Rational)
  {
    Halts(Scaled(a, b).0 - Scaled(a, b).1, CommonDenominator(a, b))
  }

  /** Go's `a.Multiply(b)` returns: its `New(0, n, d)` at rational.go:131 exits. */
  predicate MultiplyHalts(a: Rational, b: Rational)
  {
    Halts(Fraction(a).0 * Fraction(b).0, Fraction(a).1 * Fraction(b).1)
  }

  /** Go's `a.Divide(b)` returns: its `New(0, n, d)` at rational.go:149 exits. */
  predicate DivideHalts(a: Rational, b: Rational)
  {
    Halts(Fraction(a).0 * Fraction(b).1, Fraction(a).1 * Fraction(b).0)
  }

  lemma NumeratorSum(x: int, y: int, c: int)
    requires c != 0
    ensures (x + y) as real / c as real == x as real / c as real + y as real / c as real
  {
  }

  /** `Val(a)` scaled to the common denominator `cd`, as the numerator `Add` builds. */
  lemma ScaledTerm(a: Rational, k: int, cd: int, x: int)
    requires Proper(a) && k != 0
    requires cd == (if a.d != 0 then a.d else 1) * k && x == a.i * cd + a.n * k
    ensures cd != 0 && x as real / cd as real == Val(a)
  {
    RealMul(a.i, cd);
    RealMul(a.n, k);
    if a.d != 0 {
      RealMul(a.d, k);
      var ri, rn, rd, rk := a.i as real, a.n as real, a.d as real, k as real;
      assert rk != 0.0;
      calc {
        x as real / cd as real;
        (ri * (rd * rk) + rn * rk) / (rd * rk);
        ri + (rn * rk) / (rd * rk);
        ri + rn / rd;
      }
    }
  }

  /** Adding two values in constructor form adds the numbers they stand for. */
  lemma AddValue(a: Rational, b: Rational)
    requires Proper(a) && Proper(b)
    ensures Val(Add(a, b)) == Val(a) + Val(b)
  {
    var cd := CommonDenominator(a, b);
    var an := if b.d != 0 then a.n * b.d else a.n;
    var bn := if a.d != 0 then b.n * a.d else b.n;
    var x, y := a.i * cd + an, b.i * cd + bn;
    assert Add(a, b) == Normalize(0, x + y, cd);
    NormalizeValue(0, x + y, cd);
    NumeratorSum(x, y, cd);
    var ka, kb := if a.d != 0 then a.d else 1, if b.d != 0 then b.d else 1;
    MulCommutes(ka, kb);
    assert an == a.n * kb && bn == b.n * ka;
    ScaledTerm(a, kb, cd, x);
    ScaledTerm(b, ka, cd, y);
  }

  lemma MulCommutes(p: int, q: int)
    ensures p * q == q * p
  {
  }

  lemma NumeratorDiff(x: int, y: int, c: int)
    requires c != 0
    ensures (x - y) as real / c as real == x as real / c as real - y as real / c as real
  {
  }

  /** Subtracting two values in constructor form subtracts the numbers they stand for. */
  lemma SubValue(a: Rational, b: Rational)
    requires Proper(a) && Proper(b)
    ensures Val(Sub(a, b)) == Val(a) - Val(b)
  {
    var cd := CommonDenominator(a, b);
    var an := if b.d != 0 then a.n * b.d else a.n;
    var bn := if a.d != 0 then b.n * a.d else b.n;
    var x, y := a.i * cd + an, b.i * cd + bn;
    assert Sub(a, b) == Normalize(0, x - y, cd);
    NormalizeValue(0, x - y, cd);
    NumeratorDiff(x, y, cd);
    var ka, kb := if a.d != 0 then a.d else 1, if b.d != 0 then b.d else 1;
    MulCommutes(ka, kb);
    assert an == a.n * kb && bn == b.n * ka;
    ScaledTerm(a, kb, cd, x);
    ScaledTerm(b, ka, cd, y);
  }

  lemma ProductRatio(p: int, q: int, s: int, t: int)
    requires q != 0 && t != 0
    ensures (p * s) as real / (q * t) as real == (p as real / q as real) * (s as real / t as real)
  {
    RealMul(p, s);
    RealMul(q, t);
  }

  /** Multiplying multiplies the numbers, for any operands. */
  lemma MultiplyValue(a: Rational, b: Rational)
    ensures Val(Multiply(a, b)) == Val(a) * Val(b)
  {
    var fa, fb := Fraction(a), Fraction(b);
    RatioOfProduct(fa.0, fa.1, fb.0, fb.1, Val(a), Val(b));
    NormalizeValue(0, fa.0 * fb.0, fa.1 * fb.1);
  }

  lemma RatioOfProduct(p: int, q: int, s: int, t: int, x: real, y: real)
    requires q != 0 && t != 0 && x == p as real / q as real && y == s as real / t as real
    ensures (p * s) as real / (q * t) as real == x * y
  {
    ProductRatio(p, q, s, t);
  }

  lemma RatioOfQuotient(p: int, q: int, s: int, t: int, x: real, y: real)
    requires q != 0 && t != 0 && s != 0 && x == p as real / q as real && y == s as real / t as real
    ensures (p * t) as real / (q * s) as real == x / y
  {
    ProductRatio(p, q, t, s);
  }

  /** Dividing by a non-zero value divides the numbers. */
  lemma DivideValue(a: Rational, b: Rational)
    requires Val(b) != 0.0
    ensures Val(Divide(a, b)) == Val(a) / Val(b)
    ensures Reduced(Divide(a, b))
  {
    var fa, fb := Fraction(a), Fraction(b);
    assert fb.0 != 0;
    RatioOfQuotient(fa.0, fa.1, fb.0, fb.1, Val(a), Val(b));
    NormalizeValue(0, fa.0 * fb.1, fa.1 * fb.0);
    NormalizeReduced(0, fa.0 * fb.1, fa.1 * fb.0);
  }

  /**
    Dividing by a zero value reports nothing: the result is the unreduced
    `{0, a_num*b_den, 0}`, which stands for 0.
  */
  lemma DivideByZero(a: Rational, b: Rational)
    requires Val(b) == 0.0
    ensures Divide(a, b) == Rational(0, Fraction(a).0 * Fraction(b).1, 0)
    ensures Val(Divide(a, b)) == 0.0
  {
    var fb := Fraction(b);
    assert fb.0 == 0;
  }

  /** The common denominator and the numerator sum are symmetric, so the results are identical. */
  lemma AddCommutes(a: Rational, b: Rational)
    ensures Add(a, b) == Add(b, a)
  {
    assert CommonDenominator(a, b) == CommonDenominator(b, a);
  }

  lemma MultiplyCommutes(a: Rational, b: Rational)
    ensures Multiply(a, b) == Multiply(b, a)
  {
    var fa, fb := Fraction(a), Fraction(b);
    assert fa.0 * fb.0 == fb.0 * fa.0 && fa.1 * fb.1 == fb.1 * fa.1;
  }

  /** Over the common denominator, each scaled numerator stands for its operand's number. */
  lemma ScaledValue(a: Rational, b: Rational)
    requires Proper(a) && Proper(b)
    ensures Scaled(a, b).0 as real / CommonDenominator(a, b) as real == Val(a)
    ensures Scaled(a, b).1 as real / CommonDenominator(a, b) as real == Val(b)
  {
    var cd := CommonDenominator(a, b);
    var ka, kb := if a.d != 0 then a.d else 1, if b.d != 0 then b.d else 1;
    MulCommutes(ka, kb);
    ScaledTerm(a, kb, cd, Scaled(a, b).0);
    ScaledTerm(b, ka, cd, Scaled(a, b).1);
  }

  /** Over a positive denominator, a fraction has the sign of its numerator. */
  lemma RatioSign(n: int, d: int)
    requires d > 0
    ensures n < 0 <==> n as real / d as real < 0.0
    ensures n == 0 <==> n as real / d as real == 0.0
  {
    assert (n as real / d as real) * d as real == n as real;
  }

  lemma PositiveProduct(p: int, q: int)
    requires p > 0 && q > 0
    ensures p * q > 0
  {
  }

  /** On operands in constructor form whose sum is not negative, Go's `Add` returns. */
  lemma AddHaltsOnNonNegative(a: Rational, b: Rational)
    requires Proper(a) && Proper(b) && a.d >= 0 && b.d >= 0
    requires Val(a) + Val(b) >= 0.0
    ensures AddHalts(a, b)
  {
    var cd := CommonDenominator(a, b);
    var s := Scaled(a, b);
    ScaledValue(a, b);
    NumeratorSum(s.0, s.1, cd);
    RatioSign(s.0 + s.1, cd);
    HaltsOnNonNegative(s.0 + s.1, cd);
  }

  /** Go's `a.Sub(b)` returns when `a` is at least `b`: the difference is not negative. */
  lemma SubHaltsWhenNotBelow(a: Rational, b: Rational)
    requires Proper(a) && Proper(b) && a.d >= 0 && b.d >= 0
    requires Val(a) >= Val(b)
    ensures SubHalts(a, b)
  {
    var cd := CommonDenominator(a, b);
    var s := Scaled(a, b);
    ScaledValue(a, b);
    NumeratorDiff(s.0, s.1, cd);
    RatioSign(s.0 - s.1, cd);
    HaltsOnNonNegative(s.0 - s.1, cd);
  }

  /** Go's `Multiply` returns on two non-negative numbers. */
  lemma MultiplyHaltsOnNonNegative(a: Rational, b: Rational)
    requires a.d >= 0 && b.d >= 0 && Val(a) >= 0.0 && Val(b) >= 0.0
    ensures MultiplyHalts(a, b)
  {
    var fa, fb := Fraction(a), Fraction(b);
    RatioSign(fa.0, fa.1);
    RatioSign(fb.0, fb.1);
    PositiveProduct(fa.1, fb.1);
    HaltsOnNonNegative(fa.0 * fb.0, fa.1 * fb.1);
  }

  /** Go's `Divide` returns on a non-negative number over a positive one. */
  lemma DivideHaltsOnPositive(a: Rational, b: Rational)
    requires a.d >= 0 && b.d >= 0 && Val(a) >= 0.0 && Val(b) > 0.0
    ensures DivideHalts(a, b)
  {
    var fa, fb := Fraction(a), Fraction(b);
    RatioSign(fa.0, fa.1);
    RatioSign(fb.0, fb.1);
    PositiveProduct(fa.1, fb.0);
    HaltsOnNonNegative(fa.0 * fb.1, fa.1 * fb.0);
  }

  /** Go's `Divide` returns when the divisor stands for 0: `New` does nothing with a zero denominator. */
  lemma DivideHaltsOnZero(a: Rational, b: Rational)
    requires Val(b) == 0.0
    ensures DivideHalts(a, b)
  {
    var fb := Fraction(b);
    assert fb.0 == 0;
  }

  /**
    A whole number in the forms the arithmetic produces: no fraction at all,
    or a fraction over 1 such as `{0, -13, 1}`.
  */
  predicate Integral(r: Rational)
  {
    r.d == 0 || r.d == 1
  }

  /**
    On whole numbers the common denominator is 1, Go's gcd is 1, and `Add`,
    `Sub` and `Multiply` always return, with whole numbers again.
  */
  lemma IntegralArithmetic(a: Rational, b: Rational)
    requires Integral(a) && Integral(b)
    ensures AddHalts(a, b) && SubHalts(a, b) && MultiplyHalts(a, b)
    ensures Integral(Add(a, b)) && Integral(Sub(a, b)) && Integral(Multiply(a, b))
  {
    assert CommonDenominator(a, b) == 1;
    var s := Scaled(a, b);
    HaltsOnUnitDenominator(s.0 + s.1);
    HaltsOnUnitDenominator(s.0 - s.1);
    NormalizeInteger(0, s.0 + s.1);
    NormalizeInteger(0, s.0 - s.1);
    var fa, fb := Fraction(a), Fraction(b);
    assert fa.1 == 1 && fb.1 == 1;
    HaltsOnUnitDenominator(fa.0 * fb.0);
    NormalizeInteger(0, fa.0 * fb.0);
  }

  /**
    Ordinary operands on which the source's arithmetic never returns. The sum
    -1 + 1/2, the product -1 · 1/2 and the quotient -1 / 2 all call
    New(0, -1, 2), and the difference 2 - 5 1/4 calls New(0, -13, 4); Go's gcd
    is -1 in both calls, so the reduced denominator comes out negative.
  */
  lemma ArithmeticDiverges()
    ensures Reduce(-1, 2) == (1, -2) && !Halts(-1, 2)
    ensures Reduce(-13, 4) == (13, -4) && !Halts(-13, 4)
    ensures !AddHalts(ParseInt(-1), Rational(0, 1, 2))
    ensures !SubHalts(ParseInt(2), Rational(5, 1, 4))
    ensures !MultiplyHalts(ParseInt(-1), Rational(0, 1, 2))
    ensures !DivideHalts(ParseInt(-1), ParseInt(2))
  {
    assert Rem(-1, 2) == -1 && Rem(2, -1) == 0;
    assert Euclid(-1, 2) == Euclid(2, -1) == Euclid(-1, 0) == -1;
    QuotByUnit(-1);
    QuotByUnit(2);
    assert Rem(-13, 4) == -1 && Rem(4, -1) == 0;
    assert Euclid(-13, 4) == Euclid(4, -1) == Euclid(-1, 0) == -1;
    QuotByUnit(-13);
    QuotByUnit(4);
    assert Scaled(ParseInt(-1), Rational(0, 1, 2)) == (-2, 1);
    assert Scaled(ParseInt(2), Rational(5, 1, 4)) == (8, 21);
  }

  // ---------------------------------------------------------------------------
  // ParseFloat, from the formatted decimal text onward

  /** Why `ParseFloat` gives up: not exactly one '.', or a part `strconv` rejects. */
  datatype ParseError = WrongInput | BadNumber(e: NumError)

  /** `math.Pow10(k)` for the non-negative exponents `ParseFloat` uses. */
  function Pow10(k: nat): (p: nat)
    ensures p > 0
  {
    if k == 0 then 1 else 10 * Pow10(k - 1)
  }

  /**
    Lines 52-68 of `ParseFloat`, on the text `s` that `fmt.Sprintf("%f", f)`
    printed: split at '.', read the integer part with `strconv.Atoi` and the
    fraction digits with `strconv.ParseInt`, and take `10^len(fraction)` as the
    denominator.
  */
  function DecimalParts(s: string): (r: Result<(int, int, int), ParseError>)
    ensures r.Ok? ==> |s| > 0 && r.value.2 > 0
    ensures r.Ok? && r.value.0 < 0 ==> s[0] == '-'
  {
    var sl := Split(s, '.');
    if |sl| != 2 then Err(WrongInput)
    else
      match Atoi(sl[0])
      case Err(e) => Err(BadNumber(e))
      case Ok(i) =>
        match Atoi(sl[1])
        case Err(e) => Err(BadNumber(e))
        case Ok(n) =>
          SplitJoin(s, '.');
          assert s == sl[0] + ['.'] + sl[1];
          Ok((i, n, Pow10(|sl[1]|) as int))
  }

  /**
    `ParseFloat` (rational.go:50-70) from the formatted text onward: the parts
    handed to `New(i, n, d)`. The sign of the integer text is not carried over
    to the fraction.
  */
  function ParseFloat(s: string): (r: Result<Rational, ParseError>)
    ensures r.Ok? ==> Reduced(r.value)
    ensures r.Err? <==> DecimalParts(s).Err?
  {
    match DecimalParts(s)
    case Err(e) => Err(e)
    case Ok((i, n, d)) =>
      NormalizeReduced(i, n, d);
      Ok(Normalize(i, n, d))
  }

  /**
    `ParseFloat` with the sign corrected: when the text starts with '-', the
    fraction is subtracted from the integer part rather than added.
  */
  function ParseDecimal(s: string): (r: Result<Rational, ParseError>)
    ensures r.Ok? ==> Reduced(r.value)
    ensures r.Err? <==> DecimalParts(s).Err?
  {
    match DecimalParts(s)
    case Err(e) => Err(e)
    case Ok((i, n, d)) =>
      var f := if s[0] == '-' then -n else n;
      NormalizeReduced(i, f, d);
      Ok(Normalize(i, f, d))
  }

  /**
    The text `%f` prints for a finite number: an optional '-', at least one
    digit, the '.' at index `p`, and at least one digit.
  */
  predicate IsDecimalAt(s: string, p: nat)
  {
    p < |s| && s[p] == '.' && p + 1 < |s| && AllDigits(s[p + 1..])
    && (var w := if s[0] == '-' then s[1..p] else s[..p]; |w| > 0 && AllDigits(w))
  }

  /** The number such a text denotes. */
  function DecimalValue(s: string, p: nat): real
    requires IsDecimalAt(s, p)
  {
    var neg := s[0] == '-';
    var w := if neg then s[1..p] else s[..p];
    var f := s[p + 1..];
    var m := DigitsValue(w) as real + DigitsValue(f) as real / Pow10(|f|) as real;
    if neg then -m else m
  }

  /** The magnitude of the integer part of a well-formed text. */
  function Whole(s: string, p: nat): nat
    requires IsDecimalAt(s, p)
  {
    DigitsValue(if s[0] == '-' then s[1..p] else s[..p])
  }

  /** The integer part of a well-formed text, as `strconv.Atoi` reads it. */
  lemma WholeText(s: string, p: nat)
    requires IsDecimalAt(s, p)
    ensures '.' !in s[..p]
    ensures Atoi(s[..p]) == Ok(if s[0] == '-' then -(Whole(s, p) as int) else Whole(s, p))
  {
    var w := if s[0] == '-' then s[1..p] else s[..p];
    assert forall k :: 0 <= k < |w| ==> IsDigit(w[k]);
    if s[0] == '-' {
      assert s[..p] == ['-'] + w;
      assert s[..p][1..] == w;
    } else {
      assert IsDigit(w[0]) && s[..p][0] == w[0];
    }
  }

  /** The parts `ParseFloat` reads from a well-formed text. */
  lemma DecimalSplit(s: string, p: nat)
    requires IsDecimalAt(s, p)
    ensures DecimalParts(s) == Ok((if s[0] == '-' then -(Whole(s, p) as int) else Whole(s, p),
      DigitsValue(s[p + 1..]) as int, Pow10(|s| - p - 1) as int))
  {
    var f := s[p + 1..];
    assert s == s[..p] + "." + f;
    WholeText(s, p);
    PartsOf(s[..p], f);
  }

  /** On the text of a non-negative number, `ParseFloat` is exact, and agrees with `ParseDecimal`. */
  lemma ParseFloatValue(s: string, p: nat)
    requires IsDecimalAt(s, p) && s[0] != '-'
    ensures ParseFloat(s).Ok? && ParseFloat(s) == ParseDecimal(s)
    ensures Val(ParseFloat(s).value) == DecimalValue(s, p)
  {
    DecimalSplit(s, p);
    NormalizeValue(Whole(s, p), DigitsValue(s[p + 1..]), Pow10(|s| - p - 1));
  }

  lemma NegatedNormalize(w: int, f: int, d: int)
    requires d > 0
    ensures Val(Normalize(-w, -f, d)) == -(w as real + f as real / d as real)
  {
    NormalizeValue(-w, -f, d);
    NegRatio(f as real, d as real);
  }

  lemma NegRatio(x: real, y: real)
    requires y != 0.0
    ensures (-x) / y == -(x / y)
  {
  }

  /** What `ParseDecimal` hands to `Normalize` on a well-formed text. */
  lemma ParseDecimalParts(s: string, p: nat)
    requires IsDecimalAt(s, p)
    ensures var neg := s[0] == '-';
      var w, f := Whole(s, p), DigitsValue(s[p + 1..]);
      ParseDecimal(s) == Ok(Normalize(if neg then -(w as int) else w, if neg then -(f as int) else f, Pow10(|s| - p - 1)))
  {
    DecimalSplit(s, p);
    var neg := s[0] == '-';
    var w: int := if neg then -(Whole(s, p) as int) else Whole(s, p);
    ParseDecimalOfParts(s, w, DigitsValue(s[p + 1..]), Pow10(|s| - p - 1));
  }

  lemma ParseDecimalOfParts(s: string, i: int, n: int, d: int)
    requires DecimalParts(s) == Ok((i, n, d))
    ensures ParseDecimal(s) == Ok(Normalize(i, if s[0] == '-' then -n else n, d))
  {
  }

  /** The corrected parser is exact on the text of every number, negative ones included. */
  lemma ParseDecimalValue(s: string, p: nat)
    requires IsDecimalAt(s, p)
    ensures ParseDecimal(s).Ok?
    ensures Val(ParseDecimal(s).value) == DecimalValue(s, p)
  {
    ParseDecimalParts(s, p);
    DecimalValueParts(s, p);
    ParsedValue(ParseDecimal(s).value, DecimalValue(s, p), s[0] == '-', Whole(s, p), DigitsValue(s[p + 1..]), Pow10(|s| - p - 1));
  }

  lemma ParsedValue(r: Rational, v: real, neg: bool, w: nat, f: nat, d: nat)
    requires d > 0
    requires r == Normalize(if neg then -(w as int) else w, if neg then -(f as int) else f, d)
    requires var m := w as real + f as real / d as real; v == if neg then -m else m
    ensures Val(r) == v
  {
    if neg {
      NegatedNormalize(w, f, d);
    } else {
      NormalizeValue(w, f, d);
    }
  }

  /** `DecimalValue` in terms of the integer part, the fraction digits and their scale. */
  lemma DecimalValueParts(s: string, p: nat)
    requires IsDecimalAt(s, p)
    ensures var m := Whole(s, p) as real + DigitsValue(s[p + 1..]) as real / Pow10(|s| - p - 1) as real;
      DecimalValue(s, p) == if s[0] == '-' then -m else m
  {
    assert |s[p + 1..]| == |s| - p - 1;
  }

  lemma PartsSplit(w: string, f: string)
    requires '.' !in w && |f| > 0 && AllDigits(f)
    ensures Split(w + "." + f, '.') == [w, f]
    ensures Atoi(f) == Ok(DigitsValue(f) as int)
  {
    var s := w + "." + f;
    assert s[..|w|] == w && s[|w| + 1..] == f;
    assert forall k :: 0 <= k < |f| ==> IsDigit(f[k]);
    SplitOnce(s, '.', |w|);
    assert IsDigit(f[0]);
  }

  /** The parts of an integer text `w`, a '.', and fraction digits `f`. */
  lemma PartsOf(w: string, f: string)
    requires '.' !in w && Atoi(w).Ok? && |f| > 0 && AllDigits(f)
    ensures DecimalParts(w + "." + f) == Ok((Atoi(w).value, DigitsValue(f) as int, Pow10(|f|) as int))
  {
    PartsSplit(w, f);
    var sl := Split(w + "." + f, '.');
    assert sl[0] == w && sl[1] == f;
  }

  /** `ParseFloat` on the text of an integer part, a '.', and fraction digits. */
  lemma ParsedParts(w: string, f: string)
    requires '.' !in w && Atoi(w).Ok? && |f| > 0 && AllDigits(f)
    ensures ParseFloat(w + "." + f) == Ok(Normalize(Atoi(w).value, DigitsValue(f), Pow10(|f|)))
  {
    PartsOf(w, f);
  }

  lemma Texts()
    ensures "4" + "." + "750000" == "4.750000" && "4" + "." + "630000" == "4.630000"
    ensures "-4" + "." + "750000" == "-4.750000" && "-0" + "." + "500000" == "-0.500000"
  {
  }

  /**
    The finding on negative numbers: "-4.750000", the text `%f` prints for
    -4.75, becomes -4 + 3/4 = -13/4, and "-0.500000" loses its sign altogether.
  */
  lemma ParseFloatNegative()
    ensures IsDecimalAt("-4.750000", 2) && DecimalValue("-4.750000", 2) == -19.0 / 4.0
    ensures ParseFloat("-4.750000") == Ok(Rational(-4, 3, 4)) && Val(Rational(-4, 3, 4)) == -13.0 / 4.0
    ensures ParseDecimal("-4.750000") == Ok(Rational(-4, -3, 4))
    ensures IsDecimalAt("-0.500000", 2) && ParseFloat("-0.500000") == Ok(Rational(0, 1, 2))
  {
    NegativeQuarters();
    NegativeQuartersValue();
    NegativeHalf();
  }

  lemma NegativeQuarters()
    ensures ParseFloat("-4.750000") == Ok(Rational(-4, 3, 4))
    ensures ParseDecimal("-4.750000") == Ok(Rational(-4, -3, 4))
  {
    assert Atoi("-4") == Ok(-4);
    FractionDigits750000();
    ParsedParts("-4", "750000");
    PartsOf("-4", "750000");
    Texts();
    EuclidExample750000();
  }

  lemma NegativeQuartersValue()
    ensures IsDecimalAt("-4.750000", 2) && DecimalValue("-4.750000", 2) == -19.0 / 4.0
    ensures Val(Rational(-4, 3, 4)) == -13.0 / 4.0
  {
    var s := "-4.750000";
    assert s[1..2] == "4" && s[3..] == "750000";
    FractionDigits750000();
    assert AllDigits("750000");
    assert IsDecimalAt(s, 2);
    assert DigitsValue("4") == 4;
    assert |s[3..]| == 6;
    assert DecimalValue(s, 2) == -(4 as real + 750000 as real / 1000000 as real);
  }

  lemma NegativeHalf()
    ensures IsDecimalAt("-0.500000", 2) && ParseFloat("-0.500000") == Ok(Rational(0, 1, 2))
  {
    assert Atoi("-0") == Ok(0);
    FractionDigits500000();
    ParsedParts("-0", "500000");
    Texts();
    NegativeHalfShape();
  }

  lemma NegativeHalfShape()
    ensures IsDecimalAt("-0.500000", 2)
  {
    var t := "-0.500000";
    assert t[1..2] == "0" && t[3..] == "500000";
    FractionDigits500000();
  }

  lemma FractionDigits500000()
    ensures AllDigits("500000") && DigitsValue("500000") == 500000 && Pow10(6) == 1000000
    ensures Normalize(0, 500000, 1000000) == Rational(0, 1, 2)
  {
    assert "500000"[..5] == "50000" && "50000"[..4] == "5000" && "5000"[..3] == "500";
    assert "500"[..2] == "50" && "50"[..1] == "5";
    assert Rem(500000, 1000000) == 500000 && Rem(1000000, 500000) == 0;
    assert Euclid(500000, 1000000) == Euclid(1000000, 500000) == Euclid(500000, 0) == 500000;
    assert Quot(500000, 500000) == 1 && Quot(1000000, 500000) == 2;
  }

  lemma FractionDigits750000()
    ensures AllDigits("750000") && DigitsValue("750000") == 750000 && Pow10(6) == 1000000
  {
    assert "750000"[..5] == "75000" && "75000"[..4] == "7500" && "7500"[..3] == "750";
    assert "750"[..2] == "75" && "75"[..1] == "7";
  }

  lemma EuclidExample750000()
    ensures Normalize(4, 750000, 1000000) == Rational(4, 3, 4)
    ensures Normalize(-4, 750000, 1000000) == Rational(-4, 3, 4)
    ensures Normalize(-4, -750000, 1000000) == Rational(-4, -3, 4)
  {
    assert Rem(750000, 1000000) == 750000 && Rem(1000000, 750000) == 250000;
    assert Rem(750000, 250000) == 0;
    assert Euclid(750000, 1000000) == Euclid(1000000, 750000) == Euclid(750000, 250000) == Euclid(250000, 0);
    assert Rem(-750000, 1000000) == -750000 && Rem(1000000, -750000) == 250000;
    assert Rem(-750000, 250000) == 0;
    assert Euclid(-750000, 1000000) == Euclid(1000000, -750000) == Euclid(-750000, 250000) == Euclid(250000, 0);
    assert Quot(750000, 250000) == 3 && Quot(1000000, 250000) == 4 && Quot(-750000, 250000) == -3;
    assert Reduce(750000, 1000000) == (3, 4) && Reduce(-750000, 1000000) == (-3, 4);
  }

  /** The examples of rational_test.go:9-25 and 45-52, from the text `%f` prints. */
  lemma ParseFloatExamples()
    ensures ParseFloat("4.750000") == Ok(Rational(4, 3, 4))
    ensures ParseFloat("4.630000") == Ok(Normalize(4, 63, 100))
  {
    ParseQuarters();
    ParseHundredths();
  }

  lemma ParseQuarters()
    ensures ParseFloat("4.750000") == Ok(Rational(4, 3, 4))
  {
    assert Atoi("4") == Ok(4);
    FractionDigits750000();
    ParsedParts("4", "750000");
    Texts();
    EuclidExample750000();
  }

  lemma ParseHundredths()
    ensures ParseFloat("4.630000") == Ok(Normalize(4, 63, 100))
  {
    assert Atoi("4") == Ok(4);
    FractionDigits630000();
    ParsedParts("4", "630000");
    Texts();
  }

  lemma FractionDigits630000()
    ensures AllDigits("630000") && DigitsValue("630000") == 630000 && Pow10(6) == 1000000
    ensures Normalize(4, 630000, 1000000) == Normalize(4, 63, 100) == Rational(4, 63, 100)
  {
    assert "630000"[..5] == "63000" && "63000"[..4] == "6300" && "6300"[..3] == "630";
    assert "630"[..2] == "63" && "63"[..1] == "6";
    EuclidExample630000();
    assert Rem(63, 100) == 63 && Rem(100, 63) == 37 && Rem(63, 37) == 26 && Rem(37, 26) == 11;
    assert Rem(26, 11) == 4 && Rem(11, 4) == 3 && Rem(4, 3) == 1 && Rem(3, 1) == 0;
    assert Euclid(63, 100) == Euclid(100, 63) == Euclid(63, 37) == Euclid(37, 26) == Euclid(26, 11);
    assert Euclid(26, 11) == Euclid(11, 4) == Euclid(4, 3) == Euclid(3, 1) == Euclid(1, 0) == 1;
    QuotByUnit(63);
    QuotByUnit(100);
  }

  lemma EuclidExample630000()
    ensures Reduce(630000, 1000000) == (63, 100)
  {
    assert Rem(630000, 1000000) == 630000 && Rem(1000000, 630000) == 370000;
    assert Rem(630000, 370000) == 260000 && Rem(370000, 260000) == 110000;
    assert Rem(260000, 110000) == 40000 && Rem(110000, 40000) == 30000;
    assert Rem(40000, 30000) == 10000 && Rem(30000, 10000) == 0;
    assert Euclid(630000, 1000000) == Euclid(1000000, 630000) == Euclid(630000, 370000) == Euclid(370000, 260000);
    assert Euclid(370000, 260000) == Euclid(260000, 110000) == Euclid(110000, 40000) == Euclid(40000, 30000);
    assert Euclid(40000, 30000) == Euclid(30000, 10000) == Euclid(10000, 0) == 10000;
    assert Quot(630000, 10000) == 63 && Quot(1000000, 10000) == 100;
  }

  // ---------------------------------------------------------------------------
  // String

  lemma FlipKeepsValue(r: Rational)
    ensures r.d != 0 ==> Val(Rational(r.i, -r.n, -r.d)) == Val(r)
  {
    if r.d != 0 {
      CrossRatio(r.n, r.d, -r.n, -r.d);
    }
  }

  /** What `String` returns, with the receiver as `String` leaves it. */
  datatype Rendered = Rendered(text: string, receiver: Rational)

  /**
    `r.String()` (rational.go:152-171): "i", "n/d" or "i + n/d", and "0" when
    both parts are zero. A negative denominator is first negated in place,
    together with the numerator.
  */
  function String(r: Rational): (out: Rendered)
    ensures out.receiver.i == r.i && Val(out.receiver) == Val(r)
    ensures out.receiver == (if r.n != 0 && r.d < 0 then Rational(r.i, -r.n, -r.d) else r)
    ensures out.text == "0" <==> r.i == 0 && r.n == 0
  {
    var flip := r.n != 0 && r.d < 0;
    var rr := if flip then Rational(r.i, -r.n, -r.d) else r;
    FlipKeepsValue(r);
    var s := (if r.i != 0 then FormatInt(r.i) else "")
      + (if r.n != 0 then (if r.i != 0 then " + " else "") + FormatInt(rr.n) + "/" + FormatInt(rr.d) else "");
    FormatIntAlphabet(r.i);
    FormatIntAlphabet(rr.n);
    Rendered(if |s| == 0 then "0" else s, rr)
  }

  /** Reads "n/d" back. */
  function ScanFraction(t: string): Option<(int, int)>
  {
    var parts := Split(t, '/');
    if |parts| != 2 then None
    else
      match (Atoi(parts[0]), Atoi(parts[1]))
      case (Ok(n), Ok(d)) => Some((n, d))
      case _ => None
  }

  /** Reads the text `String` writes back as a value: "i", "n/d" or "i + n/d". */
  function Scan(t: string): Option<Rational>
  {
    var parts := Split(t, ' ');
    if |parts| == 3 && parts[1] == "+" then
      match (Atoi(parts[0]), ScanFraction(parts[2]))
      case (Ok(i), Some((n, d))) => Some(Rational(i, n, d))
      case _ => None
    else if |parts| == 1 && '/' in t then
      match ScanFraction(t)
      case Some((n, d)) => Some(Rational(0, n, d))
      case None => None
    else if |parts| == 1 then
      match Atoi(t)
      case Ok(i) => Some(Rational(i, 0, 0))
      case Err(_) => None
    else None
  }

  /** `FormatInt` writes neither a space nor a slash. */
  lemma FormatIntPlain(x: int)
    ensures |FormatInt(x)| > 0 && ' ' !in FormatInt(x) && '/' !in FormatInt(x)
  {
    FormatIntAlphabet(x);
  }

  lemma ScanFractionText(n: int, d: int)
    ensures ScanFraction(FormatInt(n) + "/" + FormatInt(d)) == Some((n, d))
    ensures ' ' !in FormatInt(n) + "/" + FormatInt(d) && '/' in FormatInt(n) + "/" + FormatInt(d)
  {
    FormatIntPlain(n);
    FormatIntPlain(d);
    var a, b := FormatInt(n), FormatInt(d);
    assert a + "/" + b == a + ['/'] + b;
    SplitAfter(a, '/', b);
    SplitNone(b, '/');
    FormatIntRoundTrip(n);
    FormatIntRoundTrip(d);
    assert (a + "/" + b)[|a|] == '/';
  }

  /**
    What `String` writes, `Scan` reads back: the receiver as `String` left it,
    except that a zero numerator is read as no fraction at all. Either way the
    number is the same.
  */
  lemma StringScan(r: Rational)
    ensures Scan(String(r).text) == Some(if r.n == 0 then Rational(r.i, 0, 0) else String(r).receiver)
    ensures Val(Scan(String(r).text).value) == Val(r)
  {
    var rr := String(r).receiver;
    if r.n == 0 {
      ScanWhole(r);
      ZeroNumeratorValue(r);
    } else if r.i == 0 {
      assert String(r).text == FormatInt(rr.n) + "/" + FormatInt(rr.d);
      ScanFractionOnly(r.i, rr.n, rr.d);
    } else {
      assert String(r).text == FormatInt(r.i) + " + " + FormatInt(rr.n) + "/" + FormatInt(rr.d);
      ScanMixed(r.i, rr.n, rr.d);
    }
  }

  lemma ZeroNumeratorValue(r: Rational)
    requires r.n == 0
    ensures Val(r) == r.i as real == Val(Rational(r.i, 0, 0))
  {
  }

  lemma ScanWhole(r: Rational)
    requires r.n == 0
    ensures Scan(String(r).text) == Some(Rational(r.i, 0, 0))
  {
    if r.i == 0 {
      SplitNone("0", ' ');
      assert Atoi("0") == Ok(0);
    } else {
      FormatIntPlain(r.i);
      assert String(r).text == FormatInt(r.i);
      SplitNone(FormatInt(r.i), ' ');
      FormatIntRoundTrip(r.i);
    }
  }

  lemma ScanFractionOnly(i: int, n: int, d: int)
    requires i == 0
    ensures Scan(FormatInt(n) + "/" + FormatInt(d)) == Some(Rational(i, n, d))
  {
    var f := FormatInt(n) + "/" + FormatInt(d);
    ScanFractionText(n, d);
    SplitNone(f, ' ');
  }

  /** The text "i + n/d" splits at its two spaces into the integer, the plus sign and the fraction. */
  lemma MixedPieces(a: string, f: string)
    requires ' ' !in a && ' ' !in f
    ensures Split(a + " + " + f, ' ') == [a, "+", f]
  {
    assert a + " + " + f == a + [' '] + ("+" + [' '] + f);
    SplitAfter(a, ' ', "+" + [' '] + f);
    SplitAfter("+", ' ', f);
    SplitNone(f, ' ');
  }

  lemma ScanMixed(i: int, n: int, d: int)
    ensures Scan(FormatInt(i) + " + " + FormatInt(n) + "/" + FormatInt(d)) == Some(Rational(i, n, d))
  {
    var f := FormatInt(n) + "/" + FormatInt(d);
    var a := FormatInt(i);
    ScanFractionText(n, d);
    FormatIntPlain(i);
    FormatIntRoundTrip(i);
    assert a + " + " + FormatInt(n) + "/" + FormatInt(d) == a + " + " + f;
    MixedPieces(a, f);
  }

  /** The renderings rational_test.go:9-25 checks, as text. */
  lemma StringExamples()
    ensures String(Rational(15, 0, 0)).text == "15"
    ensures String(Rational(4, 3, 4)).text == "4 + 3/4"
    ensures String(Rational(0, 1, -2)) == Rendered("-1/2", Rational(0, -1, 2))
  {
    assert FormatInt(15) == Digits(1) + [DigitChar(5)] == "15";
    assert FormatInt(-1) == "-1";
  }

  lemma EuclidSixEighths()
    ensures Normalize(5, 6, 8) == Rational(5, 3, 4) && Normalize(7, 6, 8) == Rational(7, 3, 4)
    ensures Normalize(3, 6, 8) == Rational(3, 3, 4)
  {
    assert Rem(6, 8) == 6 && Rem(8, 6) == 2 && Rem(6, 2) == 0;
    assert Euclid(6, 8) == Euclid(8, 6) == Euclid(6, 2) == Euclid(2, 0) == 2;
    assert Reduce(6, 8) == (3, 4);
  }

  /** The first row of each table in rational_test.go:54-164: 5 6/8 against 2. */
  lemma ArithmeticExamples()
    ensures Add(Normalize(5, 6, 8), Normalize(2, 0, 0)) == Normalize(7, 6, 8)
    ensures Sub(Normalize(5, 6, 8), Normalize(2, 0, 0)) == Normalize(3, 6, 8)
    ensures Multiply(Normalize(5, 6, 8), Normalize(2, 0, 0)) == Rational(11, 1, 2)
    ensures Divide(Normalize(5, 6, 8), Normalize(2, 0, 0)) == Rational(2, 7, 8)
  {
    EuclidSixEighths();
    var a, b := Rational(5, 3, 4), Rational(2, 0, 0);
    assert Add(a, b) == Normalize(0, 31, 4);
    assert Rem(31, 4) == 3 && Rem(4, 3) == 1 && Rem(3, 1) == 0;
    assert Euclid(31, 4) == Euclid(4, 3) == Euclid(3, 1) == Euclid(1, 0) == 1;
    QuotByUnit(31);
    QuotByUnit(4);
    assert Sub(a, b) == Normalize(0, 15, 4);
    assert Rem(15, 4) == 3;
    assert Euclid(15, 4) == Euclid(4, 3) == 1;
    QuotByUnit(15);
    assert Multiply(a, b) == Normalize(0, 46, 4);
    assert Rem(46, 4) == 2 && Rem(4, 2) == 0;
    assert Euclid(46, 4) == Euclid(4, 2) == Euclid(2, 0) == 2;
    assert Reduce(46, 4) == (23, 2);
    assert Divide(a, b) == Normalize(0, 23, 8);
    assert Rem(23, 8) == 7 && Rem(8, 7) == 1 && Rem(7, 1) == 0;
    assert Euclid(23, 8) == Euclid(8, 7) == Euclid(7, 1) == Euclid(1, 0) == 1;
    QuotByUnit(23);
    QuotByUnit(8);
  }

  /** With denominator 1 New makes a whole number of a non-negative `n` and leaves a negative one as the fraction `n/1`. */
  lemma NormalizeInteger(i: int, n: int)
    ensures Normalize(i, n, 1) == if n >= 0 then Rational(i + n, 0, 0) else Rational(i, n, 1)
  {
    HaltsOnUnitDenominator(n);
    if n >= 0 {
      DivModUnique(n, 1, n, 0);
    }
  }

  /**
    On whole numbers the operations compute the integer result, but a negative
    result stays a fraction over 1: `Sub(8, 21)` is `{0, -13, 1}`, not
    `ParseInt(-13)`.
  */
  lemma IntegerAdd(x: int, y: int)
    ensures Add(ParseInt(x), ParseInt(y)) == if x + y >= 0 then ParseInt(x + y) else Rational(0, x + y, 1)
  {
    assert CommonDenominator(ParseInt(x), ParseInt(y)) == 1;
    assert Add(ParseInt(x), ParseInt(y)) == Normalize(0, x + y, 1);
    NormalizeInteger(0, x + y);
  }

  lemma IntegerSub(x: int, y: int)
    ensures Sub(ParseInt(x), ParseInt(y)) == if x - y >= 0 then ParseInt(x - y) else Rational(0, x - y, 1)
  {
    assert CommonDenominator(ParseInt(x), ParseInt(y)) == 1;
    assert Sub(ParseInt(x), ParseInt(y)) == Normalize(0, x - y, 1);
    NormalizeInteger(0, x - y);
  }

  lemma IntegerMultiply(x: int, y: int)
    ensures Multiply(ParseInt(x), ParseInt(y)) == if x * y >= 0 then ParseInt(x * y) else Rational(0, x * y, 1)
  {
    assert Multiply(ParseInt(x), ParseInt(y)) == Normalize(0, x * y, 1);
    NormalizeInteger(0, x * y);
  }
}
