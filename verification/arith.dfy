/** Integer helpers shared by the coordinate codec: powers of ten, the
    truncating quotient and remainder that Python's `Decimal` uses, and the
    greatest common divisor with which `as_integer_ratio` reduces a fraction. */
module Arith {

  function Abs(x: int): (a: nat)
    ensures a == x || a == -x
  {
    if x < 0 then -x else x
  }

  function RealAbs(x: real): (a: real)
    ensures a >= 0.0
    ensures a == x || a == -x
  {
    if x < 0.0 then -x else x
  }

  function Pow10(k: nat): (p: nat)
    ensures p >= 1
  {
    if k == 0 then 1 else 10 * Pow10(k - 1)
  }

  lemma {:induction false} Pow10Add(a: nat, b: nat)
    ensures Pow10(a + b) == Pow10(a) * Pow10(b)
  {
    if b > 0 {
      Pow10Add(a, b - 1);
      calc {
        Pow10(a + b);
        10 * Pow10(a + b - 1);
        10 * (Pow10(a) * Pow10(b - 1));
        Pow10(a) * (10 * Pow10(b - 1));
      }
    }
  }

  /** Quotient rounded toward zero: what `int()` of a `Decimal` returns and the
      quotient that `Decimal`'s `%` pairs with. */
  function TruncDiv(a: int, b: int): (q: int)
    requires b > 0
    ensures Abs(q) == Abs(a) / b
    ensures a >= 0 ==> q >= 0
    ensures a <= 0 ==> q <= 0
  {
    if a >= 0 then
      a / b
    else
      var n: nat := -a;
      var d := n / b;
      assert d >= 0;
      assert Abs(a) == n && Abs(-d) == d;
      -d
  }

  /** Remainder that takes the sign of the dividend, as `Decimal`'s `%` does
      (unlike Python's `%` on `int`, which floors). */
  function TruncMod(a: int, b: int): (r: int)
    requires b > 0
    ensures Abs(r) == Abs(a) % b
    ensures a >= 0 ==> r >= 0
    ensures a <= 0 ==> r <= 0
  {
    a - b * TruncDiv(a, b)
  }

  lemma TruncNeg(a: int, b: int)
    requires b > 0
    ensures TruncDiv(-a, b) == -TruncDiv(a, b)
    ensures TruncMod(-a, b) == -TruncMod(a, b)
  {
  }

  /** `c` is a positive divisor of `n`. */
  predicate Divides(c: int, n: int)
  {
    c > 0 && n % c == 0
  }

  /** The fraction `n/d` is in lowest terms with a positive denominator. */
  ghost predicate LowestTerms(n: int, d: int)
  {
    d > 0 && forall c :: Divides(c, n) && Divides(c, d) ==> c == 1
  }

  /** Euclid's algorithm; `Gcd(0, 0) == 0`, and `Gcd(0, d) == d`, which is
      what makes a zero numerator reduce to `0/1`. */
  function Gcd(a: nat, b: nat): (g: nat)
    ensures g == 0 <==> a == 0 && b == 0
    decreases b
  {
    if b == 0 then a else Gcd(b, a % b)
  }

  lemma MulLowerBound(b: nat, x: int)
    requires x >= 1
    ensures b * x >= b
  {
  }

  /** Division with remainder has exactly one answer. */
  lemma DivModUnique(a: int, b: int, q: int, r: int)
    requires b > 0
    requires 0 <= r < b
    requires a == b * q + r
    ensures a / b == q
    ensures a % b == r
  {
    var q0, r0 := a / b, a % b;
    assert b * (q - q0) == r0 - r;
    if q > q0 {
      MulLowerBound(b, q - q0);
    } else if q < q0 {
      MulLowerBound(b, q0 - q);
    }
  }

  lemma MulMod(c: int, x: int)
    requires c > 0
    ensures (c * x) % c == 0
    ensures (c * x) / c == x
  {
    DivModUnique(c * x, c, x, 0);
  }

  lemma DividesFactor(c: int, n: int)
    requires Divides(c, n)
    ensures n == c * (n / c)
  {
  }

  /** A common divisor of `a` and `b` also divides `a % b`. */
  lemma DividesMod(c: int, a: nat, b: nat)
    requires b > 0
    requires Divides(c, a) && Divides(c, b)
    ensures Divides(c, a % b)
  {
    var a', b' := a / c, b / c;
    DividesFactor(c, a);
    DividesFactor(c, b);
    calc {
      a % b;
      a - b * (a / b);
      c * a' - c * b' * (a / b);
      c * (a' - b' * (a / b));
    }
    MulMod(c, a' - b' * (a / b));
  }

  /** A common divisor of `b` and `a % b` also divides `a`. */
  lemma DividesRecombine(c: int, a: nat, b: nat)
    requires b > 0
    requires Divides(c, b) && Divides(c, a % b)
    ensures Divides(c, a)
  {
    var b', r' := b / c, (a % b) / c;
    DividesFactor(c, b);
    DividesFactor(c, a % b);
    calc {
      a;
      b * (a / b) + a % b;
      c * b' * (a / b) + c * r';
      c * (b' * (a / b) + r');
    }
    MulMod(c, b' * (a / b) + r');
  }

  lemma {:induction false} GcdDivides(a: nat, b: nat)
    requires a > 0 || b > 0
    ensures Divides(Gcd(a, b), a) && Divides(Gcd(a, b), b)
    decreases b
  {
    if b == 0 {
      MulMod(a, 1);
    } else {
      GcdDivides(b, a % b);
      DividesRecombine(Gcd(a, b), a, b);
    }
  }

  /** Every common divisor divides the greatest one. */
  lemma {:induction false} GcdGreatest(c: int, a: nat, b: nat)
    requires Divides(c, a) && Divides(c, b)
    ensures Divides(c, Gcd(a, b))
    decreases b
  {
    if b > 0 {
      DividesMod(c, a, b);
      GcdGreatest(c, b, a % b);
    }
  }

  lemma {:induction false} GcdScale(a: nat, b: nat, c: nat)
    requires c > 0
    ensures Gcd(c * a, c * b) == c * Gcd(a, b)
    decreases b
  {
    if b > 0 {
      ScaleMod(a, b, c);
      assert Gcd(c * a, c * b) == Gcd(c * b, c * (a % b));
      GcdScale(b, a % b, c);
    }
  }

  /** Scaling dividend and divisor by `c` scales the remainder by `c`. */
  lemma ScaleMod(a: nat, b: nat, c: nat)
    requires b > 0 && c > 0
    ensures (c * a) % (c * b) == c * (a % b)
  {
    var q, r := a / b, a % b;
    assert 0 <= c * r < c * b by {
      MulLowerBound(c, b - r);
    }
    assert c * a == (c * b) * q + c * r by {
      assert a == b * q + r;
    }
    DivModUnique(c * a, c * b, q, c * r);
  }

  /** Dividing both terms by their gcd leaves a fraction in lowest terms. */
  lemma ReducedIsLowest(n: nat, d: nat)
    requires d > 0
    ensures Gcd(n, d) > 0
    ensures Divides(Gcd(n, d), n) && Divides(Gcd(n, d), d)
    ensures LowestTerms(n / Gcd(n, d), d / Gcd(n, d))
  {
    var g := Gcd(n, d);
    GcdDivides(n, d);
    var n', d' := n / g, d / g;
    DividesFactor(g, n);
    DividesFactor(g, d);
    assert d' > 0;
    GcdScale(n', d', g);
    assert g * Gcd(n', d') == g * 1;
    MulMod(g, Gcd(n', d'));
    MulMod(g, 1);
    assert Gcd(n', d') == 1;
    forall c | Divides(c, n') && Divides(c, d')
      ensures c == 1
    {
      GcdGreatest(c, n', d');
    }
  }
}
