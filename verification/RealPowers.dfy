// Powers of two and ten with any integer exponent, as exact reals.
module RealPowers {
  import opened Powers

  function RPow(b: nat, e: int): (r: real)
    requires b > 0
    ensures r > 0.0
  {
    if e >= 0 then Pow(b, e) as real else 1.0 / (Pow(b, -e) as real)
  }

  function Two(e: int): (r: real)
    ensures r > 0.0
  {
    RPow(2, e)
  }

  function Ten(e: int): (r: real)
    ensures r > 0.0
  {
    RPow(10, e)
  }

  lemma {:induction false} RealProductNat(a: nat, b: int)
    ensures (a * b) as real == (a as real) * (b as real)
  {
    if a > 0 {
      RealProductNat(a - 1, b);
      assert a * b == (a - 1) * b + b;
      assert (a as real) * (b as real) == ((a - 1) as real) * (b as real) + (b as real);
    }
  }

  /** Integer products are real products. */
  lemma RealProduct(a: int, b: int)
    ensures (a * b) as real == (a as real) * (b as real)
  {
    if a >= 0 {
      RealProductNat(a, b);
    } else {
      RealProductNat(-a, b);
      assert a * b == -((-a) * b);
    }
  }

  lemma RMulAssoc(a: real, b: real, c: real)
    ensures a * b * c == a * (b * c) == b * (a * c)
  {
  }

  lemma RMulMono(a: real, b: real, c: real)
    requires 0.0 <= c
    ensures a <= b ==> a * c <= b * c
    ensures a < b && c > 0.0 ==> a * c < b * c
  {
  }

  /** x is n units, and so between two other numbers of units. */
  lemma UnitsBetween(n: real, low: real, high: real, u: real, x: real)
    requires low <= n <= high && u > 0.0 && x == n * u
    ensures low * u <= x <= high * u
  {
    assert (n - low) * u >= 0.0 && (high - n) * u >= 0.0;
  }

  lemma RMulCancel(a: real, b: real, c: real)
    requires c > 0.0
    ensures a * c <= b * c <==> a <= b
    ensures a * c < b * c <==> a < b
    ensures a * c == b * c <==> a == b
  {
    if a < b {
      RMulMono(a, b, c);
    } else if b < a {
      RMulMono(b, a, c);
    }
  }

  lemma Inverse(x: real)
    requires x != 0.0
    ensures x * (1.0 / x) == 1.0
  {
  }

  /** One step of the exponent is one factor, on both sides of zero. */
  lemma RPowNext(b: nat, e: int)
    requires b > 0
    ensures RPow(b, e + 1) == (b as real) * RPow(b, e)
  {
    hide Pow;
    if e >= 0 {
      PowNext(b, e);
      RealProduct(b, Pow(b, e));
    } else {
      NegativeNext(b, -(e + 1));
      PowNone(b);
    }
  }

  lemma NegativeNext(b: nat, n: nat)
    requires b > 0
    ensures (b as real) * (1.0 / (Pow(b, n + 1) as real)) == 1.0 / (Pow(b, n) as real)
  {
    RealProduct(b, Pow(b, n));
    InverseStep(b as real, Pow(b, n) as real);
  }

  lemma InverseStep(b: real, p: real)
    requires b > 0.0 && p > 0.0
    ensures b * p > 0.0
    ensures b * (1.0 / (b * p)) == 1.0 / p
  {
    Inverse(b * p);
    Inverse(p);
    var x, y := b * (1.0 / (b * p)), 1.0 / p;
    RMulAssoc(b, p, 1.0 / (b * p));
    RMulAssoc(p, b, 1.0 / (b * p));
    assert x * p == 1.0;
    RMulCancel(x, y, p);
  }

  lemma {:induction false} RPowAdd(b: nat, m: int, n: int)
    requires b > 0
    ensures RPow(b, m + n) == RPow(b, m) * RPow(b, n)
    decreases if n >= 0 then n else -n
  {
    hide RPow, Pow;
    if n == 0 {
      RPowZero(b);
    } else if n > 0 {
      RPowAdd(b, m, n - 1);
      RPowNext(b, m + n - 1);
      RPowNext(b, n - 1);
      RMulAssoc(b as real, RPow(b, m), RPow(b, n - 1));
    } else {
      RPowAdd(b, m, n + 1);
      RPowNext(b, m + n);
      RPowNext(b, n);
      RMulAssoc(b as real, RPow(b, m), RPow(b, n));
      RMulCancel(RPow(b, m + n), RPow(b, m) * RPow(b, n), b as real);
    }
  }

  lemma RPowZero(b: nat)
    requires b > 0
    ensures RPow(b, 0) == 1.0
  {
  }

  lemma {:induction false} RPowMono(b: nat, m: int, n: int)
    requires b > 1 && m <= n
    ensures RPow(b, m) <= RPow(b, n)
    ensures m < n ==> (b as real) * RPow(b, m) <= RPow(b, n)
    decreases n - m
  {
    hide RPow, Pow;
    if m < n {
      RPowMono(b, m, n - 1);
      RPowNext(b, n - 1);
      RMulMono(1.0, b as real, RPow(b, n - 1));
      if m < n - 1 {
        RMulMono(1.0, b as real, RPow(b, n - 1));
      }
    }
  }

  lemma TwoNext(e: int)
    ensures Two(e + 1) == 2.0 * Two(e)
  {
    RPowNext(2, e);
  }

  lemma TwoAdd(m: int, n: int)
    ensures Two(m + n) == Two(m) * Two(n)
  {
    hide RPow;
    RPowAdd(2, m, n);
  }

  lemma TwoNat(n: int)
    requires n >= 0
    ensures Two(n) == Pow(2, n) as real
    ensures Two(-n) * (Pow(2, n) as real) == 1.0
  {
    hide Pow;
    TwoAdd(-n, n);
    RPowZero(2);
  }

  lemma TenNext(e: int)
    ensures Ten(e + 1) == 10.0 * Ten(e)
  {
    RPowNext(10, e);
  }

  lemma TenAdd(m: int, n: int)
    ensures Ten(m + n) == Ten(m) * Ten(n)
  {
    hide RPow;
    RPowAdd(10, m, n);
  }

  lemma TenNat(n: int)
    requires n >= 0
    ensures Ten(n) == Pow(10, n) as real
    ensures Ten(-n) * (Pow(10, n) as real) == 1.0
  {
    hide Pow;
    TenAdd(-n, n);
    RPowZero(10);
  }

  lemma ReciprocalOrder(a: real, b: real, c: real, d: real)
    requires a * b == 1.0 && c * d == 1.0 && a > 0.0 && c > 0.0 && d <= b && d > 0.0
    ensures a <= c
  {
    RMulMono(d, b, a);
    RMulCancel(a, c, d);
  }

  lemma FourFactors(a: real, b: real, c: real, d: real)
    ensures a * b * (c * d) == (a * c) * (b * d)
  {
  }
}
