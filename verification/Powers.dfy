// Integer powers, and the products and bounds the conversion proofs need.
module Powers {

  function Pow(b: nat, n: nat): (p: nat)
    ensures b >= 1 ==> p >= 1
  {
    if n == 0 then 1 else b * Pow(b, n - 1)
  }

  lemma MulMono(a: int, b: int, c: int)
    requires a <= b && 0 <= c
    ensures a * c <= b * c && c * a <= c * b
  {
  }

  lemma MulStrict(a: int, b: int, c: int)
    requires a < b && 0 < c
    ensures a * c < b * c && c * a < c * b
  {
  }

  /** A common positive factor can be dropped from an inequality. */
  lemma MulCancel(a: int, b: int, c: int)
    requires 0 < c
    ensures a * c <= b * c <==> a <= b
    ensures c * a <= c * b <==> a <= b
  {
    if a <= b {
      MulMono(a, b, c);
    } else {
      MulStrict(b, a, c);
    }
  }

  lemma Distribute(f: int, a: int, b: int)
    ensures f * (a + b) == f * a + f * b
    ensures (a + b) * f == a * f + b * f
  {
  }

  lemma MulAssoc(a: int, b: int, c: int)
    ensures a * b * c == a * (b * c) == b * (a * c) == (a * c) * b
  {
  }

  lemma PowNone(b: nat)
    ensures Pow(b, 0) == 1
  {
  }

  lemma PowNext(b: nat, n: nat)
    ensures Pow(b, n + 1) == b * Pow(b, n)
  {
  }

  lemma {:induction false} PowAdd(b: nat, m: nat, n: nat)
    ensures Pow(b, m + n) == Pow(b, m) * Pow(b, n)
  {
    if m > 0 {
      PowAdd(b, m - 1, n);
      MulAssoc(b, Pow(b, m - 1), Pow(b, n));
    }
  }

  lemma {:induction false} PowMono(b: nat, m: nat, n: nat)
    requires b >= 1 && m <= n
    ensures Pow(b, m) <= Pow(b, n)
    decreases n
  {
    if m < n {
      PowMono(b, m, n - 1);
      MulMono(1, b, Pow(b, n - 1));
    }
  }

  lemma {:induction false} PowBase(a: nat, b: nat, n: nat)
    requires a <= b
    ensures Pow(a, n) <= Pow(b, n)
  {
    if n > 0 {
      PowBase(a, b, n - 1);
      MulMono(a, b, Pow(a, n - 1));
      MulMono(Pow(a, n - 1), Pow(b, n - 1), b);
    }
  }

  lemma {:induction false} PowProduct(a: nat, b: nat, n: nat)
    ensures Pow(a * b, n) == Pow(a, n) * Pow(b, n)
  {
    if n > 0 {
      PowProduct(a, b, n - 1);
      MulAssoc(a * b, Pow(a, n - 1), Pow(b, n - 1));
      MulAssoc(a, b, Pow(a, n - 1));
      MulAssoc(a * Pow(a, n - 1), b, Pow(b, n - 1));
    }
  }

  lemma {:induction false} PowPow(b: nat, m: nat, n: nat)
    ensures m * n >= 0 && Pow(Pow(b, m), n) == Pow(b, m * n)
  {
    if n == 0 {
      assert m * n == 0;
    } else {
      PowPow(b, m, n - 1);
      Distribute(m, n - 1, 1);
      PowAdd(b, m, m * (n - 1));
    }
  }

  lemma {:induction false} PowTen(n: nat)
    ensures Pow(10, n) == Pow(5, n) * Pow(2, n)
  {
    PowProduct(5, 2, n);
  }

  /** Splitting a power of two at any place. */
  lemma {:induction false} PowSplit(b: nat, n: nat, k: nat)
    requires k <= n
    ensures Pow(b, k) * Pow(b, n - k) == Pow(b, n)
  {
    PowAdd(b, k, n - k);
  }

  lemma TwoTo28()
    ensures Pow(2, 28) == 0x1000_0000
  {
    PowAdd(2, 14, 14);
    assert Pow(2, 14) == 0x4000;
  }

  /** The quotient and the remainder of a division are unique. */
  lemma DivModUnique(x: int, m: int, q: int, r: int)
    requires 0 < m && x == m * q + r && 0 <= r < m
    ensures x / m == q && x % m == r
  {
    var q', r' := x / m, x % m;
    assert m * q' + r' == m * q + r;
    if q' < q {
      MulMono(q' + 1, q, m);
    } else if q < q' {
      MulMono(q + 1, q', m);
    }
  }

  lemma NineBits()
    ensures Pow(2, 9) == 512
  {
  }
}
