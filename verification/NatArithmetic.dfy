/** Division, remainders and products of natural numbers. */
module NatArithmetic {

  lemma MulMonotone(a: nat, b: nat, c: nat)
    requires a <= b
    ensures a * c <= b * c
  {
  }

  lemma DivModUnique(x: nat, q: nat, r: nat, n: nat)
    requires 0 <= r < n && x == q * n + r
    ensures x / n == q && x % n == r
  {
    var q', r' := x / n, x % n;
    assert x == q' * n + r' && 0 <= r' < n;
    assert (q + 1) * n == q * n + n && (q' + 1) * n == q' * n + n;
    if q' > q {
      MulMonotone(q + 1, q', n);
    } else if q' < q {
      MulMonotone(q' + 1, q, n);
    }
  }

  lemma ModMultiple(a: nat, c: nat, n: nat)
    requires n > 0
    ensures (a + n * c) % n == a % n
  {
    var q := a / n;
    assert a == q * n + a % n;
    assert (q + c) * n == q * n + n * c;
    DivModUnique(a + n * c, q + c, a % n, n);
  }

  lemma ModAdd(a: nat, b: nat, n: nat)
    requires n > 0
    ensures (a % n + b % n) % n == (a + b) % n
  {
    var qa, qb := a / n, b / n;
    assert a == qa * n + a % n && b == qb * n + b % n;
    assert n * (qa + qb) == qa * n + qb * n;
    ModMultiple(a % n + b % n, qa + qb, n);
  }

  // The following names keep products and remainders out of the solver's sight
  // in proofs that only need the laws below.

  function Times(a: nat, b: nat): nat {
    a * b
  }

  function Rem(k: nat, m: nat): (u: nat)
    requires m > 0
    ensures u < m
  {
    k % m
  }

  /** The product of three exponent factors. */
  function Product(a: nat, b: nat, c: nat): nat {
    Times(Times(a, b), c)
  }

  lemma SplitSample(s: nat, p: nat, q: nat, t: nat, k: nat)
    ensures s * (q + p * t) * k == s * q * k + (s * p) * t * k
  {
    assert s * (q + p * t) == s * q + s * (p * t);
    assert s * (p * t) == (s * p) * t;
    assert (s * q + (s * p) * t) * k == s * q * k + (s * p) * t * k;
  }

  lemma SplitIndex(a: nat, t: nat, u: nat, m: nat, v: nat)
    ensures a * t * (u + m * v) == a * t * u + (a * m) * (t * v)
  {
    var b := a * t;
    assert b * (u + m * v) == b * u + b * (m * v);
    assert b * (m * v) == (a * m) * (t * v) by {
      assert a * t * (m * v) == a * (t * (m * v));
      assert t * (m * v) == m * (t * v);
      assert a * (m * (t * v)) == a * m * (t * v);
    }
  }

  /** The exponent of sample q + p*t at bin k, up to whole turns of length s*p*m. */
  lemma ExponentSum(s: nat, p: nat, m: nat, q: nat, t: nat, k: nat) returns (turns: nat)
    requires m > 0
    ensures Product(s, q + Times(p, t), k)
         == Product(Times(s, p), t, Rem(k, m)) + Times(Product(s, p, m), turns) + Product(s, q, k)
  {
    turns := t * (k / m);
    SplitSample(s, p, q, t, k);
    assert k == k % m + m * (k / m);
    SplitIndex(s * p, t, k % m, m, k / m);
  }

  lemma TimesOne(a: nat)
    ensures Times(a, 1) == a && Times(a, 0) == 0
  {
  }

  lemma TimesPositive(a: nat, b: nat)
    requires a > 0 && b > 0
    ensures Times(a, b) > 0
  {
    MulMonotone(1, a, b);
  }

  lemma TimesStep(p: nat, m: nat)
    ensures Times(p, 0) == 0 && Times(p, m + 1) == Times(p, m) + p
  {
  }

  lemma ModTurns(a: nat, c: nat, n: nat)
    requires n > 0
    ensures (a + Times(n, c)) % n == a % n
  {
    ModMultiple(a, c, n);
  }

  function Quot(k: nat, m: nat): nat
    requires m > 0
  {
    k / m
  }

  lemma SmallMultiples(m: nat)
    ensures Times(0, m) == 0 && Times(1, m) == m && Times(2, m) == 2 * m
    ensures Times(3, m) == 3 * m && Times(4, m) == 4 * m && Times(5, m) == 5 * m
  {
  }

  /** Index q*m + u has quotient q and remainder u, and is the only one that does. */
  lemma IndexForm(q: nat, u: nat, m: nat, j: nat)
    requires u < m
    ensures Rem(Times(q, m) + u, m) == u && Quot(Times(q, m) + u, m) == q
    ensures Rem(j, m) == u && Quot(j, m) == q ==> j == Times(q, m) + u
  {
    DivModUnique(q * m + u, q, u, m);
  }

  lemma IndexBelow(q: nat, u: nat, p: nat, m: nat)
    requires u < m
    ensures q < p ==> Times(q, m) + u < Times(p, m)
    ensures Times(q, m) + u < Times(p, m) ==> q < p
  {
    if q < p {
      MulMonotone(q + 1, p, m);
    } else {
      MulMonotone(p, q, m);
    }
  }

  lemma ProductStep(s: nat, q: nat, u: nat)
    ensures Product(s, q, 0) == 0 && Product(s, 0, u) == 0
    ensures Product(s, q, u + 1) == Product(s, q, u) + Times(s, q)
    ensures Product(s, q + 1, u) == Product(s, q, u) + Times(s, u)
  {
    assert s * q * (u + 1) == s * q * u + s * q;
    assert s * (q + 1) * u == s * q * u + s * u by {
      assert s * (q + 1) == s * q + s;
    }
  }

  lemma ProductBelow(s: nat, q: nat, u: nat, p: nat, m: nat)
    requires q < p && u < m && Product(s, p, m) > 0
    ensures Product(s, q, u) < Product(s, p, m)
  {
    MulMonotone(q, p, s);
    MulMonotone(u + 1, m, s * p);
    MulMonotone(s * q, s * p, u);
    assert s * p > 0;
    assert (u + 1) * (s * p) == u * (s * p) + s * p;
  }

  lemma ProductRegroup(s: nat, p: nat, m: nat)
    ensures Product(s, p, m) == Times(Times(s, p), m) == Times(s, Times(p, m)) == Times(p, Times(s, m))
  {
    assert s * p * m == s * (p * m);
    assert p * (s * m) == s * (p * m);
  }

  /** The exponent of part q at bin v*m + u. */
  lemma ExponentAtBin(s: nat, q: nat, u: nat, v: nat, m: nat)
    ensures Product(s, q, Times(v, m) + u) == Product(s, q, u) + Times(Times(s, m), Times(q, v))
  {
    assert s * q * (v * m + u) == s * q * (v * m) + s * q * u;
    assert s * q * (v * m) == s * m * (q * v) by {
      assert s * q * (v * m) == s * (q * (v * m));
      assert q * (v * m) == m * (q * v);
      assert s * (m * (q * v)) == s * m * (q * v);
    }
  }

  lemma ModAddOf(a: nat, b: nat, n: nat, i: nat, j: nat)
    requires n > 0 && i == a % n && j == b % n
    ensures i < n && j < n && (i + j) % n == (a + b) % n
  {
    ModAdd(a, b, n);
  }

  /** Adding below n and subtracting n once keeps the running remainder. */
  lemma ModStep(e: nat, d: nat, n: nat)
    requires d < n
    ensures var x := e % n + d; (if x >= n then x - n else x) == (e + d) % n
  {
    var q := e / n;
    assert e == q * n + e % n;
    var x := e % n + d;
    if x >= n {
      assert (q + 1) * n == q * n + n;
      DivModUnique(e + d, q + 1, x - n, n);
    } else {
      DivModUnique(e + d, q, x, n);
    }
  }

  lemma TimesBelow(s: nat, k: nat, p: nat, m: nat)
    requires k < Times(p, m) && Product(s, p, m) > 0
    ensures Times(s, k) < Product(s, p, m)
  {
    ProductRegroup(s, p, m);
    MulMonotone(k + 1, Times(p, m), s);
    assert s > 0;
    assert (k + 1) * s == k * s + s;
  }

  /** Sample q + p*t of a strided input, as sample t of the q-th decimated input. */
  lemma DecimatedStride(s: nat, inStride: nat, p: nat, q: nat, t: nat)
    ensures Times(Times(s, inStride), q + Times(p, t))
         == Times(Times(s, inStride), q) + Times(Times(Times(s, p), inStride), t)
  {
    var step := s * inStride;
    assert step * (q + p * t) == step * q + step * (p * t);
    assert step * (p * t) == s * p * inStride * t by {
      assert s * inStride * (p * t) == s * (inStride * (p * t));
      assert inStride * (p * t) == p * inStride * t;
      assert s * (p * inStride * t) == s * (p * inStride) * t;
      assert s * (p * inStride) == s * p * inStride;
    }
  }

  lemma DecimatedBelow(p: nat, m: nat, q: nat, t: nat)
    requires q < p && t < m
    ensures q + Times(p, t) < Times(p, m)
  {
    MulMonotone(t + 1, m, p);
    assert (t + 1) * p == t * p + p;
  }

  lemma TimesMonotone(a: nat, j: nat, k: nat)
    requires j <= k
    ensures Times(a, j) <= Times(a, k)
  {
    MulMonotone(j, k, a);
  }
}
