/** Factoring a transform length into a chain of radices: powers of 4, powers of
    2, then the remaining primes. */
module KissFactor {
  import opened NatArithmetic
  import opened Complex
  import opened Dft
  import opened KissFft

  ghost predicate Prime(p: nat) {
    p >= 2 && forall d :: 2 <= d < p ==> p % d != 0
  }

  /** No number from 2 up to below c divides x. */
  ghost predicate NoDivisorBelow(x: nat, c: nat) {
    forall d :: 2 <= d < c ==> x % d != 0
  }

  function FloorSqrt(n: nat): (s: nat)
    ensures s * s <= n < (s + 1) * (s + 1)
  {
    if n == 0 then 0
    else
      var s := FloorSqrt(n - 1);
      if (s + 1) * (s + 1) <= n then s + 1 else s
  }

  /** The factors found so far lead from n down to rest. */
  ghost predicate Leads(factors: seq<(nat, nat)>, n: nat, rest: nat)
    decreases |factors|
  {
    if factors == [] then n == rest
    else
      var (p, m) := factors[0];
      p > 0 && m > 0 && n == Times(p, m) && Leads(factors[1..], m, rest)
  }

  lemma {:induction false} LeadsAppend(factors: seq<(nat, nat)>, n: nat, rest: nat, p: nat, m: nat)
    requires Leads(factors, n, rest) && p > 0 && m > 0 && rest == Times(p, m)
    ensures Leads(factors + [(p, m)], n, m)
    decreases |factors|
  {
    hide Times;
    var longer := factors + [(p, m)];
    if factors == [] {
      assert longer[0] == (p, m) && longer[1..] == [];
    } else {
      LeadsAppend(factors[1..], factors[0].1, rest, p, m);
      assert longer[1..] == factors[1..] + [(p, m)];
    }
  }

  lemma {:induction false} LeadsToOne(factors: seq<(nat, nat)>, n: nat)
    requires Leads(factors, n, 1) && factors != []
    ensures Chain(factors, n)
    decreases |factors|
  {
    hide Times;
    if factors[0].1 != 1 {
      LeadsToOne(factors[1..], factors[0].1);
    }
  }

  // ---------- Divisibility ----------

  lemma DividesTrans(d: nat, p: nat, x: nat)
    requires d > 0 && p > 0 && p % d == 0 && x % p == 0
    ensures x % d == 0
  {
    var a, b := p / d, x / p;
    assert p == a * d && x == b * p;
    assert x == (b * a) * d by {
      assert b * (a * d) == (b * a) * d;
    }
    DivModUnique(x, b * a, 0, d);
  }

  lemma QuotientDivides(x: nat, p: nat, d: nat)
    requires p > 0 && x % p == 0 && d > 0 && (x / p) % d == 0
    ensures x % d == 0
  {
    var q, a := x / p, x / p / d;
    assert x == q * p && q == a * d;
    assert x == (a * p) * d by {
      assert (a * d) * p == (a * p) * d;
    }
    DivModUnique(x, a * p, 0, d);
  }

  lemma QuotientKeeps(x: nat, p: nat, c: nat)
    requires p > 0 && x % p == 0 && NoDivisorBelow(x, c)
    ensures NoDivisorBelow(x / p, c)
  {
    forall d | 2 <= d < c ensures (x / p) % d != 0 {
      if (x / p) % d == 0 { QuotientDivides(x, p, d); }
    }
  }

  /** The first divisor that trial division meets is prime. */
  lemma FirstDivisorPrime(x: nat, p: nat)
    requires p >= 2 && x % p == 0 && NoDivisorBelow(x, p)
    ensures Prime(p)
  {
    forall d | 2 <= d < p ensures p % d != 0 {
      if p % d == 0 { DividesTrans(d, p, x); }
    }
  }

  /** Of two cofactors, one lies below the square root. */
  lemma SmallDivisor(x: nat, d: nat, c: nat) returns (f: nat)
    requires 2 <= d < x && x % d == 0 && x < c * c
    ensures 2 <= f < c && x % f == 0
  {
    var e := x / d;
    assert x == e * d;
    DivModUnique(x, d, 0, e);
    assert e >= 2 by {
      if e < 2 { MulMonotone(e, 1, d); }
    }
    if d < c {
      return d;
    }
    assert e < c by {
      if e >= c {
        MulMonotone(c, d, c);
        MulMonotone(c, e, d);
      }
    }
    return e;
  }

  /** Without a divisor up to the square root, a number is prime. */
  lemma NoSmallDivisorPrime(x: nat, c: nat)
    requires x >= 2 && NoDivisorBelow(x, c) && x < c * c
    ensures Prime(x)
  {
    forall d | 2 <= d < x ensures x % d != 0 {
      if x % d == 0 {
        var f := SmallDivisor(x, d, c);
        assert false;
      }
    }
  }

  lemma SkipEven(x: nat, p: nat)
    requires p >= 3 && p % 2 == 1 && NoDivisorBelow(x, p) && x % p != 0
    ensures NoDivisorBelow(x, p + 2)
  {
    forall d | 2 <= d < p + 2 ensures x % d != 0 {
      if d == p + 1 && x % d == 0 { DividesTrans(2, p + 1, x); }
    }
  }

  function Pow2(k: nat): nat {
    if k == 0 then 1 else 2 * Pow2(k - 1)
  }

  lemma Pow2Grows(j: nat, k: nat)
    requires j <= k
    ensures Pow2(j) <= Pow2(k)
  {
  }

  // ---------- The factorization ----------

  /** What trial division knows about the rest when it stands at candidate p. */
  ghost predicate Candidate(rest: nat, p: nat) {
    || p == 4
    || (p == 2 && rest % 4 != 0)
    || (p >= 3 && p % 2 == 1 && NoDivisorBelow(rest, p))
  }

  lemma NextCandidate(rest: nat, p: nat) returns (next: nat)
    requires Candidate(rest, p) && rest % p != 0
    ensures next == if p == 4 then 2 else if p == 2 then 3 else p + 2
    ensures next >= 2 && NoDivisorBelow(rest, next) && Candidate(rest, next)
  {
    next := if p == 4 then 2 else if p == 2 then 3 else p + 2;
    if p != 4 && p != 2 {
      SkipEven(rest, p);
    }
  }

  lemma PastSquareRoot(rest: nat, p: nat, floorSqrt: nat)
    requires rest > 1 && NoDivisorBelow(rest, p) && p > floorSqrt && rest < (floorSqrt + 1) * (floorSqrt + 1)
    ensures Prime(rest)
  {
    MulMonotone(floorSqrt + 1, p, floorSqrt + 1);
    MulMonotone(floorSqrt + 1, p, p);
    NoSmallDivisorPrime(rest, p);
  }

  lemma DividingCandidate(rest: nat, p: nat)
    requires rest > 1 && Candidate(rest, p) && rest % p == 0
    ensures p == 4 || Prime(p)
  {
    if p != 4 && p != 2 {
      FirstDivisorPrime(rest, p);
    }
  }

  /** Move to the next candidate that divides the rest; past the square root of
      the original length that is the rest itself. */
  method NextRadix(rest: nat, p0: nat, floorSqrt: nat) returns (p: nat)
    requires rest > 0 && Candidate(rest, p0) && rest < (floorSqrt + 1) * (floorSqrt + 1)
    ensures p > 0 && rest % p == 0
    ensures rest > 1 ==> p == 4 || Prime(p)
    ensures Candidate(rest, p) || p == rest
  {
    p := p0;
    assert p > 0;
    hide Prime, NoDivisorBelow, Candidate;
    while rest % p != 0
      invariant p > 0
      invariant Candidate(rest, p) || (p == rest && (rest > 1 ==> Prime(rest)))
      decreases if rest % p == 0 then 0 else 1, if p == 4 then 2 else if p == 2 then 1 else 0, floorSqrt + 2 - p
    {
      if p == rest { WholeDivides(p); }
      ghost var next := NextCandidate(rest, p);
      if p == 4 {
        p := 2;
      } else if p == 2 {
        p := 3;
      } else {
        p := p + 2;
      }
      if p > floorSqrt {
        if rest > 1 { PastSquareRoot(rest, p, floorSqrt); }
        p := rest;
        WholeDivides(p);
      }
    }
    if rest > 1 && Candidate(rest, p) {
      DividingCandidate(rest, p);
    }
  }

  lemma WholeDivides(p: nat)
    requires p > 0
    ensures p % p == 0 && p / p == 1
  {
    DivModUnique(p, 1, 0, p);
  }

  lemma CandidateKept(rest: nat, p: nat)
    requires rest > 0 && p > 0 && rest % p == 0 && (Candidate(rest, p) || p == rest)
    ensures 1 <= rest / p && Times(p, rest / p) == rest
    ensures rest / p > 1 ==> Candidate(rest / p, p)
  {
    QuotientTimes(rest, p);
    hide Times;
    if p == rest {
      WholeDivides(p);
    } else if p >= 3 && p % 2 == 1 {
      QuotientKeeps(rest, p, p);
    }
  }

  lemma QuotientTimes(x: nat, p: nat)
    requires x > 0 && p > 0 && x % p == 0
    ensures 1 <= x / p && Times(p, x / p) == x
  {
    assert x == (x / p) * p;
  }

  /** Every radix is 4 or prime, the chain multiplies up to n, and for lengths
      below 2^31 it fits the 32 pairs reserved for it. */
  method KfFactor(n: nat) returns (factors: seq<(nat, nat)>)
    requires n > 0
    ensures Chain(factors, n)
    ensures n > 1 ==> forall i :: 0 <= i < |factors| ==> factors[i].0 == 4 || Prime(factors[i].0)
    ensures n > 1 ==> Pow2(|factors|) <= n
    ensures n < 0x8000_0000 ==> |factors| <= 32
  {
    hide Times, Prime, Candidate, Chain;
    var p := 4;
    var floorSqrt := FloorSqrt(n);
    var rest := n;
    factors := [];
    var first := true;
    assert Candidate(rest, 4) by { CandidateStart(rest); }
    while first || rest > 1
      invariant 0 < rest <= n && first == (factors == [])
      invariant Leads(factors, n, rest)
      invariant first || rest > 1 ==> Candidate(rest, p)
      invariant n > 1 && !first ==> forall i :: 0 <= i < |factors| ==> factors[i].0 == 4 || Prime(factors[i].0)
      invariant Pow2(|factors|) * rest <= n || (n == 1 && !first && |factors| == 1)
      decreases rest, if first then 1 else 0
    {
      p := NextRadix(rest, p, floorSqrt);
      CandidateKept(rest, p);
      LeadsAppend(factors, n, rest, p, rest / p);
      if rest > 1 { RadixAtLeast2(rest, p, Pow2(|factors|)); }
      rest := rest / p;
      factors := factors + [(p, rest)];
      first := false;
    }
    LeadsToOne(factors, n);
    if n < 0x8000_0000 && |factors| > 32 { Pow2Grows(33, |factors|); Pow2At33(); }
  }

  lemma CandidateStart(rest: nat)
    ensures Candidate(rest, 4)
  {
  }

  lemma Pow2At33()
    ensures Pow2(33) > 0x8000_0000
  {
    assert Pow2(8) == 256;
    assert Pow2(16) == 65536;
    assert Pow2(24) == 16777216;
    assert Pow2(32) == 0x1_0000_0000;
  }

  lemma RadixAtLeast2(rest: nat, p: nat, scale: nat)
    requires rest > 1 && (p == 4 || Prime(p)) && rest % p == 0
    ensures rest / p < rest && 2 * scale * (rest / p) <= scale * rest
  {
    var m := rest / p;
    assert rest == m * p;
    MulMonotone(2, p, m);
    MulMonotone(2 * m, rest, scale);
    assert 2 * m * scale == 2 * scale * m;
  }

  /** A configuration for any length: the factoring always yields a chain that the
      transform can use. */
  method Alloc(tw: seq<Cpx>, inverse: bool) returns (cfg: Config)
    requires |tw| > 0 && Twiddles(tw, inverse)
    ensures ValidConfig(cfg) && cfg.tw == tw && cfg.inverse == inverse
  {
    hide Twiddles, Chain, Prime;
    var factors := KfFactor(|tw|);
    cfg := Config(inverse, tw, factors);
  }
}
