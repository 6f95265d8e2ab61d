/** The discrete Fourier transform over a table of twiddle factors, and its
    decimation in time. */
module Dft {
  import opened Complex
  import opened NatArithmetic

  /** What exact arithmetic gives the table exp(-+2*pi*i*k/n): a group of n-th
      roots of unity with its known values at the half, the third and the quarter. */
  ghost predicate Twiddles(tw: seq<Cpx>, inverse: bool) {
    var n := |tw|;
    && n > 0 && tw[0] == One
    && (forall a, b {:trigger Mul(tw[a], tw[b])} :: 0 <= a < n && 0 <= b < n ==> Mul(tw[a], tw[b]) == tw[(a + b) % n])
    && (forall a :: 0 < a < n ==> tw[n - a] == Conj(tw[a]))
    && (forall h :: 0 < h < n && n == 2 * h ==> tw[h] == Cpx(-1.0, 0.0))
    && (forall h :: 0 < h < n && n == 3 * h ==> tw[h].r == -0.5)
    && (forall h :: 0 < h < n && n == 4 * h ==> tw[h] == Cpx(0.0, if inverse then 1.0 else -1.0))
  }

  /** The twiddle factor with exponent e, reduced modulo the table length. */
  function Tw(tw: seq<Cpx>, e: nat): Cpx
    requires |tw| > 0
  {
    tw[e % |tw|]
  }

  lemma TwAdd(tw: seq<Cpx>, inverse: bool, a: nat, b: nat)
    requires Twiddles(tw, inverse)
    ensures Mul(Tw(tw, a), Tw(tw, b)) == Tw(tw, a + b)
  {
    hide Mul;
    var i, j := a % |tw|, b % |tw|;
    ModAddOf(a, b, |tw|, i, j);
    assert Mul(tw[i], tw[j]) == tw[(i + j) % |tw|];
  }

  lemma TwKnown(tw: seq<Cpx>, inverse: bool, e: nat)
    requires |tw| > 0 && Twiddles(tw, inverse)
    ensures Tw(tw, 0) == One
    ensures 0 < e < |tw| ==> Tw(tw, |tw| - e) == Conj(Tw(tw, e))
    ensures |tw| == 2 * e ==> Tw(tw, e) == Cpx(-1.0, 0.0)
    ensures |tw| == 3 * e ==> Tw(tw, e).r == -0.5
    ensures |tw| == 4 * e ==> Tw(tw, e) == Cpx(0.0, if inverse then 1.0 else -1.0)
  {
    TwSmall(tw, 0);
    if e < |tw| { TwSmall(tw, e); }
    if 0 < e < |tw| { TwSmall(tw, |tw| - e); }
    hide Tw;
  }

  lemma TwSmall(tw: seq<Cpx>, e: nat)
    requires e < |tw|
    ensures Tw(tw, e) == tw[e]
  {
    DivModUnique(e, 0, e, |tw|);
  }

  /** Whole turns do not matter. */
  lemma TwTurns(tw: seq<Cpx>, a: nat, c: nat)
    requires |tw| > 0
    ensures Tw(tw, a + Times(|tw|, c)) == Tw(tw, a)
  {
    ModTurns(a, c, |tw|);
  }

  function At(x: seq<Cpx>, j: nat): Cpx {
    if j < |x| then x[j] else Zero
  }

  /** Term j of output bin k of the transform whose root is the s-th table entry. */
  function DftTerm(x: seq<Cpx>, tw: seq<Cpx>, s: nat, k: nat): nat -> Cpx
    requires |tw| > 0
  {
    (j: nat) => Mul(At(x, j), Tw(tw, Product(s, j, k)))
  }

  /** Output bin k: the sum of x[j] times the (s*j*k)-th power of the root. */
  function Bin(x: seq<Cpx>, tw: seq<Cpx>, s: nat, k: nat): Cpx
    requires |tw| > 0
  {
    Sum(DftTerm(x, tw, s, k), |x|)
  }

  /** The transform of x; |x| * s is the table length. */
  function Transform(x: seq<Cpx>, tw: seq<Cpx>, s: nat): (y: seq<Cpx>)
    requires |tw| > 0
    ensures |y| == |x| && forall k: nat :: k < |x| ==> y[k] == Bin(x, tw, s, k)
  {
    seq(|x|, k requires 0 <= k < |x| => Bin(x, tw, s, k))
  }

  /** Every p-th of m samples of x, starting with sample q. */
  function Decimated(x: seq<Cpx>, p: nat, m: nat, q: nat): (d: seq<Cpx>)
    ensures |d| == m && forall t: nat :: t < m ==> d[t] == At(x, q + Times(p, t))
  {
    seq(m, t requires 0 <= t < m => At(x, q + Times(p, t)))
  }

  // ---------- Recombination of p transforms of length m ----------

  /** Summand q of recombined bin k. */
  function RecombineTerm(y: seq<Cpx>, tw: seq<Cpx>, m: nat, s: nat, k: nat): nat -> Cpx
    requires |tw| > 0 && m > 0
  {
    (q: nat) => Mul(At(y, Times(q, m) + Rem(k, m)), Tw(tw, Product(s, q, k)))
  }

  /** Bin k of the length p*m transform, from the p transforms stored in y. */
  function RecombineBin(y: seq<Cpx>, tw: seq<Cpx>, p: nat, m: nat, s: nat, k: nat): Cpx
    requires |tw| > 0 && m > 0
  {
    Sum(RecombineTerm(y, tw, m, s, k), p)
  }

  function Recombined(y: seq<Cpx>, tw: seq<Cpx>, p: nat, m: nat, s: nat): (z: seq<Cpx>)
    requires |tw| > 0 && m > 0
    ensures |z| == Times(p, m) && forall k: nat :: k < |z| ==> z[k] == RecombineBin(y, tw, p, m, s, k)
  {
    seq(Times(p, m), k requires 0 <= k < Times(p, m) => RecombineBin(y, tw, p, m, s, k))
  }

  /** y holds the transforms of the p decimated inputs one after the other. */
  ghost predicate HoldsParts(y: seq<Cpx>, x: seq<Cpx>, tw: seq<Cpx>, p: nat, m: nat, s: nat)
    requires |tw| > 0
  {
    && |x| == |y| == Times(p, m)
    && forall q: nat, u: nat :: q < p && u < m ==>
        At(y, Times(q, m) + u) == Bin(Decimated(x, p, m, q), tw, Times(s, p), u)
  }

  /** Exponents that differ by whole turns add up like the twiddle factors multiply. */
  lemma ExponentSplits(tw: seq<Cpx>, inverse: bool, e: nat, inner: nat, turns: nat, outer: nat)
    requires |tw| > 0 && Twiddles(tw, inverse) && e == inner + Times(|tw|, turns) + outer
    ensures Tw(tw, e) == Mul(Tw(tw, inner), Tw(tw, outer))
  {
    hide Twiddles, Tw, Times;
    TwTurns(tw, inner, turns);
    TwAdd(tw, inverse, inner + Times(|tw|, turns), outer);
  }

  lemma TermSplits(x: seq<Cpx>, tw: seq<Cpx>, inverse: bool, p: nat, m: nat, s: nat, k: nat, q: nat, t: nat)
    requires Twiddles(tw, inverse) && m > 0 && |tw| == Product(s, p, m) && t < m
    ensures DftTerm(x, tw, s, k)(q + Times(p, t))
         == Mul(DftTerm(Decimated(x, p, m, q), tw, Times(s, p), Rem(k, m))(t), Tw(tw, Product(s, q, k)))
  {
    hide Times, Rem, Product, Tw;
    var inner, outer := Product(Times(s, p), t, Rem(k, m)), Product(s, q, k);
    var turns := ExponentSum(s, p, m, q, t, k);
    ExponentSplits(tw, inverse, Product(s, q + Times(p, t), k), inner, turns, outer);
    MulAssociates(At(x, q + Times(p, t)), Tw(tw, inner), Tw(tw, outer));
  }

  /** Residue class q of the terms of bin k is one summand of the recombination. */
  lemma ResidueIsSummand(x: seq<Cpx>, y: seq<Cpx>, tw: seq<Cpx>, inverse: bool, p: nat, m: nat, s: nat, k: nat, q: nat)
    requires Twiddles(tw, inverse) && m > 0 && |tw| == Product(s, p, m) && q < p
    requires HoldsParts(y, x, tw, p, m, s)
    ensures Strided(DftTerm(x, tw, s, k), p, m)(q) == RecombineTerm(y, tw, m, s, k)(q)
  {
    hide Times, Rem, Product, Tw;
    var inner := DftTerm(Decimated(x, p, m, q), tw, Times(s, p), Rem(k, m));
    var outer := Tw(tw, Product(s, q, k));
    var u := Rem(k, m);
    assert At(y, Times(q, m) + u) == Bin(Decimated(x, p, m, q), tw, Times(s, p), u);
    assert RecombineTerm(y, tw, m, s, k)(q) == Mul(Sum(inner, m), outer);
    forall t: nat | t < m
      ensures EveryFrom(DftTerm(x, tw, s, k), p, q)(t) == Scaled(inner, outer)(t)
    {
      TermSplits(x, tw, inverse, p, m, s, k, q, t);
    }
    SumAgree(EveryFrom(DftTerm(x, tw, s, k), p, q), Scaled(inner, outer), m);
    SumScale(inner, outer, m);
  }

  /** Decimation in time: recombining the transforms of the decimated inputs is
      transforming the whole input. */
  lemma DecimationInTime(x: seq<Cpx>, y: seq<Cpx>, tw: seq<Cpx>, inverse: bool, p: nat, m: nat, s: nat)
    requires Twiddles(tw, inverse) && m > 0 && |tw| == Product(s, p, m)
    requires HoldsParts(y, x, tw, p, m, s)
    ensures Recombined(y, tw, p, m, s) == Transform(x, tw, s)
  {
    hide Times, Rem, Product, Tw;
    forall k: nat | k < |x|
      ensures RecombineBin(y, tw, p, m, s, k) == Bin(x, tw, s, k)
    {
      forall q: nat | q < p
        ensures Strided(DftTerm(x, tw, s, k), p, m)(q) == RecombineTerm(y, tw, m, s, k)(q)
      {
        ResidueIsSummand(x, y, tw, inverse, p, m, s, k, q);
      }
      SumByResidue(DftTerm(x, tw, s, k), p, m);
      SumAgree(Strided(DftTerm(x, tw, s, k), p, m), RecombineTerm(y, tw, m, s, k), p);
    }
  }
}
