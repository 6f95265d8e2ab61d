/** Scaling log-likelihoods to a fixed variance, and why clearly received words
    are never mistaken for silence. */
module Ft8Normalize {
  import opened Gf2
  import opened RealSums
  import opened Ft8Code

  function Square(x: real): real {
    x * x
  }

  function SquaresTo(l: seq<real>, n: nat): real
    requires n <= |l|
  {
    if n == 0 then 0.0 else SquaresTo(l, n - 1) + Square(l[n - 1])
  }

  /** The variance of 174 likelihoods, in the form in which it is computed. */
  function Variance(l: seq<real>): real
    requires |l| == N
  {
    var invN := 1.0 / N as real;
    (SquaresTo(l, N) - Square(SumTo(l, N)) * invN) * invN
  }

  // ---------- Variance as pairwise distance ----------

  /** The sum of the squared distances of the first n entries from x. */
  function DistancesTo(l: seq<real>, n: nat, x: real): real
    requires n <= |l|
  {
    if n == 0 then 0.0 else DistancesTo(l, n - 1, x) + Square(l[n - 1] - x)
  }

  /** n times the sum of squares, less the square of the sum. */
  function Spread(l: seq<real>, n: nat): real
    requires n <= |l|
  {
    Times(n as real, SquaresTo(l, n)) - Square(SumTo(l, n))
  }

  lemma SquareNonNegative(x: real)
    ensures Square(x) >= 0.0
  {
  }

  lemma SquareDifference(a: real, x: real)
    ensures Square(a - x) == Square(a) - 2.0 * Times(x, a) + Square(x)
  {
    assert (a - x) * (a - x) == a * a - 2.0 * (x * a) + x * x;
  }

  lemma {:induction false} DistancesExpand(l: seq<real>, n: nat, x: real)
    requires n <= |l|
    ensures DistancesTo(l, n, x) == SquaresTo(l, n) - 2.0 * Times(x, SumTo(l, n)) + Times(n as real, Square(x))
  {
    hide Square, Times;
    if n == 0 {
      TimesZero(x);
      TimesZero(Square(x));
    } else {
      DistancesExpand(l, n - 1, x);
      SquareDifference(l[n - 1], x);
      TimesSum(x, SumTo(l, n - 1), l[n - 1]);
      TimesSuccessor(n - 1, Square(x));
    }
  }

  lemma TimesZero(x: real)
    ensures Times(x, 0.0) == 0.0 && Times(0.0, x) == 0.0
  {
  }

  lemma TimesSum(x: real, a: real, b: real)
    ensures Times(x, a + b) == Times(x, a) + Times(x, b)
  {
  }

  lemma TimesSuccessor(n: nat, x: real)
    ensures Times((n + 1) as real, x) == Times(n as real, x) + x
  {
  }

  lemma SquareSum(a: real, b: real)
    ensures Square(a + b) == Square(a) + 2.0 * Times(b, a) + Square(b)
  {
    assert (a + b) * (a + b) == a * a + 2.0 * (b * a) + b * b;
  }

  /** One more entry adds its squared distances from the earlier ones. */
  lemma SpreadStep(l: seq<real>, n: nat)
    requires n < |l|
    ensures Spread(l, n + 1) == Spread(l, n) + DistancesTo(l, n, l[n])
  {
    hide Square, Times, DistancesTo;
    var x, s, q := l[n], SumTo(l, n), SquaresTo(l, n);
    DistancesExpand(l, n, x);
    SquareSum(s, x);
    TimesSuccessor(n, q + Square(x));
    TimesSum(n as real, q, Square(x));
  }

  lemma {:induction false} DistancesCover(l: seq<real>, n: nat, x: real, i: nat)
    requires n <= |l|
    ensures DistancesTo(l, n, x) >= 0.0
    ensures i < n ==> DistancesTo(l, n, x) >= Square(l[i] - x)
  {
    if n > 0 {
      DistancesCover(l, n - 1, x, i);
      SquareNonNegative(l[n - 1] - x);
    }
  }

  lemma {:induction false} SpreadCovers(l: seq<real>, n: nat, i: nat, j: nat)
    requires n <= |l| && i < j < |l|
    ensures Spread(l, n) >= 0.0
    ensures j < n ==> Spread(l, n) >= Square(l[i] - l[j])
  {
    if n > 0 {
      SpreadCovers(l, n - 1, i, j);
      SpreadStep(l, n - 1);
      DistancesCover(l, n - 1, l[n - 1], i);
    }
  }

  lemma VarianceIsSpread(l: seq<real>)
    requires |l| == N
    ensures Variance(l) * (174.0 * 174.0) == Spread(l, N)
  {
  }

  /** A word with both a 0 and a 1, received with at least half a unit per bit, is
      never taken for a zero-variance candidate. */
  lemma ClearWordVaries(l: seq<real>, word: Bits, i: nat, j: nat)
    requires |l| == |word| == N && i < N && j < N && word[i] && !word[j]
    requires forall p :: 0 <= p < N ==> if word[p] then l[p] >= 0.5 else l[p] <= -0.5
    ensures Variance(l) >= 0.00003
  {
    hide Variance, Spread;
    var d := l[i] - l[j];
    assert d >= 1.0;
    assert Square(d) >= 1.0;
    assert Square(l[j] - l[i]) == Square(d);
    SpreadCovers(l, N, if i < j then i else j, if i < j then j else i);
    VarianceIsSpread(l);
  }

  // ---------- Scaling ----------

  function Scaled(l: seq<real>, f: real): (r: seq<real>)
    ensures |r| == |l| && forall i :: 0 <= i < |l| ==> r[i] == Times(f, l[i])
  {
    seq(|l|, i requires 0 <= i < |l| => Times(f, l[i]))
  }

  lemma {:induction false} ScaledSums(l: seq<real>, f: real, n: nat)
    requires n <= |l|
    ensures SumTo(Scaled(l, f), n) == Times(f, SumTo(l, n))
    ensures SquaresTo(Scaled(l, f), n) == Times(Square(f), SquaresTo(l, n))
  {
    hide Times, Square;
    if n == 0 {
      TimesZero(f);
      TimesZero(Square(f));
    } else {
      ScaledSums(l, f, n - 1);
      SquareProduct(f, l[n - 1]);
      TimesSum(f, SumTo(l, n - 1), l[n - 1]);
      TimesSum(Square(f), SquaresTo(l, n - 1), Square(l[n - 1]));
    }
  }

  lemma Regroup(a: real, b: real, c: real)
    ensures (a * b) * c == a * (b * c)
  {
  }

  lemma SquareProduct(f: real, a: real)
    ensures Square(Times(f, a)) == Times(Square(f), Square(a))
  {
    Regroup(f, a, f * a);
    Regroup(a, f, a);
    Regroup(f, a, a);
    Regroup(f, f, a * a);
  }

  lemma ScaledVariance(l: seq<real>, f: real)
    requires |l| == N
    ensures Variance(Scaled(l, f)) == Times(Square(f), Variance(l))
  {
    ScaledSums(l, f, N);
    SquareProduct(f, SumTo(l, N));
    hide SumTo, SquaresTo, Square;
    VarianceScales(Square(f), SquaresTo(l, N), Square(SumTo(l, N)));
  }

  lemma VarianceScales(g: real, q: real, t: real)
    ensures var invN := 1.0 / N as real;
            (Times(g, q) - Times(g, t) * invN) * invN == Times(g, (q - t * invN) * invN)
  {
  }

  /** The square root that the scaling uses. */
  ghost predicate IsSqrt(sqrt: real -> real) {
    forall x :: x > 0.0 ==> sqrt(x) > 0.0 && Square(sqrt(x)) == x
  }

  method Moments(log174: array<real>) returns (sum: real, sum2: real)
    requires log174.Length == N
    ensures sum == SumTo(log174[..], N) && sum2 == SquaresTo(log174[..], N)
  {
    sum, sum2 := 0.0, 0.0;
    var i := 0;
    while i < N
      invariant 0 <= i <= N && sum == SumTo(log174[..], i) && sum2 == SquaresTo(log174[..], i)
    {
      sum := sum + log174[i];
      sum2 := sum2 + log174[i] * log174[i];
      i := i + 1;
    }
  }

  /** Too little variance silences the candidate; otherwise the likelihoods are
      scaled by one positive factor, to variance 24. */
  method Normalize(log174: array<real>, sqrt: real -> real)
    requires log174.Length == N && IsSqrt(sqrt)
    modifies log174
    ensures Variance(old(log174[..])) < 0.000001 ==> forall i :: 0 <= i < N ==> log174[..][i] == 0.0
    ensures Variance(old(log174[..])) >= 0.000001
        ==> log174[..] == Scaled(old(log174[..]), sqrt(24.0 / Variance(old(log174[..]))))
    ensures Variance(old(log174[..])) >= 0.000001 ==> Variance(log174[..]) == 24.0
  {
    ghost var before := log174[..];
    var sum, sum2 := Moments(log174);
    var invN := 1.0 / N as real;
    var variance := (sum2 - (sum * sum * invN)) * invN;
    assert variance == Variance(before);
    hide Variance, SumTo, SquaresTo;
    if variance < 0.000001 {
      var i := 0;
      while i < N
        invariant 0 <= i <= N && forall j :: 0 <= j < i ==> log174[..][j] == 0.0
      {
        log174[i] := 0.0;
        i := i + 1;
      }
      return;
    }
    var normFactor := sqrt(24.0 / variance);
    var i := 0;
    while i < N
      invariant 0 <= i <= N && forall j :: 0 <= j < i ==> log174[..][j] == Times(normFactor, before[j])
      invariant forall j :: i <= j < N ==> log174[..][j] == before[j]
    {
      log174[i] := log174[i] * normFactor;
      i := i + 1;
    }
    assert log174[..] == Scaled(before, normFactor);
    ScaledVariance(before, normFactor);
    Rescaled(variance, normFactor);
  }

  lemma Rescaled(v: real, f: real)
    requires v > 0.0 && Square(f) == 24.0 / v
    ensures Times(Square(f), v) == 24.0
  {
  }

  /** Scaling by a positive factor keeps every hard decision. */
  lemma ScaledSigns(l: seq<real>, f: real, i: nat)
    requires f > 0.0 && i < |l|
    ensures Scaled(l, f)[i] > 0.0 <==> l[i] > 0.0
  {
    assert l[i] > 0.0 ==> l[i] * f > 0.0;
    assert l[i] <= 0.0 ==> l[i] * f <= 0.0;
  }
}
