/** The ordered-statistics decoder: most reliable basis, re-encoding, and the
    search over error patterns of weight at most two. */
module OsdCore {
  import opened Gf2
  import opened Elimination
  import opened RealSums

  const K_MAX := 91

  function Abs(x: real): (a: real)
    ensures a >= 0.0
  {
    if x < 0.0 then -x else x
  }

  /** The hard decision: a positive likelihood ratio decides for a 1. */
  predicate Hard(x: real) {
    x > 0.0
  }

  // ---------- Soft distance ----------

  function SoftTerms(llr: seq<real>, x: Bits): (t: seq<real>)
    requires |llr| == |x|
    ensures |t| == |x|
    ensures forall p :: 0 <= p < |x| ==> t[p] == if x[p] != Hard(llr[p]) then Abs(llr[p]) else 0.0
  {
    seq(|x|, p requires 0 <= p < |x| => if x[p] != Hard(llr[p]) then Abs(llr[p]) else 0.0)
  }

  /** The total reliability of the positions where x differs from the hard decisions. */
  function SoftDist(llr: seq<real>, x: Bits): real
    requires |llr| == |x|
  {
    Sum(SoftTerms(llr, x))
  }

  lemma SoftDistReordered(llr: seq<real>, x: Bits, perm: seq<nat>)
    requires |llr| == |x| && IsPermutation(perm, |x|)
    ensures SoftDist(Reordered(llr, perm), Reordered(x, perm)) == SoftDist(llr, x)
  {
    assert SoftTerms(Reordered(llr, perm), Reordered(x, perm)) == Reordered(SoftTerms(llr, x), perm);
    SumReordered(SoftTerms(llr, x), perm);
  }

  // ---------- Reliability order ----------

  /** Position a comes before position b in the stable descending order. */
  predicate Before(llr: seq<real>, a: nat, b: nat)
    requires a < |llr| && b < |llr|
  {
    Abs(llr[a]) > Abs(llr[b]) || (Abs(llr[a]) == Abs(llr[b]) && a < b)
  }

  /** The first index whose entry has to stay behind the new position n. */
  function InsertionPoint(llr: seq<real>, perm: seq<nat>, n: nat): (k: nat)
    requires n < |llr| && forall i :: 0 <= i < |perm| ==> perm[i] < |llr|
    ensures k <= |perm|
    ensures forall i :: k <= i < |perm| ==> Abs(llr[perm[i]]) < Abs(llr[n])
    ensures k > 0 ==> Abs(llr[perm[k - 1]]) >= Abs(llr[n])
  {
    if perm == [] || Abs(llr[perm[|perm| - 1]]) >= Abs(llr[n]) then |perm|
    else InsertionPoint(llr, perm[..|perm| - 1], n)
  }

  /** The stable sort of the first n positions by descending reliability. */
  function StableOrder(llr: seq<real>, n: nat): (perm: seq<nat>)
    requires n <= |llr|
    ensures |perm| == n && forall i :: 0 <= i < n ==> perm[i] < n
  {
    if n == 0 then []
    else
      var p := StableOrder(llr, n - 1);
      Inserted(p, InsertionPoint(llr, p, n - 1), n - 1)
  }

  function Inserted(p: seq<nat>, k: nat, n: nat): (r: seq<nat>)
    requires k <= |p|
    ensures |r| == |p| + 1
    ensures forall i :: 0 <= i < |r| ==> r[i] == if i < k then p[i] else if i == k then n else p[i - 1]
  {
    p[..k] + [n] + p[k..]
  }

  lemma InsertedPermutes(p: seq<nat>, k: nat, n: nat)
    requires IsPermutation(p, n) && k <= n
    ensures IsPermutation(Inserted(p, k, n), n + 1)
  {
    var r := Inserted(p, k, n);
    forall q | 0 <= q < n + 1 ensures q in r {
      if q == n {
        assert r[k] == n;
      } else {
        assert q in p;
        var i :| 0 <= i < n && p[i] == q;
        assert r[if i < k then i else i + 1] == q;
      }
    }
  }

  ghost predicate Ordered(llr: seq<real>, perm: seq<nat>) {
    && (forall i :: 0 <= i < |perm| ==> perm[i] < |llr|)
    && (forall i, j :: 0 <= i < j < |perm| ==> Before(llr, perm[i], perm[j]))
  }

  lemma InsertedOrdered(llr: seq<real>, p: seq<nat>, n: nat)
    requires n < |llr| && Ordered(llr, p) && forall i :: 0 <= i < |p| ==> p[i] < n
    ensures Ordered(llr, Inserted(p, InsertionPoint(llr, p, n), n))
  {
    var k := InsertionPoint(llr, p, n);
    forall i | 0 <= i < k ensures Before(llr, p[i], n) {
      assert i < k - 1 ==> Before(llr, p[i], p[k - 1]);
    }
    var r := Inserted(p, k, n);
    forall i, j | 0 <= i < j < |r| ensures Before(llr, r[i], r[j]) {
    }
  }

  lemma StableOrderNone(llr: seq<real>)
    ensures IsPermutation(StableOrder(llr, 0), 0) && Ordered(llr, StableOrder(llr, 0))
  {
  }

  lemma StableOrderStep(llr: seq<real>, n: nat)
    requires 0 < n <= |llr|
    ensures StableOrder(llr, n)
         == Inserted(StableOrder(llr, n - 1), InsertionPoint(llr, StableOrder(llr, n - 1), n - 1), n - 1)
  {
  }

  lemma {:induction false} StableOrderCorrect(llr: seq<real>, n: nat)
    requires n <= |llr|
    ensures IsPermutation(StableOrder(llr, n), n) && Ordered(llr, StableOrder(llr, n))
  {
    hide *;
    if n == 0 {
      StableOrderNone(llr);
    } else {
      var p := StableOrder(llr, n - 1);
      StableOrderCorrect(llr, n - 1);
      StableOrderStep(llr, n);
      InsertedPermutes(p, InsertionPoint(llr, p, n - 1), n - 1);
      InsertedOrdered(llr, p, n - 1);
    }
  }

  // ---------- Reordering the columns of the generator ----------

  function ReorderedColumns(gen: seq<Bits>, n: nat, perm: seq<nat>): (rows: seq<Bits>)
    requires IsMatrix(gen, n) && IsPermutation(perm, n)
    ensures IsMatrix(rows, n) && |rows| == |gen|
    ensures forall r :: 0 <= r < |gen| ==> rows[r] == Reordered(gen[r], perm)
  {
    seq(|gen|, r requires 0 <= r < |gen| => Reordered(gen[r], perm))
  }

  lemma CombineReordered(gen: seq<Bits>, n: nat, perm: seq<nat>, y: Bits)
    requires IsMatrix(gen, n) && IsPermutation(perm, n) && |y| == |gen|
    ensures Combine(ReorderedColumns(gen, n, perm), n, y) == Reordered(Combine(gen, n, y), perm)
  {
    var rows := ReorderedColumns(gen, n, perm);
    forall c | 0 <= c < n
      ensures Combine(rows, n, y)[c] == Combine(gen, n, y)[perm[c]]
    {
      assert Column(rows, n, c) == Column(gen, n, perm[c]);
    }
  }

  lemma ReorderedInjective(x: Bits, x': Bits, perm: seq<nat>)
    requires |x| == |x'| && IsPermutation(perm, |x|) && Reordered(x, perm) == Reordered(x', perm)
    ensures x == x'
  {
    forall p | 0 <= p < |x| ensures x[p] == x'[p] {
      assert p in perm;
      var c :| 0 <= c < |x| && perm[c] == p;
      assert Reordered(x, perm)[c] == Reordered(x', perm)[c];
    }
  }

  lemma SpanReordered(gen: seq<Bits>, n: nat, perm: seq<nat>, x: Bits)
    requires IsMatrix(gen, n) && IsPermutation(perm, n) && |x| == n
    ensures InSpan(gen, n, x) <==> InSpan(ReorderedColumns(gen, n, perm), n, Reordered(x, perm))
  {
    var rows := ReorderedColumns(gen, n, perm);
    if InSpan(gen, n, x) {
      var y: Bits :| |y| == |gen| && Combine(gen, n, y) == x;
      CombineReordered(gen, n, perm, y);
    }
    if InSpan(rows, n, Reordered(x, perm)) {
      var y: Bits :| |y| == |rows| && Combine(rows, n, y) == Reordered(x, perm);
      CombineReordered(gen, n, perm, y);
      ReorderedInjective(Combine(gen, n, y), x, perm);
    }
  }

  lemma DependentReordered(gen: seq<Bits>, n: nat, perm: seq<nat>)
    requires IsMatrix(gen, n) && IsPermutation(perm, n)
    ensures Dependent(gen, n) <==> Dependent(ReorderedColumns(gen, n, perm), n)
  {
    var rows := ReorderedColumns(gen, n, perm);
    forall y: Bits | |y| == |gen|
      ensures Combine(gen, n, y) == Zeros(n) <==> Combine(rows, n, y) == Zeros(n)
    {
      CombineReordered(gen, n, perm, y);
      assert Reordered(Zeros(n), perm) == Zeros(n);
      if Combine(rows, n, y) == Zeros(n) {
        ReorderedInjective(Combine(gen, n, y), Zeros(n), perm);
      }
    }
  }

  // ---------- Counting and inner products are order-free ----------

  function Indicator(m: Bits): (t: seq<real>)
    ensures |t| == |m| && forall i :: 0 <= i < |m| ==> t[i] == if m[i] then 1.0 else 0.0
  {
    seq(|m|, i requires 0 <= i < |m| => if m[i] then 1.0 else 0.0)
  }

  lemma CountAsSum(m: Bits, n: nat)
    requires n <= |m|
    ensures CountTo(m, n) as real == SumTo(Indicator(m), n)
  {
  }

  function Both(a: Bits, b: Bits): (m: Bits)
    requires |a| == |b|
    ensures |m| == |a| && forall i :: 0 <= i < |a| ==> m[i] == (a[i] && b[i])
  {
    seq(|a|, i requires 0 <= i < |a| => a[i] && b[i])
  }

  lemma DotAsParity(a: Bits, b: Bits, n: nat)
    requires |a| == |b| && n <= |a|
    ensures DotTo(a, b, n) == (CountTo(Both(a, b), n) % 2 == 1)
  {
  }

  lemma DotReordered(a: Bits, b: Bits, perm: seq<nat>)
    requires |a| == |b| && IsPermutation(perm, |a|)
    ensures Dot(Reordered(a, perm), Reordered(b, perm)) == Dot(a, b)
  {
    var n := |a|;
    var m := Both(a, b);
    assert Both(Reordered(a, perm), Reordered(b, perm)) == Reordered(m, perm);
    assert Indicator(Reordered(m, perm)) == Reordered(Indicator(m), perm);
    DotAsParity(a, b, n);
    DotAsParity(Reordered(a, perm), Reordered(b, perm), n);
    CountAsSum(m, n);
    CountAsSum(Reordered(m, perm), n);
    SumReordered(Indicator(m), perm);
  }

  /** The position in natural order of every reordered bit. */
  ghost function Restored(x: Bits, perm: seq<nat>): (r: Bits)
    requires IsPermutation(perm, |x|)
    ensures |r| == |x| && Reordered(r, perm) == x
  {
    var r := seq(|x|, p requires 0 <= p < |x| => x[IndexOf(perm, p)]);
    assert forall c :: 0 <= c < |x| ==> r[perm[c]] == x[c];
    r
  }

  ghost function IndexOf(perm: seq<nat>, p: nat): (c: nat)
    requires p in perm
    ensures c < |perm| && perm[c] == p
  {
    var c :| 0 <= c < |perm| && perm[c] == p;
    c
  }

  lemma IndependentReordered(gen: seq<Bits>, n: nat, perm: seq<nat>, m: Bits)
    requires IsMatrix(gen, n) && IsPermutation(perm, n) && |m| == n
    ensures IndependentColumns(gen, n, m)
       <==> IndependentColumns(ReorderedColumns(gen, n, perm), n, Reordered(m, perm))
  {
    var rows := ReorderedColumns(gen, n, perm);
    var m' := Reordered(m, perm);
    forall z: Bits | |z| == n
      ensures InKernel(gen, n, z) <==> InKernel(rows, n, Reordered(z, perm))
      ensures Within(z, m) <==> Within(Reordered(z, perm), m')
      ensures IsZero(z) <==> IsZero(Reordered(z, perm))
    {
      ReorderedPredicates(gen, n, perm, m, z);
    }
    if IndependentColumns(gen, n, m) {
      forall z': Bits | Within(z', m') && InKernel(rows, n, z') ensures IsZero(z') {
        var z := Restored(z', perm);
        assert Reordered(z, perm) == z';
      }
    }
  }

  lemma ReorderedPredicates(gen: seq<Bits>, n: nat, perm: seq<nat>, m: Bits, z: Bits)
    requires IsMatrix(gen, n) && IsPermutation(perm, n) && |m| == n && |z| == n
    ensures InKernel(gen, n, z) <==> InKernel(ReorderedColumns(gen, n, perm), n, Reordered(z, perm))
    ensures Within(z, m) <==> Within(Reordered(z, perm), Reordered(m, perm))
    ensures IsZero(z) <==> IsZero(Reordered(z, perm))
  {
    var rows := ReorderedColumns(gen, n, perm);
    forall r | 0 <= r < |gen| ensures Dot(gen[r], z) == Dot(rows[r], Reordered(z, perm)) {
      DotReordered(gen[r], z, perm);
    }
    forall p | 0 <= p < n
      ensures z[p] == Reordered(z, perm)[IndexOf(perm, p)]
      ensures m[p] == Reordered(m, perm)[IndexOf(perm, p)]
    {
      assert p in perm;
    }
  }

  // ---------- The most reliable basis ----------

  function MaskTerms(llr: seq<real>, m: Bits): (t: seq<real>)
    requires |llr| == |m|
    ensures |t| == |m| && forall p :: 0 <= p < |m| ==> t[p] == if m[p] then Abs(llr[p]) else 0.0
  {
    seq(|m|, p requires 0 <= p < |m| => if m[p] then Abs(llr[p]) else 0.0)
  }

  /** The total reliability of a set of positions. */
  function Weight(llr: seq<real>, m: Bits): real
    requires |llr| == |m|
  {
    Sum(MaskTerms(llr, m))
  }

  lemma WeightReordered(llr: seq<real>, m: Bits, perm: seq<nat>)
    requires |llr| == |m| && IsPermutation(perm, |m|)
    ensures Weight(Reordered(llr, perm), Reordered(m, perm)) == Weight(llr, m)
  {
    assert MaskTerms(Reordered(llr, perm), Reordered(m, perm)) == Reordered(MaskTerms(llr, m), perm);
    SumReordered(MaskTerms(llr, m), perm);
  }

  lemma TimesNonNegative(a: real, b: real)
    requires a >= 0.0 && b >= 0.0
    ensures Times(a, b) >= 0.0
  {
  }

  lemma Accumulate(total: real, surplus: real, gain: real, before: real, here: real)
    requires surplus >= 0.0 && before >= here && total >= Times(surplus, before)
    ensures total + Times(gain, here) >= Times(surplus + gain, here)
  {
    assert surplus * before >= surplus * here;
    assert (surplus + gain) * here == surplus * here + gain * here;
  }

  /** How much more the first c positions of m' weigh than those of m. */
  function Advantage(llr: seq<real>, m: Bits, m': Bits, c: nat): real
    requires |llr| == |m| == |m'| && c <= |m|
  {
    SumTo(MaskTerms(llr, m'), c) - SumTo(MaskTerms(llr, m), c)
  }

  function Surplus(m: Bits, m': Bits, c: nat): int
    requires |m| == |m'| && c <= |m|
  {
    CountTo(m', c) - CountTo(m, c)
  }

  lemma AdvantageStep(llr: seq<real>, m: Bits, m': Bits, c: nat)
    requires |llr| == |m| == |m'| && 0 < c <= |m|
    ensures Advantage(llr, m, m', c) == Advantage(llr, m, m', c - 1)
              + Times((Surplus(m, m', c) - Surplus(m, m', c - 1)) as real, Abs(llr[c - 1]))
  {
  }

  /** Summation by parts: with descending reliabilities, a mask that never holds
      more positions among the first ones than another does not weigh more. */
  lemma {:induction false} DominatedWeight(llr: seq<real>, m: Bits, m': Bits, c: nat)
    requires |llr| == |m| == |m'| && 0 < c <= |m|
    requires forall i, j :: 0 <= i < j < |llr| ==> Abs(llr[i]) >= Abs(llr[j])
    requires forall i :: 0 <= i <= |m| ==> Surplus(m, m', i) >= 0
    ensures Advantage(llr, m, m', c) >= Times(Surplus(m, m', c) as real, Abs(llr[c - 1]))
  {
    AdvantageStep(llr, m, m', c);
    if c == 1 {
      assert Advantage(llr, m, m', 0) == 0.0 && Surplus(m, m', 0) == 0;
      return;
    }
    hide Times, Advantage, Surplus, Abs;
    DominatedWeight(llr, m, m', c - 1);
    var s, s' := Surplus(m, m', c - 1), Surplus(m, m', c);
    Accumulate(Advantage(llr, m, m', c - 1), s as real, (s' - s) as real, Abs(llr[c - 2]), Abs(llr[c - 1]));
    assert s as real + (s' - s) as real == s' as real;
  }

  /** The columns in the mask are independent and no independent set of columns
      has a larger total reliability. */
  ghost predicate MostReliable(gen: seq<Bits>, n: nat, llr: seq<real>, m: Bits)
    requires IsMatrix(gen, n) && |llr| == n
  {
    && IndependentColumns(gen, n, m)
    && forall m': Bits :: IndependentColumns(gen, n, m') ==> Weight(llr, m') <= Weight(llr, m)
  }

  lemma PivotsMostReliable(rows: seq<Bits>, n: nat, llr: seq<real>, pivots: seq<nat>)
    requires Echelon(rows, n, pivots, n) && |llr| == n
    requires forall i, j :: 0 <= i < j < n ==> Abs(llr[i]) >= Abs(llr[j])
    ensures MostReliable(rows, n, llr, PivotMask(pivots, n))
  {
    var m := PivotMask(pivots, n);
    PivotsIndependent(rows, n, pivots);
    forall m': Bits | IndependentColumns(rows, n, m') ensures Weight(llr, m') <= Weight(llr, m) {
      forall c | 0 <= c <= n ensures Surplus(m', m, c) >= 0 {
        IndependentBound(rows, n, pivots, m', c);
      }
      if n > 0 {
        DominatedWeight(llr, m', m, n);
        TimesNonNegative(Surplus(m', m, n) as real, Abs(llr[n - 1]));
      }
    }
  }

  // ---------- Error patterns in the basis ----------

  function ClampedOrder(order: int): (o: nat)
    ensures o <= 2
  {
    if order < 0 then 0 else if order > 2 then 2 else order
  }

  /** The basis positions where x differs from the hard decisions. */
  function Mismatches(llr: seq<real>, basis: seq<nat>, x: Bits): (m: Bits)
    requires |x| == |llr| && forall i :: 0 <= i < |basis| ==> basis[i] < |llr|
    ensures |m| == |basis|
    ensures forall i :: 0 <= i < |basis| ==> m[i] == (x[basis[i]] != Hard(llr[basis[i]]))
  {
    seq(|basis|, i requires 0 <= i < |basis| => x[basis[i]] != Hard(llr[basis[i]]))
  }

  function MismatchCount(llr: seq<real>, basis: seq<nat>, x: Bits): nat
    requires |x| == |llr| && forall i :: 0 <= i < |basis| ==> basis[i] < |llr|
  {
    CountTo(Mismatches(llr, basis, x), |basis|)
  }

  function Flip(y: Bits, i: nat): (y': Bits)
    requires i < |y|
    ensures |y'| == |y|
  {
    y[i := !y[i]]
  }

  /** The soft distance of the codeword that the selection y encodes. */
  function Cost(rows: seq<Bits>, n: nat, llr: seq<real>, y: Bits): real
    requires IsMatrix(rows, n) && |llr| == n && |y| == |rows|
  {
    SoftDist(llr, Combine(rows, n, y))
  }

  /** d is at most the cost of every pattern of at most `order` flips of y. */
  ghost predicate LeastCost(rows: seq<Bits>, n: nat, llr: seq<real>, y: Bits, order: nat, d: real)
    requires IsMatrix(rows, n) && |llr| == n && |y| == |rows|
  {
    && d <= Cost(rows, n, llr, y)
    && (order >= 1 ==> forall i :: 0 <= i < |y| ==> d <= Cost(rows, n, llr, Flip(y, i)))
    && (order >= 2 ==> forall i, j :: 0 <= i < j < |y| ==> d <= Cost(rows, n, llr, Flip(Flip(y, i), j)))
  }

  lemma FlipBack(y: Bits, i: nat)
    requires i < |y|
    ensures Flip(Flip(y, i), i) == y
  {
  }

  lemma FlipsCommute(y: Bits, i: nat, j: nat)
    requires i < |y| && j < |y| && i != j
    ensures Flip(Flip(y, i), j) == Flip(Flip(y, j), i)
  {
  }

  lemma OneFlip(y: Bits, y': Bits, k: nat)
    requires |y| == |y'| && k < |y| && y'[k] != y[k]
    ensures CountTo(Xor(y, Flip(y', k)), |y|) == CountTo(Xor(y, y'), |y|) - 1
  {
    assert Xor(y, Flip(y', k)) == Xor(y, y')[k := false];
    CountToUpdate(Xor(y, y'), k, false, |y|);
  }

  lemma NoFlip(y: Bits, y': Bits)
    requires |y| == |y'|
    ensures CountTo(Xor(y, y'), |y|) == 0 <==> y == y'
  {
    if CountTo(Xor(y, y'), |y|) == 0 {
      forall i | 0 <= i < |y| ensures y[i] == y'[i] {
        if y[i] != y'[i] { OneFlip(y, y', i); }
      }
    } else {
      var k := CountToPositive(Xor(y, y'), |y|);
    }
  }

  /** The search covers every selection within `order` flips. */
  lemma LeastCostCovers(rows: seq<Bits>, n: nat, llr: seq<real>, y: Bits, order: nat, d: real, y': Bits)
    requires IsMatrix(rows, n) && |llr| == n && |y| == |rows| == |y'| && order <= 2
    requires LeastCost(rows, n, llr, y, order, d)
    requires CountTo(Xor(y, y'), |y|) <= order
    ensures d <= Cost(rows, n, llr, y')
  {
    NoFlip(y, y');
    if y == y' { return; }
    var i := CountToPositive(Xor(y, y'), |y|);
    OneFlip(y, y', i);
    FlipBack(y', i);
    NoFlip(y, Flip(y', i));
    if y == Flip(y', i) { return; }
    var j := CountToPositive(Xor(y, Flip(y', i)), |y|);
    OneFlip(y, Flip(y', i), j);
    FlipBack(Flip(y', i), j);
    NoFlip(y, Flip(Flip(y', i), j));
    assert i != j;
    hide Flip, Cost, Xor, CountTo;
    assert y == Flip(Flip(y', i), j);
    FlipsCommute(y, i, j);
    assert y' == Flip(Flip(y, j), i);
    assert i < j ==> d <= Cost(rows, n, llr, Flip(Flip(y, i), j));
  }

  // ---------- The decoder ----------

  /** Row-reduce, scanning the columns from the left, until every row has a pivot. */
  method Reduce(rows: array<Bits>, n: nat) returns (pivots: seq<nat>)
    requires IsMatrix(rows[..], n)
    modifies rows
    ensures IsMatrix(rows[..], n) && RowEquivalent(old(rows[..]), rows[..], n)
    ensures Echelon(rows[..], n, pivots, n)
  {
    pivots := [];
    var col := 0;
    assert RowEquivalent(rows[..], rows[..], n) && Echelon(rows[..], n, [], 0);
    hide RowEquivalent, Echelon, Pivoted;
    while col < n && |pivots| < rows.Length
      invariant col <= n && |pivots| <= rows.Length
      invariant IsMatrix(rows[..], n) && RowEquivalent(old(rows[..]), rows[..], n)
      invariant Echelon(rows[..], n, pivots, col)
    {
      var rank := |pivots|;
      var sel := FindPivot(rows, n, rank, col);
      ghost var before := rows[..];
      if sel == rows.Length {
        EchelonSkip(before, n, pivots, col);
      } else {
        rows[rank], rows[sel] := rows[sel], rows[rank];
        PivotRow(rows, n, rank, col, before, sel);
        EchelonPivot(before, n, pivots, col, sel);
        PivotedEquivalent(before, n, rank, sel, col);
        RowEquivalentTransitive(old(rows[..]), before, rows[..], n);
        pivots := pivots + [col];
      }
      col := col + 1;
    }
    EchelonFinished(rows[..], n, pivots, col);
  }

  /** Clear column col in every row but the pivot row. */
  method PivotRow(rows: array<Bits>, n: nat, rank: nat, col: nat, ghost before: seq<Bits>, ghost sel: nat)
    requires IsMatrix(before, n) && |before| == rows.Length && rank < rows.Length && sel < rows.Length && col < n
    requires rows[..] == SwapRows(before, n, rank, sel)
    modifies rows
    ensures rows[..] == Pivoted(before, n, rank, sel, col)
  {
    ghost var swapped := rows[..];
    var r := 0;
    while r < rows.Length
      invariant 0 <= r <= rows.Length
      invariant rows[..] == ClearedTo(swapped, n, rank, col, r)
    {
      assert forall i :: 0 <= i < rows.Length ==> rows[i] == rows[..][i];
      if r != rank && rows[r][col] {
        rows[r] := Xor(rows[r], rows[rank]);
      }
      r := r + 1;
    }
  }

  method Encode(rows: array<Bits>, n: nat, y: Bits) returns (c: Bits)
    requires IsMatrix(rows[..], n) && |y| == rows.Length
    ensures c == Combine(rows[..], n, y)
  {
    c := Zeros(n);
    CombineToZero(rows[..], n, y);
    var i := 0;
    while i < rows.Length
      invariant 0 <= i <= rows.Length
      invariant c == CombineTo(rows[..], n, y, i)
    {
      CombineToStep(rows[..], n, y, i);
      if y[i] {
        c := Xor(c, rows[i]);
      }
      i := i + 1;
    }
  }

  method SoftDistance(llr: seq<real>, c: Bits) returns (d: real)
    requires |llr| == |c|
    ensures d == SoftDist(llr, c)
  {
    d := 0.0;
    var p := 0;
    while p < |c|
      invariant 0 <= p <= |c|
      invariant d == SumTo(SoftTerms(llr, c), p)
    {
      if c[p] != Hard(llr[p]) {
        d := d + Abs(llr[p]);
      }
      p := p + 1;
    }
  }

  /** Try one more error pattern and keep the better codeword. */
  method Consider(rows: array<Bits>, n: nat, llr: seq<real>, yt: Bits, best: Bits, bestDist: real)
    returns (best': Bits, bestDist': real)
    requires IsMatrix(rows[..], n) && |llr| == n && |yt| == rows.Length
    ensures var d := Cost(rows[..], n, llr, yt);
            if d < bestDist then best' == Combine(rows[..], n, yt) && bestDist' == d
            else best' == best && bestDist' == bestDist
  {
    var c := Encode(rows, n, yt);
    var d := SoftDistance(llr, c);
    if d < bestDist {
      best', bestDist' := c, d;
    } else {
      best', bestDist' := best, bestDist;
    }
  }

  /** best encodes yb, which is within `order` flips of y. */
  ghost predicate Candidate(rows: seq<Bits>, n: nat, llr: seq<real>, y: Bits, yb: Bits, order: nat,
                            best: Bits, bestDist: real)
    requires IsMatrix(rows, n) && |llr| == n && |y| == |rows|
  {
    && |yb| == |y| && best == Combine(rows, n, yb) && bestDist == Cost(rows, n, llr, yb)
    && CountTo(Xor(y, yb), |y|) <= order
  }

  /** Test every error pattern of weight one. */
  method SearchSingles(rows: array<Bits>, n: nat, llr: seq<real>, y: Bits, best0: Bits, bestDist0: real, ghost yb0: Bits)
    returns (best: Bits, bestDist: real, ghost yb: Bits)
    requires IsMatrix(rows[..], n) && |llr| == n && |y| == rows.Length
    requires Candidate(rows[..], n, llr, y, yb0, 1, best0, bestDist0)
    ensures Candidate(rows[..], n, llr, y, yb, 1, best, bestDist) && bestDist <= bestDist0
    ensures forall i :: 0 <= i < |y| ==> bestDist <= Cost(rows[..], n, llr, Flip(y, i))
  {
    best, bestDist, yb := best0, bestDist0, yb0;
    var i := 0;
    while i < |y|
      invariant 0 <= i <= |y|
      invariant Candidate(rows[..], n, llr, y, yb, 1, best, bestDist) && bestDist <= bestDist0
      invariant forall i' :: 0 <= i' < i ==> bestDist <= Cost(rows[..], n, llr, Flip(y, i'))
    {
      hide Cost, Combine, Flip, Xor, CountTo;
      var yt := Flip(y, i);
      SingleFlip(y, i);
      if Cost(rows[..], n, llr, yt) < bestDist { yb := yt; }
      best, bestDist := Consider(rows, n, llr, yt, best, bestDist);
      i := i + 1;
    }
  }

  /** Test every error pattern of weight two. */
  method SearchPairs(rows: array<Bits>, n: nat, llr: seq<real>, y: Bits, best0: Bits, bestDist0: real, ghost yb0: Bits)
    returns (best: Bits, bestDist: real, ghost yb: Bits)
    requires IsMatrix(rows[..], n) && |llr| == n && |y| == rows.Length
    requires Candidate(rows[..], n, llr, y, yb0, 2, best0, bestDist0)
    ensures Candidate(rows[..], n, llr, y, yb, 2, best, bestDist) && bestDist <= bestDist0
    ensures forall i, j :: 0 <= i < j < |y| ==> bestDist <= Cost(rows[..], n, llr, Flip(Flip(y, i), j))
  {
    best, bestDist, yb := best0, bestDist0, yb0;
    var i := 0;
    while i < |y|
      invariant 0 <= i <= |y|
      invariant Candidate(rows[..], n, llr, y, yb, 2, best, bestDist) && bestDist <= bestDist0
      invariant forall i', j :: 0 <= i' < i && i' < j < |y| ==>
        bestDist <= Cost(rows[..], n, llr, Flip(Flip(y, i'), j))
    {
      hide Cost, Combine, Flip, Xor, CountTo;
      ghost var before := bestDist;
      var j := i + 1;
      while j < |y|
        invariant i < j <= |y|
        invariant Candidate(rows[..], n, llr, y, yb, 2, best, bestDist) && bestDist <= before
        invariant forall j' :: i < j' < j ==> bestDist <= Cost(rows[..], n, llr, Flip(Flip(y, i), j'))
      {
        var yt := Flip(Flip(y, i), j);
        TwoFlips(y, i, j);
        if Cost(rows[..], n, llr, yt) < bestDist { yb := yt; }
        best, bestDist := Consider(rows, n, llr, yt, best, bestDist);
        j := j + 1;
      }
      i := i + 1;
    }
  }

  /** Test every error pattern of weight up to `order` and keep the closest codeword. */
  method Search(rows: array<Bits>, n: nat, llr: seq<real>, y: Bits, order: nat)
    returns (best: Bits, bestDist: real, ghost yb: Bits)
    requires IsMatrix(rows[..], n) && |llr| == n && |y| == rows.Length
    ensures Candidate(rows[..], n, llr, y, yb, order, best, bestDist)
    ensures LeastCost(rows[..], n, llr, y, order, bestDist)
  {
    best := Encode(rows, n, y);
    bestDist := SoftDistance(llr, best);
    yb := y;
    NoFlip(y, y);
    hide Cost, Combine, Flip, Xor, CountTo;
    if order >= 1 {
      best, bestDist, yb := SearchSingles(rows, n, llr, y, best, bestDist, yb);
    }
    if order >= 2 {
      best, bestDist, yb := SearchPairs(rows, n, llr, y, best, bestDist, yb);
    }
  }

  lemma SingleFlip(y: Bits, i: nat)
    requires i < |y|
    ensures CountTo(Xor(y, Flip(y, i)), |y|) == 1
  {
    NoFlip(y, y);
    FlipBack(y, i);
    OneFlip(y, Flip(y, i), i);
  }

  lemma TwoFlips(y: Bits, i: nat, j: nat)
    requires i < j < |y|
    ensures CountTo(Xor(y, Flip(Flip(y, i), j)), |y|) == 2
  {
    NoFlip(y, y);
    FlipBack(y, i);
    FlipBack(Flip(y, i), j);
    assert Flip(y, i)[i] != y[i] && Flip(Flip(y, i), j)[j] != y[j];
    OneFlip(y, Flip(y, i), i);
    OneFlip(y, Flip(Flip(y, i), j), j);
  }

  // ---------- Back to natural bit order ----------

  function BasisOf(perm: seq<nat>, pivots: seq<nat>): (basis: seq<nat>)
    requires forall j :: 0 <= j < |pivots| ==> pivots[j] < |perm|
    ensures |basis| == |pivots| && forall j :: 0 <= j < |pivots| ==> basis[j] == perm[pivots[j]]
  {
    seq(|pivots|, j requires 0 <= j < |pivots| => perm[pivots[j]])
  }

  predicate Distinct(basis: seq<nat>) {
    forall i, j :: 0 <= i < j < |basis| ==> basis[i] != basis[j]
  }

  /** Different pivots come from different positions. */
  lemma BasisDistinct(perm: seq<nat>, rows: seq<Bits>, n: nat, pivots: seq<nat>)
    requires IsPermutation(perm, n) && Echelon(rows, n, pivots, n)
    ensures Distinct(BasisOf(perm, pivots))
  {
    var basis := BasisOf(perm, pivots);
    forall i, j | 0 <= i < j < |basis| ensures basis[i] != basis[j] {
      assert pivots[i] < pivots[j];
    }
  }

  lemma BasisMask(perm: seq<nat>, pivots: seq<nat>, n: nat)
    requires IsPermutation(perm, n) && forall j :: 0 <= j < |pivots| ==> pivots[j] < n
    ensures Reordered(PivotMask(BasisOf(perm, pivots), n), perm) == PivotMask(pivots, n)
  {
    var basis := BasisOf(perm, pivots);
    forall c | 0 <= c < n ensures perm[c] in basis <==> c in pivots {
      if c in pivots {
        var j :| 0 <= j < |pivots| && pivots[j] == c;
        assert basis[j] == perm[c];
      }
      if perm[c] in basis {
        var j :| 0 <= j < |basis| && basis[j] == perm[c];
        assert pivots[j] == c;
      }
    }
  }

  lemma IndependentEquivalent(a: seq<Bits>, b: seq<Bits>, n: nat, m: Bits)
    requires RowEquivalent(a, b, n)
    ensures IndependentColumns(a, n, m) <==> IndependentColumns(b, n, m)
  {
    forall z: Bits ensures InKernel(a, n, z) <==> InKernel(b, n, z) {
      RowEquivalentKernel(a, b, n, z);
    }
  }

  /** The pivots found in reliability order are a most reliable basis in natural order. */
  lemma NaturalBasis(gen: seq<Bits>, n: nat, llr: seq<real>, perm: seq<nat>, rows: seq<Bits>, pivots: seq<nat>)
    requires IsMatrix(gen, n) && |llr| == n && IsPermutation(perm, n) && Ordered(llr, perm)
    requires RowEquivalent(ReorderedColumns(gen, n, perm), rows, n)
    requires Echelon(rows, n, pivots, n)
    ensures MostReliable(gen, n, llr, PivotMask(BasisOf(perm, pivots), n))
  {
    var sorted := Reordered(llr, perm);
    var reordered := ReorderedColumns(gen, n, perm);
    var m := PivotMask(BasisOf(perm, pivots), n);
    assert forall i, j :: 0 <= i < j < n ==> Before(llr, perm[i], perm[j]);
    PivotsMostReliable(rows, n, sorted, pivots);
    BasisMask(perm, pivots, n);
    IndependentReordered(gen, n, perm, m);
    IndependentEquivalent(reordered, rows, n, Reordered(m, perm));
    WeightReordered(llr, m, perm);
    forall m': Bits | IndependentColumns(gen, n, m') ensures Weight(llr, m') <= Weight(llr, m) {
      IndependentReordered(gen, n, perm, m');
      IndependentEquivalent(reordered, rows, n, Reordered(m', perm));
      WeightReordered(llr, m', perm);
    }
  }

  /** The state between elimination and search: rows is the reduced, reordered
      generator with a pivot in every row, y the hard decisions at the pivots. */
  ghost predicate Prepared(gen: seq<Bits>, n: nat, llr: seq<real>, perm: seq<nat>, rows: seq<Bits>,
                           pivots: seq<nat>, y: Bits)
  {
    && IsMatrix(gen, n) && |llr| == n && IsPermutation(perm, n)
    && RowEquivalent(ReorderedColumns(gen, n, perm), rows, n)
    && Echelon(rows, n, pivots, n) && |pivots| == |rows| == |y|
    && forall j :: 0 <= j < |y| ==> y[j] == Hard(llr[perm[pivots[j]]])
  }

  /** A codeword is selected by its own pivot bits, at the price of its soft distance. */
  lemma NaturalCodeword(gen: seq<Bits>, n: nat, llr: seq<real>, perm: seq<nat>, rows: seq<Bits>,
                        pivots: seq<nat>, y: Bits, c: Bits) returns (yc: Bits)
    requires Prepared(gen, n, llr, perm, rows, pivots, y)
    requires |c| == n && InSpan(gen, n, c)
    ensures |yc| == |rows| && Combine(rows, n, yc) == Reordered(c, perm)
    ensures Cost(rows, n, Reordered(llr, perm), yc) == SoftDist(llr, c)
    ensures MismatchCount(llr, BasisOf(perm, pivots), c) == CountTo(Xor(y, yc), |y|)
  {
    SpanReordered(gen, n, perm, c);
    assert InSpan(rows, n, Reordered(c, perm));
    yc :| |yc| == |rows| && Combine(rows, n, yc) == Reordered(c, perm);
    SoftDistReordered(llr, c, perm);
    forall j | 0 <= j < |y| ensures Reordered(c, perm)[pivots[j]] == yc[j] {
      ReadOff(rows, n, pivots, yc, j);
    }
    CountToAgree(Mismatches(llr, BasisOf(perm, pivots), c), Xor(y, yc), |y|);
  }

  lemma UniqueSelection(rows: seq<Bits>, n: nat, pivots: seq<nat>, y: Bits, y': Bits)
    requires Echelon(rows, n, pivots, n) && |pivots| == |rows| == |y| == |y'|
    requires Combine(rows, n, y) == Combine(rows, n, y')
    ensures y == y'
  {
    forall j | 0 <= j < |y| ensures y[j] == y'[j] {
      ReadOff(rows, n, pivots, y, j);
      ReadOff(rows, n, pivots, y', j);
    }
  }

  /** What a selection encodes is a codeword with the selection's cost and flips. */
  lemma SelectedCodeword(gen: seq<Bits>, n: nat, llr: seq<real>, perm: seq<nat>, rows: seq<Bits>,
                         pivots: seq<nat>, y: Bits, yb: Bits, x: Bits)
    requires Prepared(gen, n, llr, perm, rows, pivots, y)
    requires |x| == n && |yb| == |rows| && Combine(rows, n, yb) == Reordered(x, perm)
    ensures InSpan(gen, n, x)
    ensures SoftDist(llr, x) == Cost(rows, n, Reordered(llr, perm), yb)
    ensures MismatchCount(llr, BasisOf(perm, pivots), x) == CountTo(Xor(y, yb), |y|)
  {
    SpanReordered(gen, n, perm, x);
    assert InSpan(rows, n, Reordered(x, perm));
    var yx := NaturalCodeword(gen, n, llr, perm, rows, pivots, y, x);
    UniqueSelection(rows, n, pivots, yx, yb);
  }

  /** No codeword within `order` basis mismatches is closer than d. */
  ghost predicate Nearest(gen: seq<Bits>, n: nat, llr: seq<real>, basis: seq<nat>, order: nat, d: real)
    requires IsMatrix(gen, n) && |llr| == n && forall i :: 0 <= i < |basis| ==> basis[i] < n
  {
    forall c: Bits :: |c| == n && InSpan(gen, n, c) && MismatchCount(llr, basis, c) <= order
      ==> d <= SoftDist(llr, c)
  }

  lemma SearchIsNearest(gen: seq<Bits>, n: nat, llr: seq<real>, perm: seq<nat>, rows: seq<Bits>,
                        pivots: seq<nat>, y: Bits, order: nat, d: real)
    requires Prepared(gen, n, llr, perm, rows, pivots, y) && order <= 2
    requires LeastCost(rows, n, Reordered(llr, perm), y, order, d)
    ensures Nearest(gen, n, llr, BasisOf(perm, pivots), order, d)
  {
    forall c: Bits | |c| == n && InSpan(gen, n, c) && MismatchCount(llr, BasisOf(perm, pivots), c) <= order
      ensures d <= SoftDist(llr, c)
    {
      var yc := NaturalCodeword(gen, n, llr, perm, rows, pivots, y, c);
      LeastCostCovers(rows, n, Reordered(llr, perm), y, order, d, yc);
    }
  }

  /** Map a codeword in reliability order back to natural bit order. */
  method Unpermute(best: Bits, perm: seq<nat>) returns (x: Bits)
    requires IsPermutation(perm, |best|)
    ensures |x| == |best| && Reordered(x, perm) == best
  {
    x := Zeros(|best|);
    var c := 0;
    while c < |best|
      invariant 0 <= c <= |best| && |x| == |best|
      invariant forall i :: 0 <= i < c ==> x[perm[i]] == best[i]
    {
      assert forall i :: 0 <= i < c ==> perm[i] != perm[c];
      x := x[perm[c] := best[c]];
      c := c + 1;
    }
  }

  /** Sort by reliability, reduce the reordered generator, and take the hard
      decisions at the pivots; fails exactly when the generator lacks full rank. */
  method Prepare(llr: seq<real>, gen: seq<Bits>)
    returns (full: bool, perm: seq<nat>, rows: array<Bits>, pivots: seq<nat>, y: Bits)
    requires IsMatrix(gen, |llr|)
    ensures full <==> !Dependent(gen, |llr|)
    ensures |perm| == |llr| && IsPermutation(perm, |llr|) && |pivots| <= |gen| == rows.Length
    ensures forall j :: 0 <= j < |pivots| ==> pivots[j] < |llr|
    ensures MostReliable(gen, |llr|, llr, PivotMask(BasisOf(perm, pivots), |llr|)) && Distinct(BasisOf(perm, pivots))
    ensures IsMatrix(rows[..], |llr|)
    ensures full ==> |pivots| == |gen| == |y| && Prepared(gen, |llr|, llr, perm, rows[..], pivots, y)
  {
    var n := |llr|;
    perm := StableOrder(llr, n);
    StableOrderCorrect(llr, n);
    rows := new Bits[|gen|](r requires 0 <= r < |gen| => Reordered(gen[r], perm));
    ghost var reordered := ReorderedColumns(gen, n, perm);
    assert rows[..] == reordered;
    pivots := Reduce(rows, n);
    EchelonDependent(rows[..], n, pivots);
    DependentReordered(gen, n, perm);
    NaturalBasis(gen, n, llr, perm, rows[..], pivots);
    BasisDistinct(perm, rows[..], n, pivots);
    full := |pivots| == rows.Length;
    y := seq(|pivots|, i requires 0 <= i < |pivots| => Hard(llr[perm[pivots[i]]]));
  }

  /** Ordered-statistics decoding.  Succeeds exactly for 1..K_MAX independent
      generator rows; the result is a codeword, and among all codewords that
      differ from the hard decisions in at most `order` positions of a most
      reliable basis none has a smaller soft distance. */
  method OsdDecode(llr: seq<real>, gen: seq<Bits>, order: int)
    returns (ok: bool, xhat: Bits, softDist: real, ghost basis: seq<nat>)
    requires IsMatrix(gen, |llr|)
    ensures ok <==> 1 <= |gen| <= K_MAX && !Dependent(gen, |llr|)
    ensures ok ==> |basis| == |gen| && (forall i :: 0 <= i < |basis| ==> basis[i] < |llr|)
    ensures ok ==> Distinct(basis) && MostReliable(gen, |llr|, llr, PivotMask(basis, |llr|))
    ensures ok ==> |xhat| == |llr| && InSpan(gen, |llr|, xhat) && softDist == SoftDist(llr, xhat)
    ensures ok ==> MismatchCount(llr, basis, xhat) <= ClampedOrder(order)
    ensures ok ==> Nearest(gen, |llr|, llr, basis, ClampedOrder(order), softDist)
  {
    hide Distinct, MostReliable, Prepared, Dependent, InSpan, Cost, LeastCost, Nearest, Combine, IsMatrix, IsPermutation;
    var n := |llr|;
    ok, xhat, softDist, basis := false, [], 0.0, [];
    if |gen| < 1 || |gen| > K_MAX {
      return;
    }
    var full, perm, rows, pivots, y := Prepare(llr, gen);
    if !full {
      return;
    }
    ghost var reduced := rows[..];
    basis := BasisOf(perm, pivots);
    var best, bestDist, yb := Search(rows, n, Reordered(llr, perm), y, ClampedOrder(order));

    xhat := Unpermute(best, perm);
    SelectedCodeword(gen, n, llr, perm, reduced, pivots, y, yb, xhat);
    SearchIsNearest(gen, n, llr, perm, reduced, pivots, y, ClampedOrder(order), bestDist);
    ok, softDist := true, bestDist;
  }
}
