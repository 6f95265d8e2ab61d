/** The transform of a real, even-length input through a complex transform of
    half the length. */
module KissFftr {
  import opened Complex
  import opened Dft
  import opened NatArithmetic
  import opened Butterflies
  import opened KissFft

  const I := Cpx(0.0, 1.0)

  /** The real input as complex samples. */
  function RealSignal(x: seq<real>): (z: seq<Cpx>)
    ensures |z| == |x| && forall j :: 0 <= j < |x| ==> z[j] == Cpx(x[j], 0.0)
  {
    seq(|x|, j requires 0 <= j < |x| => Cpx(x[j], 0.0))
  }

  /** Neighbouring real samples read as one complex sample. */
  function Paired(x: seq<real>, nc: nat): (z: seq<Cpx>)
    requires |x| == 2 * nc
    ensures |z| == nc && forall j :: 0 <= j < nc ==> z[j] == Cpx(x[2 * j], x[2 * j + 1])
  {
    seq(nc, j requires 0 <= j < nc => Cpx(x[2 * j], x[2 * j + 1]))
  }

  /** The tables of the half-length transform, as entries of the full-length one:
      every second twiddle factor, and the super twiddles -i * w[k]. */
  ghost predicate HalfTables(tw: seq<Cpx>, superTw: seq<Cpx>, w: seq<Cpx>) {
    var nc := |tw|;
    && nc > 0 && |w| == 2 * nc && Twiddles(w, false)
    && (forall a :: 0 <= a < nc ==> tw[a] == w[2 * a])
    && |superTw| == nc / 2
    && (forall k :: 1 <= k <= nc / 2 ==> superTw[k - 1] == Mul(w[k], Cpx(0.0, -1.0)))
  }

  /** The transform of every second real sample, starting with the first or second. */
  function HalfBin(x: seq<real>, nc: nat, q: nat, w: seq<Cpx>, k: nat): Cpx
    requires |w| > 0
  {
    Bin(Decimated(RealSignal(x), 2, nc, q), w, 2, k)
  }

  // ---------- Conjugate symmetry ----------

  /** Exponents that add up to whole turns belong to conjugate factors. */
  lemma TwOpposite(tw: seq<Cpx>, inverse: bool, a: nat, b: nat, turns: nat)
    requires |tw| > 0 && Twiddles(tw, inverse) && a + b == Times(|tw|, turns)
    ensures Tw(tw, b) == Conj(Tw(tw, a))
  {
    var n := |tw|;
    var i, j := a % n, b % n;
    ModAddOf(a, b, n, i, j);
    ModTurns(0, turns, n);
    assert (i + j) % n == 0;
    OppositeResidues(i, j, n);
    if i > 0 {
      assert tw[n - i] == Conj(tw[i]);
    }
  }

  lemma OppositeResidues(i: nat, j: nat, n: nat)
    requires i < n && j < n && (i + j) % n == 0
    ensures i + j == 0 || i + j == n
  {
    if i + j < n {
      DivModUnique(i + j, 0, i + j, n);
    } else {
      DivModUnique(i + j, 1, i + j - n, n);
    }
  }

  lemma OppositeExponents(s: nat, j: nat, k: nat, k': nat, n: nat)
    requires Times(s, k + k') == n || k + k' == 0
    ensures Product(s, j, k) + Product(s, j, k') == Times(n, if k + k' == 0 then 0 else j)
  {
    assert s * j * k + s * j * k' == s * j * (k + k');
    assert s * j * (k + k') == s * (k + k') * j by {
      assert s * j * (k + k') == s * (j * (k + k'));
      assert s * (k + k') * j == s * ((k + k') * j);
    }
    if k + k' == 0 {
      assert s * j * 0 == 0;
    }
  }

  ghost predicate IsReal(d: seq<Cpx>) {
    forall j :: 0 <= j < |d| ==> d[j].i == 0.0
  }

  /** Opposite bins of a real signal are conjugate. */
  lemma ConjugateBins(d: seq<Cpx>, tw: seq<Cpx>, inverse: bool, s: nat, k: nat, k': nat)
    requires |tw| > 0 && Twiddles(tw, inverse) && IsReal(d)
    requires Times(s, k + k') == |tw| || k + k' == 0
    ensures Bin(d, tw, s, k') == Conj(Bin(d, tw, s, k))
  {
    var f, g := DftTerm(d, tw, s, k), DftTerm(d, tw, s, k');
    forall j: nat | j < |d| ensures g(j) == Conj(f(j)) {
      ConjugateTerm(d, tw, inverse, s, k, k', j);
    }
    hide Twiddles, Times, Tw, Product;
    SumConj(f, |d|);
    SumAgree(g, (j: nat) => Conj(f(j)), |d|);
  }

  lemma ConjugateTerm(d: seq<Cpx>, tw: seq<Cpx>, inverse: bool, s: nat, k: nat, k': nat, j: nat)
    requires |tw| > 0 && Twiddles(tw, inverse) && IsReal(d) && j < |d|
    requires Times(s, k + k') == |tw| || k + k' == 0
    ensures DftTerm(d, tw, s, k')(j) == Conj(DftTerm(d, tw, s, k)(j))
  {
    hide Twiddles, Times, Tw, Product, Mul;
    OppositeExponents(s, j, k, k', |tw|);
    TwOpposite(tw, inverse, Product(s, j, k), Product(s, j, k'), if k + k' == 0 then 0 else j);
    ConjMul(d[j], Tw(tw, Product(s, j, k)));
    assert Conj(d[j]) == d[j];
  }

  // ---------- The paired transform ----------

  lemma PairedTerm(e: Cpx, o: Cpx, t: Cpx)
    ensures Mul(Add(e, Mul(o, I)), t) == Add(Mul(e, t), Mul(Mul(o, t), I))
  {
    hide Mul;
    MulDistributes(e, Mul(o, I), t);
    MulAssociates(o, I, t);
    MulAssociates(o, t, I);
    MulByI(t);
  }

  lemma MulByI(t: Cpx)
    ensures Mul(I, t) == Mul(t, I)
  {
  }

  /** The half-length table is the full-length one at even exponents. */
  lemma EvenTable(tw: seq<Cpx>, superTw: seq<Cpx>, w: seq<Cpx>, j: nat, k: nat)
    requires HalfTables(tw, superTw, w)
    ensures Tw(tw, Product(1, j, k)) == Tw(w, Product(2, j, k))
  {
    var e, nc := j * k, |tw|;
    assert 1 * j * k == e;
    assert 2 * j * k == 2 * e;
    assert e == (e / nc) * nc + e % nc;
    DivModUnique(2 * e, e / nc, 2 * (e % nc), 2 * nc);
  }

  /** Transforming the pairs transforms both halves at once. */
  lemma PairedBin(x: seq<real>, tw: seq<Cpx>, superTw: seq<Cpx>, w: seq<Cpx>, k: nat)
    requires HalfTables(tw, superTw, w) && |x| == 2 * |tw|
    ensures Bin(Paired(x, |tw|), tw, 1, k)
         == Add(HalfBin(x, |tw|, 0, w, k), Mul(HalfBin(x, |tw|, 1, w, k), I))
  {
    var nc := |tw|;
    var z, e, o := Paired(x, nc), Decimated(RealSignal(x), 2, nc, 0), Decimated(RealSignal(x), 2, nc, 1);
    var f, g, h := DftTerm(z, tw, 1, k), DftTerm(e, w, 2, k), DftTerm(o, w, 2, k);
    forall j: nat | j < nc ensures f(j) == Add(g(j), Scaled(h, I)(j)) {
      EvenTable(tw, superTw, w, j, k);
      PairedSample(x, nc, j);
      PairedTerm(e[j], o[j], Tw(w, Product(2, j, k)));
    }
    hide HalfTables, Times, Tw, Product, Mul, Add;
    SumAgree(f, (j: nat) => Add(g(j), Scaled(h, I)(j)), nc);
    SumAdd(g, Scaled(h, I), nc);
    SumScale(h, I, nc);
  }

  lemma PairedSample(x: seq<real>, nc: nat, j: nat)
    requires |x| == 2 * nc && j < nc
    ensures var e, o := Decimated(RealSignal(x), 2, nc, 0), Decimated(RealSignal(x), 2, nc, 1);
            && e[j] == Cpx(x[2 * j], 0.0) && o[j] == Cpx(x[2 * j + 1], 0.0)
            && Paired(x, nc)[j] == Add(e[j], Mul(o[j], I))
  {
    assert Times(2, j) == 2 * j;
  }

  lemma HalvesAreReal(x: seq<real>, nc: nat, q: nat)
    requires |x| == 2 * nc && q < 2
    ensures IsReal(Decimated(RealSignal(x), 2, nc, q))
  {
    forall j: nat | j < nc ensures Decimated(RealSignal(x), 2, nc, q)[j].i == 0.0 {
      assert Times(2, j) == 2 * j;
    }
  }

  // ---------- Full bins from half bins ----------

  /** Decimation by two: bin k of the full transform, k up to 2*nc. */
  lemma FullBin(x: seq<real>, nc: nat, w: seq<Cpx>, k: nat)
    requires |x| == 2 * nc && nc > 0 && |w| == 2 * nc && Twiddles(w, false) && k < 2 * nc
    ensures Bin(RealSignal(x), w, 1, k)
         == Add(HalfBin(x, nc, 0, w, Rem(k, nc)), Mul(HalfBin(x, nc, 1, w, Rem(k, nc)), Tw(w, k)))
  {
    var z := RealSignal(x);
    var y := Transform(Decimated(z, 2, nc, 0), w, 2) + Transform(Decimated(z, 2, nc, 1), w, 2);
    TablesOfTwo(nc);
    forall q: nat, u: nat | q < 2 && u < nc
      ensures At(y, Times(q, nc) + u) == Bin(Decimated(z, 2, nc, q), w, Times(1, 2), u)
    {
      SmallMultiples(nc);
    }
    DecimationInTime(z, y, w, false, 2, nc, 1);
    TwoParts(z, y, w, nc, k);
  }

  lemma TablesOfTwo(nc: nat)
    ensures Product(1, 2, nc) == 2 * nc && Times(2, nc) == 2 * nc && Times(1, 2) == 2
  {
  }

  lemma TwoParts(z: seq<Cpx>, y: seq<Cpx>, w: seq<Cpx>, nc: nat, k: nat)
    requires |w| > 0 && nc > 0 && |z| == 2 * nc && k < 2 * nc && Twiddles(w, false)
    requires Recombined(y, w, 2, nc, 1) == Transform(z, w, 1)
    requires y == Transform(Decimated(z, 2, nc, 0), w, 2) + Transform(Decimated(z, 2, nc, 1), w, 2)
    ensures Bin(z, w, 1, k)
         == Add(Bin(Decimated(z, 2, nc, 0), w, 2, Rem(k, nc)),
                Mul(Bin(Decimated(z, 2, nc, 1), w, 2, Rem(k, nc)), Tw(w, k)))
  {
    hide Twiddles, Times, Tw, Product, Mul, Bin, Decimated;
    var f := RecombineTerm(y, w, nc, 1, k);
    TwoTerms(y, w, nc, k);
    SmallSums(f);
    SmallMultiples(nc);
    assert Transform(z, w, 1)[k] == Bin(z, w, 1, k);
  }

  lemma TwoTerms(y: seq<Cpx>, w: seq<Cpx>, nc: nat, k: nat)
    requires |w| > 0 && nc > 0 && Twiddles(w, false)
    ensures var f := RecombineTerm(y, w, nc, 1, k);
            && f(0) == At(y, Rem(k, nc)) && f(1) == Mul(At(y, nc + Rem(k, nc)), Tw(w, k))
  {
    hide Twiddles, Times, Tw, Product, Mul;
    SmallMultiples(nc);
    ProductStep(1, 0, k);
    TimesLeftOne(k);
    TwKnown(w, false, 0);
    MulOne(At(y, Rem(k, nc)));
  }

  // ---------- Unpacking ----------

  /** Bin k of the real signal's transform. */
  function RealBin(x: seq<real>, w: seq<Cpx>, k: nat): Cpx
    requires |w| > 0
  {
    Bin(RealSignal(x), w, 1, k)
  }

  lemma ISquared(o: Cpx)
    ensures Mul(o, I) == Cpx(-o.i, o.r) && Mul(o, Cpx(0.0, -1.0)) == Cpx(o.i, -o.r)
  {
  }

  /** The difference of the paired bins, turned by the super twiddle, is 2*o*w. */
  lemma SuperTurn(o: Cpx, w: Cpx)
    ensures var oi := Mul(o, I);
            Mul(Add(oi, oi), Mul(w, Cpx(0.0, -1.0))) == Add(Mul(o, w), Mul(o, w))
  {
    ISquared(o);
    ISquared(w);
    hide SMul;
    var d := Add(Mul(o, I), Mul(o, I));
    SMulAdd(o.r, o.r, -w.r);
    SMulAdd(-o.i, -o.i, w.i);
    SMulAdd(o.r, o.r, w.i);
    SMulAdd(-o.i, -o.i, -w.r);
    SMulNeg(o.r, w.r);
    SMulNeg(o.i, w.i);
    SMulNeg(o.i, -w.r);
    SMulNeg(o.i, w.r);
  }

  /** Two opposite output bins from two opposite bins of the paired transform. */
  lemma Unpacked(e: Cpx, o: Cpx, w: Cpx, fpk: Cpx, fpnk: Cpx, f1k: Cpx, t: Cpx)
    requires fpk == Add(e, Mul(o, I)) && fpnk == Sub(e, Mul(o, I))
    requires f1k == Add(fpk, fpnk) && t == Mul(Sub(fpk, fpnk), Mul(w, Cpx(0.0, -1.0)))
    ensures Cpx((f1k.r + t.r) * 0.5, (f1k.i + t.i) * 0.5) == Add(e, Mul(o, w))
    ensures Cpx((f1k.r - t.r) * 0.5, (t.i - f1k.i) * 0.5) == Conj(Sub(e, Mul(o, w)))
  {
    var oi := Mul(o, I);
    assert Sub(fpk, fpnk) == Add(oi, oi);
    SuperTurn(o, w);
    hide Mul;
  }

  /** The bins of the halves at k and the opposite index. */
  lemma HalfBins(x: seq<real>, tw: seq<Cpx>, superTw: seq<Cpx>, w: seq<Cpx>, k: nat, k': nat)
    requires HalfTables(tw, superTw, w) && |x| == 2 * |tw|
    requires k + k' == |tw| || k + k' == 0
    ensures var nc := |tw|;
            var e, o := HalfBin(x, nc, 0, w, k), HalfBin(x, nc, 1, w, k);
            && Bin(Paired(x, nc), tw, 1, k) == Add(e, Mul(o, I))
            && Conj(Bin(Paired(x, nc), tw, 1, k')) == Sub(e, Mul(o, I))
            && HalfBin(x, nc, 0, w, k') == Conj(e) && HalfBin(x, nc, 1, w, k') == Conj(o)
  {
    var nc := |tw|;
    TablesOfTwo(k + k');
    HalvesAreReal(x, nc, 0);
    HalvesAreReal(x, nc, 1);
    TablesMatch(tw, superTw, w);
    hide HalfTables, Twiddles, Times, Bin, Paired, Decimated, Mul;
    ConjugateBins(Decimated(RealSignal(x), 2, nc, 0), w, false, 2, k, k');
    ConjugateBins(Decimated(RealSignal(x), 2, nc, 1), w, false, 2, k, k');
    PairedBin(x, tw, superTw, w, k);
    PairedBin(x, tw, superTw, w, k');
    ConjOfSum(HalfBin(x, nc, 0, w, k), HalfBin(x, nc, 1, w, k));
  }

  lemma TablesMatch(tw: seq<Cpx>, superTw: seq<Cpx>, w: seq<Cpx>)
    requires HalfTables(tw, superTw, w)
    ensures |w| == 2 * |tw| > 0 && Twiddles(w, false) && |superTw| == |tw| / 2
  {
  }

  lemma ConjOfSum(e: Cpx, o: Cpx)
    ensures Conj(Add(Conj(e), Mul(Conj(o), I))) == Sub(e, Mul(o, I))
  {
    ISquared(o);
    ISquared(Conj(o));
  }

  /** The opposite twiddle factor of the full-length table. */
  lemma OppositeFactor(tw: seq<Cpx>, superTw: seq<Cpx>, w: seq<Cpx>, k: nat)
    requires HalfTables(tw, superTw, w) && 1 <= k <= |tw|
    ensures Tw(w, |tw| - k) == Neg(Conj(Tw(w, k)))
  {
    hide HalfTables, Twiddles, Tw, Mul, Conj, Neg;
    var nc := |tw|;
    TablesMatch(tw, superTw, w);
    TimesOne(2 * nc);
    TwOpposite(w, false, k, 2 * nc - k, 1);
    TwAdd(w, false, nc, nc - k);
    TwKnown(w, false, nc);
    MinusOne(Tw(w, nc - k));
  }

  lemma MinusOne(a: Cpx)
    ensures Mul(Cpx(-1.0, 0.0), a) == Neg(a) && Neg(Neg(a)) == a
  {
  }

  lemma ConjNegProduct(e: Cpx, o: Cpx, w: Cpx)
    ensures Add(Conj(e), Mul(Conj(o), Neg(Conj(w)))) == Conj(Sub(e, Mul(o, w)))
  {
    ConjMul(o, w);
    MulNeg(Conj(o), Conj(w));
  }

  lemma MulNeg(a: Cpx, b: Cpx)
    ensures Mul(a, Neg(b)) == Neg(Mul(a, b))
  {
    hide SMul;
    SMulNeg(a.r, b.r);
    SMulNeg(a.i, b.i);
    SMulNeg(a.r, b.i);
    SMulNeg(a.i, b.r);
  }

  /** Output bins k and nc - k in terms of the half bins at k. */
  lemma OutputBins(x: seq<real>, tw: seq<Cpx>, superTw: seq<Cpx>, w: seq<Cpx>, k: nat)
    requires HalfTables(tw, superTw, w) && |x| == 2 * |tw| && 1 <= k < |tw|
    ensures var nc := |tw|;
            var e, o := HalfBin(x, nc, 0, w, k), HalfBin(x, nc, 1, w, k);
            && RealBin(x, w, k) == Add(e, Mul(o, Tw(w, k)))
            && RealBin(x, w, nc - k) == Conj(Sub(e, Mul(o, Tw(w, k))))
  {
    var nc := |tw|;
    TablesMatch(tw, superTw, w);
    SmallRem(k, nc);
    SmallRem(nc - k, nc);
    hide HalfTables, Twiddles, Tw, Mul, HalfBin, Bin, Rem, Conj;
    FullBin(x, nc, w, k);
    FullBin(x, nc, w, nc - k);
    HalfBins(x, tw, superTw, w, k, nc - k);
    OppositeFactor(tw, superTw, w, k);
    ConjNegProduct(HalfBin(x, nc, 0, w, k), HalfBin(x, nc, 1, w, k), Tw(w, k));
  }

  lemma SmallRem(k: nat, m: nat)
    requires k < m
    ensures Rem(k, m) == k
  {
    DivModUnique(k, 0, k, m);
  }

  /** The first and the middle bin from the sum and the difference of the parts of
      the first paired bin. */
  lemma EdgeBins(x: seq<real>, tw: seq<Cpx>, superTw: seq<Cpx>, w: seq<Cpx>)
    requires HalfTables(tw, superTw, w) && |x| == 2 * |tw|
    ensures var nc, tdc := |tw|, Bin(Paired(x, |tw|), tw, 1, 0);
            && RealBin(x, w, 0) == Cpx(tdc.r + tdc.i, 0.0)
            && RealBin(x, w, nc) == Cpx(tdc.r - tdc.i, 0.0)
  {
    hide HalfTables, Twiddles, Tw, Bin, Rem, HalfBin, Conj, Mul;
    var nc := |tw|;
    TablesMatch(tw, superTw, w);
    var e, o := HalfBin(x, nc, 0, w, 0), HalfBin(x, nc, 1, w, 0);
    EdgeRems(nc);
    FullBin(x, nc, w, 0);
    FullBin(x, nc, w, nc);
    HalfBins(x, tw, superTw, w, 0, 0);
    SelfConjugate(e);
    SelfConjugate(o);
    TwKnown(w, false, nc);
    ISquared(o);
    MulOne(o);
    MulMinusOne(o);
  }

  lemma EdgeRems(nc: nat)
    requires nc > 0
    ensures Rem(0, nc) == 0 && Rem(nc, nc) == 0
  {
    DivModUnique(0, 0, 0, nc);
    DivModUnique(nc, 1, 0, nc);
  }

  lemma SelfConjugate(a: Cpx)
    ensures a == Conj(a) ==> a.i == 0.0
  {
  }

  lemma MulMinusOne(a: Cpx)
    ensures Mul(a, Cpx(-1.0, 0.0)) == Neg(a)
  {
  }

  /** The real-input transform; refuses a configuration for the inverse direction. */
  method RealTransform(cfg: Config, superTw: seq<Cpx>, timedata: array<real>, freqdata: array<Cpx>, ghost w: seq<Cpx>)
    returns (ok: bool)
    requires ValidConfig(cfg) && (!cfg.inverse ==> HalfTables(cfg.tw, superTw, w))
    requires timedata.Length == 2 * |cfg.tw| && |cfg.tw| < freqdata.Length
    modifies freqdata
    ensures ok <==> !cfg.inverse
    ensures ok ==> forall k: nat :: k <= |cfg.tw| ==> freqdata[k] == RealBin(timedata[..], w, k)
    ensures forall k :: 0 <= k < freqdata.Length && (!ok || k > |cfg.tw|) ==> freqdata[k] == old(freqdata[k])
  {
    hide ValidConfig, HalfTables, Bin, Mul, Tw, RealBin, HalfBin;
    if cfg.inverse {
      return false;
    }
    var nc := |cfg.tw|;
    TablesMatch(cfg.tw, superTw, w);
    ghost var x := timedata[..];
    var tmpbuf := PackedTransform(cfg, timedata);
    EdgeBins(x, cfg.tw, superTw, w);
    var tdc := tmpbuf[0];
    freqdata[0] := Cpx(tdc.r + tdc.i, 0.0);
    freqdata[nc] := Cpx(tdc.r - tdc.i, 0.0);
    var k := 1;
    while k <= nc / 2
      invariant 1 <= k <= nc / 2 + 1
      invariant forall j: nat :: j < nc ==> tmpbuf[j] == Bin(Paired(x, nc), cfg.tw, 1, j)
      invariant freqdata[0] == RealBin(x, w, 0) && freqdata[nc] == RealBin(x, w, nc)
      invariant forall j: nat :: 1 <= j < k ==> freqdata[j] == RealBin(x, w, j)
      invariant forall j: nat :: nc - k < j < nc ==> freqdata[j] == RealBin(x, w, j)
      invariant forall j :: nc < j < freqdata.Length ==> freqdata[j] == old(freqdata[j])
    {
      var fpk := tmpbuf[k];
      var fpnk := Conj(tmpbuf[nc - k]);
      var f1k := Add(fpk, fpnk);
      var f2k := Sub(fpk, fpnk);
      var t := Mul(f2k, superTw[k - 1]);
      OutputPair(x, cfg.tw, superTw, w, k, fpk, fpnk, f1k, t);
      freqdata[k] := Cpx((f1k.r + t.r) * 0.5, (f1k.i + t.i) * 0.5);
      freqdata[nc - k] := Cpx((f1k.r - t.r) * 0.5, (t.i - f1k.i) * 0.5);
      k := k + 1;
    }
    ok := true;
  }

  lemma OutputPair(x: seq<real>, tw: seq<Cpx>, superTw: seq<Cpx>, w: seq<Cpx>, k: nat,
                   fpk: Cpx, fpnk: Cpx, f1k: Cpx, t: Cpx)
    requires |w| > 0 && HalfTables(tw, superTw, w) && |x| == 2 * |tw| && 1 <= k <= |tw| / 2 <= |superTw|
    requires fpk == Bin(Paired(x, |tw|), tw, 1, k) && fpnk == Conj(Bin(Paired(x, |tw|), tw, 1, |tw| - k))
    requires f1k == Add(fpk, fpnk) && t == Mul(Sub(fpk, fpnk), superTw[k - 1])
    ensures RealBin(x, w, k) == Cpx((f1k.r + t.r) * 0.5, (f1k.i + t.i) * 0.5)
    ensures RealBin(x, w, |tw| - k) == Cpx((f1k.r - t.r) * 0.5, (t.i - f1k.i) * 0.5)
  {
    hide HalfTables, Bin, HalfBin, RealBin, Tw, Mul, Add, Sub, Conj;
    var nc := |tw|;
    var e, o := HalfBin(x, nc, 0, w, k), HalfBin(x, nc, 1, w, k);
    TablesMatch(tw, superTw, w);
    SuperEntry(tw, superTw, w, k);
    OutputBins(x, tw, superTw, w, k);
    HalfBins(x, tw, superTw, w, k, nc - k);
    Unpacked(e, o, Tw(w, k), fpk, fpnk, f1k, t);
  }

  lemma SuperEntry(tw: seq<Cpx>, superTw: seq<Cpx>, w: seq<Cpx>, k: nat)
    requires HalfTables(tw, superTw, w) && 1 <= k <= |tw| / 2 <= |superTw|
    ensures |w| > 0 && superTw[k - 1] == Mul(Tw(w, k), Cpx(0.0, -1.0))
  {
    hide Mul;
    TwSmall(w, k);
  }

  /** The half-length complex transform of the paired samples. */
  method PackedTransform(cfg: Config, timedata: array<real>) returns (tmpbuf: array<Cpx>)
    requires ValidConfig(cfg) && timedata.Length == 2 * |cfg.tw|
    ensures fresh(tmpbuf) && tmpbuf.Length == |cfg.tw|
    ensures forall k: nat :: k < |cfg.tw| ==> tmpbuf[k] == Bin(Paired(timedata[..], |cfg.tw|), cfg.tw, 1, k)
  {
    var nc := |cfg.tw|;
    assert nc > 0;
    hide Bin;
    var packed := new Cpx[nc](j requires 0 <= j < nc && timedata.Length == 2 * nc reads timedata =>
      Cpx(timedata[2 * j], timedata[2 * j + 1]));
    tmpbuf := new Cpx[nc](_ => Zero);
    assert packed[..] == Paired(timedata[..], nc);
    ghost var blank := tmpbuf[..];
    TimesLeftOne(nc - 1);
    KissFftStride(cfg, packed, tmpbuf, 1);
    WholeInput(Paired(timedata[..], nc), nc);
    SplicedWhole(blank, PairedTransform(timedata[..], nc, cfg.tw));
    assert tmpbuf[..] == PairedTransform(timedata[..], nc, cfg.tw);
    assert forall k: nat :: k < nc ==> tmpbuf[k] == tmpbuf[..][k];
  }

  ghost function PairedTransform(x: seq<real>, nc: nat, tw: seq<Cpx>): (y: seq<Cpx>)
    requires |x| == 2 * nc && |tw| > 0
    ensures |y| == nc && forall k: nat :: k < nc ==> y[k] == Bin(Paired(x, nc), tw, 1, k)
  {
    Transform(Paired(x, nc), tw, 1)
  }

  lemma WholeInput(z: seq<Cpx>, n: nat)
    requires |z| == n
    ensures Samples(z, 0, 1, n) == z
  {
    forall j: nat | j < n ensures At(z, 0 + Times(1, j)) == z[j] {
      TimesLeftOne(j);
    }
  }
}
