/** The mixed-radix transform: in-place butterflies for radices 2, 3, 4, 5 and any
    other, and the recursive decimation in time over a chain of radices. */
module KissFft {
  import opened Complex
  import opened Dft
  import opened NatArithmetic
  import opened Butterflies

  /** The stage of radix p over m-point transforms fits the buffer and the table. */
  ghost predicate StageFits(len: nat, lo: nat, s: nat, tw: seq<Cpx>, inverse: bool, p: nat, m: nat) {
    |tw| > 0 && Twiddles(tw, inverse) && m > 0 && |tw| == Product(s, p, m) && lo + Times(p, m) <= len
  }

  /** The contents after the stage. */
  function Stage(a: seq<Cpx>, lo: nat, tw: seq<Cpx>, p: nat, m: nat, s: nat): (r: seq<Cpx>)
    requires |tw| > 0 && m > 0 && lo + Times(p, m) <= |a|
    ensures |r| == Times(p, m)
  {
    Recombined(a[lo..lo + Times(p, m)], tw, p, m, s)
  }

  /** Entry v of column u of the stage, for the small radices. */
  lemma StageValue(a: seq<Cpx>, lo: nat, tw: seq<Cpx>, inverse: bool, p: nat, m: nat, s: nat, u: nat, v: nat)
    requires StageFits(|a|, lo, s, tw, inverse, p, m) && u < m && v < p && 2 <= p <= 5
    ensures Times(v, m) + u < Times(p, m)
    ensures Stage(a, lo, tw, p, m, s)[Times(v, m) + u]
         == SmallBin(a[lo..lo + Times(p, m)], tw, p, m, s, u, v)
  {
    hide Twiddles, Times, Product, SmallBin, RecombineBin;
    IndexBelow(v, u, p, m);
    BinAsSmall(a[lo..lo + Times(p, m)], tw, inverse, p, m, s, u, v);
  }

  /** Entry q of column u is still the original one, and its twiddle factor is in the table. */
  lemma StageInput(a: seq<Cpx>, lo: nat, tw: seq<Cpx>, inverse: bool, p: nat, m: nat, s: nat, u: nat, q: nat)
    requires StageFits(|a|, lo, s, tw, inverse, p, m) && u < m && q < p
    ensures Times(q, m) + u < Times(p, m)
    ensures Mixed(a, lo, Stage(a, lo, tw, p, m, s), m, u, 0)[lo + Times(q, m) + u]
         == At(a[lo..lo + Times(p, m)], Times(q, m) + u)
    ensures Product(s, q, u) < |tw| && tw[Product(s, q, u)] == Tw(tw, Product(s, q, u))
  {
    hide Twiddles, Times, Product, Tw;
    IndexBelow(q, u, p, m);
    MixedRead(a, lo, Stage(a, lo, tw, p, m, s), m, u, q);
    ProductBelow(s, q, u, p, m);
    TwSmall(tw, Product(s, q, u));
  }

  lemma StageTurned(a: seq<Cpx>, lo: nat, tw: seq<Cpx>, inverse: bool, p: nat, m: nat, s: nat, u: nat, q: nat)
    requires StageFits(|a|, lo, s, tw, inverse, p, m) && u < m && q < p
    ensures Times(q, m) + u < Times(p, m) && Product(s, q, u) < |tw|
    ensures Mul(Mixed(a, lo, Stage(a, lo, tw, p, m, s), m, u, 0)[lo + Times(q, m) + u], tw[Product(s, q, u)])
         == Turned(a[lo..lo + Times(p, m)], tw, m, s, u, q)
  {
    hide Twiddles, Times, Product, Tw, Mul;
    StageInput(a, lo, tw, inverse, p, m, s, u, q);
  }

  /** Fetch input q of column u and turn it by its twiddle factor. */
  method Load(fout: array<Cpx>, i: nat, tw: seq<Cpx>, e: nat, ghost a: seq<Cpx>, ghost lo: nat, ghost inverse: bool,
              ghost p: nat, ghost m: nat, ghost s: nat, ghost u: nat, ghost q: nat) returns (x: Cpx)
    requires StageFits(fout.Length, lo, s, tw, inverse, p, m) && |a| == fout.Length && u < m && q < p
    requires i == lo + Times(q, m) + u && e == Product(s, q, u)
    requires fout[..] == Mixed(a, lo, Stage(a, lo, tw, p, m, s), m, u, 0)
    ensures x == Turned(a[lo..lo + Times(p, m)], tw, m, s, u, q)
  {
    hide Twiddles, Times, Product, Tw, Mul, Turned, Stage, Mixed;
    StageTurned(a, lo, tw, inverse, p, m, s, u, q);
    assert fout[i] == fout[..][i];
    x := Mul(fout[i], tw[e]);
  }

  /** Store output q of column u. */
  method Store(fout: array<Cpx>, i: nat, x: Cpx, ghost a: seq<Cpx>, ghost lo: nat, ghost r: seq<Cpx>,
               ghost m: nat, ghost u: nat, ghost q: nat)
    requires |a| == fout.Length && lo + |r| <= |a| && u < m && Times(q, m) + u < |r|
    requires i == lo + Times(q, m) + u && x == r[Times(q, m) + u]
    requires fout[..] == Mixed(a, lo, r, m, u, q)
    modifies fout
    ensures fout[..] == Mixed(a, lo, r, m, u, q + 1)
  {
    MixedWrite(a, lo, r, m, u, q);
    fout[i] := x;
  }

  /** Radix 2. */
  method Bfly2(fout: array<Cpx>, lo: nat, s: nat, tw: seq<Cpx>, inverse: bool, m: nat)
    requires StageFits(fout.Length, lo, s, tw, inverse, 2, m)
    modifies fout
    ensures fout[..] == Spliced(old(fout[..]), lo, Stage(old(fout[..]), lo, tw, 2, m, s))
  {
    hide Twiddles, Times, Product, Tw, Mul, Add, Sub, Turned, SmallBin, Stage, Spliced, Mixed;
    ghost var a := fout[..];
    ghost var r := Stage(a, lo, tw, 2, m, s);
    SmallMultiples(m);
    MixedStart(a, lo, r, m);
    ProductStep(s, 1, 0);
    var tw1, u := 0, 0;
    while u < m
      invariant 0 <= u <= m && tw1 == Product(s, 1, u)
      invariant fout[..] == Mixed(a, lo, r, m, u, 0)
    {
      StageInput(a, lo, tw, inverse, 2, m, s, u, 0);
      var t := Load(fout, lo + m + u, tw, tw1, a, lo, inverse, 2, m, s, u, 1);
      tw1 := tw1 + s;
      ProductStep(s, 1, u);
      TimesOne(s);
      Radix2(a[lo..lo + Times(2, m)], tw, inverse, m, s, u);
      StageValue(a, lo, tw, inverse, 2, m, s, u, 0);
      StageValue(a, lo, tw, inverse, 2, m, s, u, 1);
      var f := fout[lo + u];
      Store(fout, lo + u, Add(f, t), a, lo, r, m, u, 0);
      Store(fout, lo + m + u, Sub(f, t), a, lo, r, m, u, 1);
      MixedColumn(a, lo, r, m, u, 2);
      u := u + 1;
    }
  }

  /** Radix 3. */
  method Bfly3(fout: array<Cpx>, lo: nat, s: nat, tw: seq<Cpx>, inverse: bool, m: nat)
    requires StageFits(fout.Length, lo, s, tw, inverse, 3, m)
    modifies fout
    ensures fout[..] == Spliced(old(fout[..]), lo, Stage(old(fout[..]), lo, tw, 3, m, s))
  {
    hide Twiddles, Times, Product, Tw, SMul, Mul, Add, Sub, Turned, SmallBin, Stage, Spliced, Mixed;
    ghost var a := fout[..];
    ghost var r := Stage(a, lo, tw, 3, m, s);
    SmallMultiples(m);
    MixedStart(a, lo, r, m);
    ProductStep(s, 1, 0);
    ProductStep(s, 2, 0);
    FirstRoot(tw, s, 3, m);
    var epi3 := tw[Times(s, m)];
    var tw1, tw2, u := 0, 0, 0;
    while u < m
      invariant 0 <= u <= m && tw1 == Product(s, 1, u) && tw2 == Product(s, 2, u)
      invariant fout[..] == Mixed(a, lo, r, m, u, 0)
    {
      StageInput(a, lo, tw, inverse, 3, m, s, u, 0);
      var f := fout[lo + u];
      var scratch1 := Load(fout, lo + m + u, tw, tw1, a, lo, inverse, 3, m, s, u, 1);
      var scratch2 := Load(fout, lo + 2 * m + u, tw, tw2, a, lo, inverse, 3, m, s, u, 2);
      var scratch3 := Add(scratch1, scratch2);
      var scratch0 := Sub(scratch1, scratch2);
      ProductStep(s, 1, u);
      ProductStep(s, 2, u);
      TimesOne(s);
      TimesTwo(s);
      tw1 := tw1 + s;
      tw2 := tw2 + s * 2;
      var half := Cpx(f.r - scratch3.r * 0.5, f.i - scratch3.i * 0.5);
      scratch0 := Cpx(SMul(scratch0.r, epi3.i), SMul(scratch0.i, epi3.i));
      Radix3(a[lo..lo + Times(3, m)], tw, inverse, m, s, u);
      StageValue(a, lo, tw, inverse, 3, m, s, u, 0);
      StageValue(a, lo, tw, inverse, 3, m, s, u, 1);
      StageValue(a, lo, tw, inverse, 3, m, s, u, 2);
      Store(fout, lo + u, Add(f, scratch3), a, lo, r, m, u, 0);
      Store(fout, lo + m + u, Cpx(half.r - scratch0.i, half.i + scratch0.r), a, lo, r, m, u, 1);
      Store(fout, lo + 2 * m + u, Cpx(half.r + scratch0.i, half.i - scratch0.r), a, lo, r, m, u, 2);
      MixedColumn(a, lo, r, m, u, 3);
      u := u + 1;
    }
  }

  lemma FirstRoot(tw: seq<Cpx>, s: nat, p: nat, m: nat)
    requires |tw| > 0 && |tw| == Product(s, p, m) && p > 1 && m > 0
    ensures Times(s, m) < |tw| && tw[Times(s, m)] == Tw(tw, Times(s, m)) == Root(tw, Times(s, m), 1)
  {
    IndexBelow(1, 0, p, m);
    SmallMultiples(m);
    TimesBelow(s, m, p, m);
    TwSmall(tw, Times(s, m));
    RootOne(tw, Times(s, m));
  }

  lemma TimesTwo(a: nat)
    ensures Times(a, 2) == a * 2 && Times(a, 3) == a * 3
  {
  }

  /** Radix 4. */
  method Bfly4(fout: array<Cpx>, lo: nat, s: nat, tw: seq<Cpx>, inverse: bool, m: nat)
    requires StageFits(fout.Length, lo, s, tw, inverse, 4, m)
    modifies fout
    ensures fout[..] == Spliced(old(fout[..]), lo, Stage(old(fout[..]), lo, tw, 4, m, s))
  {
    hide Twiddles, Times, Product, Tw, Stage, Spliced, Mixed;
    ghost var a := fout[..];
    ghost var r := Stage(a, lo, tw, 4, m, s);
    MixedStart(a, lo, r, m);
    ProductStep(s, 1, 0);
    ProductStep(s, 2, 0);
    ProductStep(s, 3, 0);
    TimesOne(s);
    TimesTwo(s);
    var tw1, tw2, tw3, u := 0, 0, 0, 0;
    while u < m
      invariant 0 <= u <= m && tw1 == Product(s, 1, u) && tw2 == Product(s, 2, u) && tw3 == Product(s, 3, u)
      invariant fout[..] == Mixed(a, lo, r, m, u, 0)
    {
      BflyColumn4(fout, lo, s, tw, inverse, m, u, tw1, tw2, tw3, a);
      ProductStep(s, 1, u);
      ProductStep(s, 2, u);
      ProductStep(s, 3, u);
      tw1 := tw1 + s;
      tw2 := tw2 + s * 2;
      tw3 := tw3 + s * 3;
      u := u + 1;
    }
  }

  /** Column u of the radix-4 stage. */
  method BflyColumn4(fout: array<Cpx>, lo: nat, s: nat, tw: seq<Cpx>, inverse: bool, m: nat, u: nat,
                     tw1: nat, tw2: nat, tw3: nat, ghost a: seq<Cpx>)
    requires StageFits(fout.Length, lo, s, tw, inverse, 4, m) && |a| == fout.Length && u < m
    requires tw1 == Product(s, 1, u) && tw2 == Product(s, 2, u) && tw3 == Product(s, 3, u)
    requires fout[..] == Mixed(a, lo, Stage(a, lo, tw, 4, m, s), m, u, 0)
    modifies fout
    ensures fout[..] == Mixed(a, lo, Stage(a, lo, tw, 4, m, s), m, u + 1, 0)
  {
    hide Twiddles, Times, Product, Tw, Mul, Add, Sub, Turned, Stage, Mixed, SmallBin;
    SmallMultiples(m);
    ghost var y := a[lo..lo + Times(4, m)];
    StageInput(a, lo, tw, inverse, 4, m, s, u, 0);
    ghost var r := Stage(a, lo, tw, 4, m, s);
    Radix4(y, tw, inverse, m, s, u);
    StageValue(a, lo, tw, inverse, 4, m, s, u, 0);
    StageValue(a, lo, tw, inverse, 4, m, s, u, 1);
    StageValue(a, lo, tw, inverse, 4, m, s, u, 2);
    StageValue(a, lo, tw, inverse, 4, m, s, u, 3);
    var f := fout[lo + u];
    var scratch0 := Load(fout, lo + m + u, tw, tw1, a, lo, inverse, 4, m, s, u, 1);
    var scratch1 := Load(fout, lo + 2 * m + u, tw, tw2, a, lo, inverse, 4, m, s, u, 2);
    var scratch2 := Load(fout, lo + 3 * m + u, tw, tw3, a, lo, inverse, 4, m, s, u, 3);
    var scratch5 := Sub(f, scratch1);
    f := Add(f, scratch1);
    var scratch3 := Add(scratch0, scratch2);
    var scratch4 := Sub(scratch0, scratch2);
    var plus := Cpx(scratch5.r - scratch4.i, scratch5.i + scratch4.r);
    var minus := Cpx(scratch5.r + scratch4.i, scratch5.i - scratch4.r);
    Store(fout, lo + u, Add(f, scratch3), a, lo, r, m, u, 0);
    Store(fout, lo + m + u, if inverse then plus else minus, a, lo, r, m, u, 1);
    Store(fout, lo + 2 * m + u, Sub(f, scratch3), a, lo, r, m, u, 2);
    Store(fout, lo + 3 * m + u, if inverse then minus else plus, a, lo, r, m, u, 3);
    MixedColumn(a, lo, r, m, u, 4);
  }

  /** Radix 5. */
  method Bfly5(fout: array<Cpx>, lo: nat, s: nat, tw: seq<Cpx>, inverse: bool, m: nat)
    requires StageFits(fout.Length, lo, s, tw, inverse, 5, m)
    modifies fout
    ensures fout[..] == Spliced(old(fout[..]), lo, Stage(old(fout[..]), lo, tw, 5, m, s))
  {
    hide Twiddles, Times, Product, Tw, Stage, Spliced, Mixed, Root;
    ghost var a := fout[..];
    ghost var r := Stage(a, lo, tw, 5, m, s);
    MixedStart(a, lo, r, m);
    FirstRoot(tw, s, 5, m);
    SecondRoot(tw, s, 5, m);
    var ya, yb := tw[Times(s, m)], tw[Product(s, 2, m)];
    var u := 0;
    while u < m
      invariant 0 <= u <= m
      invariant fout[..] == Mixed(a, lo, r, m, u, 0)
    {
      BflyColumn5(fout, lo, s, tw, inverse, m, u, ya, yb, a);
      u := u + 1;
    }
  }

  /** Column u of the radix-5 stage. */
  method BflyColumn5(fout: array<Cpx>, lo: nat, s: nat, tw: seq<Cpx>, inverse: bool, m: nat, u: nat,
                     ya: Cpx, yb: Cpx, ghost a: seq<Cpx>)
    requires StageFits(fout.Length, lo, s, tw, inverse, 5, m) && |a| == fout.Length && u < m
    requires ya == Root(tw, Times(s, m), 1) && yb == Root(tw, Times(s, m), 2)
    requires fout[..] == Mixed(a, lo, Stage(a, lo, tw, 5, m, s), m, u, 0)
    modifies fout
    ensures fout[..] == Mixed(a, lo, Stage(a, lo, tw, 5, m, s), m, u + 1, 0)
  {
    hide Twiddles, Times, Product, Tw, Mul, Turned, Stage, Mixed, Root, SmallBin, Spliced;
    SmallMultiples(m);
    ghost var y := a[lo..lo + Times(5, m)];
    StageInput(a, lo, tw, inverse, 5, m, s, u, 0);
    ghost var r := Stage(a, lo, tw, 5, m, s);
    StageValue(a, lo, tw, inverse, 5, m, s, u, 0);
    StageValue(a, lo, tw, inverse, 5, m, s, u, 1);
    StageValue(a, lo, tw, inverse, 5, m, s, u, 2);
    StageValue(a, lo, tw, inverse, 5, m, s, u, 3);
    StageValue(a, lo, tw, inverse, 5, m, s, u, 4);
    var scratch0 := fout[lo + u];
    var scratch1 := Load(fout, lo + m + u, tw, Product(s, 1, u), a, lo, inverse, 5, m, s, u, 1);
    var scratch2 := Load(fout, lo + 2 * m + u, tw, Product(s, 2, u), a, lo, inverse, 5, m, s, u, 2);
    var scratch3 := Load(fout, lo + 3 * m + u, tw, Product(s, 3, u), a, lo, inverse, 5, m, s, u, 3);
    var scratch4 := Load(fout, lo + 4 * m + u, tw, Product(s, 4, u), a, lo, inverse, 5, m, s, u, 4);
    var x0, x1, x2, x3, x4 := FivePoints(scratch0, scratch1, scratch2, scratch3, scratch4, ya, yb, y, tw, inverse, m, s, u);
    Store(fout, lo + u, x0, a, lo, r, m, u, 0);
    Store(fout, lo + m + u, x1, a, lo, r, m, u, 1);
    Store(fout, lo + 2 * m + u, x2, a, lo, r, m, u, 2);
    Store(fout, lo + 3 * m + u, x3, a, lo, r, m, u, 3);
    Store(fout, lo + 4 * m + u, x4, a, lo, r, m, u, 4);
    MixedColumn(a, lo, r, m, u, 5);
  }

  /** The five outputs of a column from its turned inputs. */
  method FivePoints(scratch0: Cpx, scratch1: Cpx, scratch2: Cpx, scratch3: Cpx, scratch4: Cpx, ya: Cpx, yb: Cpx,
                    ghost y: seq<Cpx>, ghost tw: seq<Cpx>, ghost inverse: bool, ghost m: nat, ghost s: nat, ghost u: nat)
    returns (x0: Cpx, x1: Cpx, x2: Cpx, x3: Cpx, x4: Cpx)
    requires |tw| > 0 && Twiddles(tw, inverse) && u < m && |tw| == Product(s, 5, m)
    requires ya == Root(tw, Times(s, m), 1) && yb == Root(tw, Times(s, m), 2)
    requires scratch0 == At(y, u) && scratch1 == Turned(y, tw, m, s, u, 1) && scratch2 == Turned(y, tw, m, s, u, 2)
    requires scratch3 == Turned(y, tw, m, s, u, 3) && scratch4 == Turned(y, tw, m, s, u, 4)
    ensures x0 == SmallBin(y, tw, 5, m, s, u, 0) && x1 == SmallBin(y, tw, 5, m, s, u, 1)
    ensures x2 == SmallBin(y, tw, 5, m, s, u, 2) && x3 == SmallBin(y, tw, 5, m, s, u, 3)
    ensures x4 == SmallBin(y, tw, 5, m, s, u, 4)
  {
    hide Twiddles, Times, Product, Tw, SMul, Mul, Add, Sub, Turned, SmallBin, Root;
    Radix5(y, tw, inverse, m, s, u);
    var s7, s10 := Add(scratch1, scratch4), Sub(scratch1, scratch4);
    var s8, s9 := Add(scratch2, scratch3), Sub(scratch2, scratch3);
    var s5 := Cpx(scratch0.r + SMul(s7.r, ya.r) + SMul(s8.r, yb.r), scratch0.i + SMul(s7.i, ya.r) + SMul(s8.i, yb.r));
    var s6 := Cpx(SMul(s10.i, ya.i) + SMul(s9.i, yb.i), -SMul(s10.r, ya.i) - SMul(s9.r, yb.i));
    var s11 := Cpx(scratch0.r + SMul(s7.r, yb.r) + SMul(s8.r, ya.r), scratch0.i + SMul(s7.i, yb.r) + SMul(s8.i, ya.r));
    var s12 := Cpx(-SMul(s10.i, yb.i) + SMul(s9.i, ya.i), SMul(s10.r, yb.i) - SMul(s9.r, ya.i));
    x0 := Add(scratch0, Add(s7, s8));
    x1 := Sub(s5, s6);
    x4 := Add(s5, s6);
    x2 := Add(s11, s12);
    x3 := Sub(s11, s12);
  }

  lemma SecondRoot(tw: seq<Cpx>, s: nat, p: nat, m: nat)
    requires |tw| > 0 && |tw| == Product(s, p, m) && p > 2 && m > 0
    ensures Product(s, 2, m) < |tw| && tw[Product(s, 2, m)] == Root(tw, Times(s, m), 2)
  {
    IndexBelow(2, 0, p, m);
    ProductRegroup(s, 2, m);
    TimesBelow(s, Times(2, m), p, m);
    TwSmall(tw, Product(s, 2, m));
    assert Times(Times(s, m), 2) == Times(2, Times(s, m));
  }


  // ---------- Any other radix ----------

  /** One more term of the sum for bin k, with the running table index. */
  lemma GenericStep(tw: seq<Cpx>, p: nat, m: nat, s: nat, k: nat, q: nat, twidx: nat)
    requires |tw| > 0 && |tw| == Product(s, p, m) && k < Times(p, m) && q > 0
    requires twidx == Rem(Product(s, q - 1, k), |tw|)
    ensures Times(s, k) < |tw|
    ensures var e := twidx + Times(s, k);
            var e' := if e >= |tw| then e - |tw| else e;
            e' == Rem(Product(s, q, k), |tw|) && tw[e'] == Tw(tw, Product(s, q, k))
  {
    hide Times, Product, Rem;
    TimesBelow(s, k, p, m);
    ProductStep(s, q - 1, k);
    ResidueStep(Product(s, q - 1, k), Times(s, k), |tw|);
    TwResidue(tw, Product(s, q, k));
  }

  lemma ResidueStep(e: nat, d: nat, n: nat)
    requires d < n
    ensures var x := Rem(e, n) + d; (if x >= n then x - n else x) == Rem(e + d, n)
  {
    ModStep(e, d, n);
  }

  lemma TwResidue(tw: seq<Cpx>, e: nat)
    requires |tw| > 0
    ensures Tw(tw, e) == tw[Rem(e, |tw|)]
  {
  }

  lemma GenericFirst(y: seq<Cpx>, tw: seq<Cpx>, inverse: bool, m: nat, s: nat, k: nat)
    requires |tw| > 0 && Twiddles(tw, inverse) && m > 0
    ensures Sum(RecombineTerm(y, tw, m, s, k), 1) == At(y, Rem(k, m))
    ensures Rem(Product(s, 0, k), |tw|) == 0
  {
    ProductStep(s, 0, k);
    TwKnown(tw, inverse, 0);
    SmallMultiples(m);
    hide Twiddles, Times, Product, Tw;
    var f := RecombineTerm(y, tw, m, s, k);
    assert Sum(f, 1) == Add(Sum(f, 0), f(0));
    MulOne(At(y, Rem(k, m)));
  }

  /** The p-point sum for bin k from the column's inputs. */
  method GenericBin(scratch: seq<Cpx>, s: nat, tw: seq<Cpx>, p: nat, k: nat,
                    ghost inverse: bool, ghost m: nat, ghost y: seq<Cpx>) returns (acc: Cpx)
    requires |tw| > 0 && Twiddles(tw, inverse) && m > 0 && |tw| == Product(s, p, m)
    requires k < Times(p, m) && p > 0 && |scratch| == p
    requires forall q: nat :: q < p ==> scratch[q] == At(y, Times(q, m) + Rem(k, m))
    ensures acc == RecombineBin(y, tw, p, m, s, k)
  {
    hide Twiddles, Times, Product, Tw, Mul, Add, At, Rem;
    GenericFirst(y, tw, inverse, m, s, k);
    SmallMultiples(m);
    ghost var f := RecombineTerm(y, tw, m, s, k);
    assert scratch[0] == At(y, Times(0, m) + Rem(k, m));
    acc := scratch[0];
    var twidx, q := 0, 1;
    while q < p
      invariant 1 <= q <= p && twidx == Rem(Product(s, q - 1, k), |tw|)
      invariant acc == Sum(f, q)
    {
      GenericStep(tw, p, m, s, k, q, twidx);
      twidx := twidx + Times(s, k);
      if twidx >= |tw| { twidx := twidx - |tw|; }
      var t := Mul(scratch[q], tw[twidx]);
      assert f(q) == t;
      acc := Add(acc, t);
      q := q + 1;
    }
  }

  /** Any radix: copy the column, then accumulate each of its p outputs. */
  method BflyGeneric(fout: array<Cpx>, lo: nat, s: nat, tw: seq<Cpx>, inverse: bool, m: nat, p: nat)
    requires StageFits(fout.Length, lo, s, tw, inverse, p, m) && p > 0
    modifies fout
    ensures fout[..] == Spliced(old(fout[..]), lo, Stage(old(fout[..]), lo, tw, p, m, s))
  {
    hide Twiddles, Times, Product, Tw, Stage, Spliced, Mixed;
    ghost var a := fout[..];
    ghost var r := Stage(a, lo, tw, p, m, s);
    MixedStart(a, lo, r, m);
    var u := 0;
    while u < m
      invariant 0 <= u <= m
      invariant fout[..] == Mixed(a, lo, r, m, u, 0)
    {
      GenericColumn(fout, lo, s, tw, inverse, m, p, u, a);
      MixedColumn(a, lo, r, m, u, p);
      u := u + 1;
    }
  }

  method GenericColumn(fout: array<Cpx>, lo: nat, s: nat, tw: seq<Cpx>, inverse: bool, m: nat, p: nat, u: nat,
                       ghost a: seq<Cpx>)
    requires StageFits(fout.Length, lo, s, tw, inverse, p, m) && p > 0 && |a| == fout.Length && u < m
    requires fout[..] == Mixed(a, lo, Stage(a, lo, tw, p, m, s), m, u, 0)
    modifies fout
    ensures fout[..] == Mixed(a, lo, Stage(a, lo, tw, p, m, s), m, u, p)
  {
    hide Twiddles, Times, Product, Tw, Mixed, Stage, RecombineBin, At, Rem;
    ghost var r := Stage(a, lo, tw, p, m, s);
    ghost var y := a[lo..lo + Times(p, m)];
    var scratch := ReadColumn(fout, lo, s, tw, inverse, m, p, u, a);
    var k, q1 := u, 0;
    TimesStep(m, 0);
    SmallMultiples(m);
    while q1 < p
      invariant 0 <= q1 <= p && k == Times(q1, m) + u
      invariant fout[..] == Mixed(a, lo, r, m, u, q1)
    {
      IndexBelow(q1, u, p, m);
      IndexForm(q1, u, m, 0);
      var acc := GenericBin(scratch, s, tw, p, k, inverse, m, y);
      StageBin(a, lo, tw, p, m, s, k);
      Store(fout, lo + k, acc, a, lo, r, m, u, q1);
      NextMultiple(q1, m);
      k := k + m;
      q1 := q1 + 1;
    }
  }

  lemma NextMultiple(q: nat, m: nat)
    ensures Times(q + 1, m) == Times(q, m) + m
  {
  }

  lemma StageBin(a: seq<Cpx>, lo: nat, tw: seq<Cpx>, p: nat, m: nat, s: nat, k: nat)
    requires |tw| > 0 && m > 0 && lo + Times(p, m) <= |a| && k < Times(p, m)
    ensures Stage(a, lo, tw, p, m, s)[k] == RecombineBin(a[lo..lo + Times(p, m)], tw, p, m, s, k)
  {
  }

  method ReadColumn(fout: array<Cpx>, lo: nat, ghost s: nat, tw: seq<Cpx>, ghost inverse: bool, m: nat, p: nat, u: nat,
                    ghost a: seq<Cpx>) returns (scratch: seq<Cpx>)
    requires StageFits(fout.Length, lo, s, tw, inverse, p, m) && p > 0 && |a| == fout.Length && u < m
    requires fout[..] == Mixed(a, lo, Stage(a, lo, tw, p, m, s), m, u, 0)
    ensures |scratch| == p
    ensures forall q: nat :: q < p ==> scratch[q] == At(a[lo..lo + Times(p, m)], Times(q, m) + u)
  {
    hide Twiddles, Times, Product, Tw, Mixed, Stage, At;
    SmallMultiples(m);
    scratch := [];
    var k, q1 := u, 0;
    while q1 < p
      invariant 0 <= q1 <= p && k == Times(q1, m) + u && |scratch| == q1
      invariant forall q: nat :: q < q1 ==> scratch[q] == At(a[lo..lo + Times(p, m)], Times(q, m) + u)
    {
      StageInput(a, lo, tw, inverse, p, m, s, u, q1);
      assert fout[lo + k] == fout[..][lo + k];
      scratch := scratch + [fout[lo + k]];
      NextMultiple(q1, m);
      k := k + m;
      q1 := q1 + 1;
    }
  }

  /** The switch on the radix. */
  method Butterfly(fout: array<Cpx>, lo: nat, s: nat, tw: seq<Cpx>, inverse: bool, m: nat, p: nat)
    requires StageFits(fout.Length, lo, s, tw, inverse, p, m) && p > 0
    modifies fout
    ensures fout[..] == Spliced(old(fout[..]), lo, Stage(old(fout[..]), lo, tw, p, m, s))
  {
    if p == 2 {
      Bfly2(fout, lo, s, tw, inverse, m);
    } else if p == 3 {
      Bfly3(fout, lo, s, tw, inverse, m);
    } else if p == 4 {
      Bfly4(fout, lo, s, tw, inverse, m);
    } else if p == 5 {
      Bfly5(fout, lo, s, tw, inverse, m);
    } else {
      BflyGeneric(fout, lo, s, tw, inverse, m, p);
    }
  }

  // ---------- The recursive transform ----------

  /** The strided input of a transform of length n. */
  function Samples(f: seq<Cpx>, off: nat, step: nat, n: nat): (x: seq<Cpx>)
    ensures |x| == n && forall j: nat :: j < n ==> x[j] == At(f, off + Times(step, j))
  {
    seq(n, j requires 0 <= j < n => At(f, off + Times(step, j)))
  }

  /** A chain of (radix, remaining length) pairs that multiplies up to n. */
  ghost predicate Chain(factors: seq<(nat, nat)>, n: nat)
    decreases |factors|
  {
    && |factors| > 0
    && var (p, m) := factors[0];
       p > 0 && m > 0 && n == Times(p, m) && (m == 1 || Chain(factors[1..], m))
  }

  lemma SubSamples(f: seq<Cpx>, off: nat, s: nat, inStride: nat, p: nat, m: nat, q: nat)
    requires q < p
    ensures Samples(f, off + Times(Times(s, inStride), q), Times(Times(s, p), inStride), m)
         == Decimated(Samples(f, off, Times(s, inStride), Times(p, m)), p, m, q)
  {
    hide Times;
    forall t: nat | t < m
      ensures At(f, off + Times(Times(s, inStride), q) + Times(Times(Times(s, p), inStride), t))
           == At(Samples(f, off, Times(s, inStride), Times(p, m)), q + Times(p, t))
    {
      DecimatedStride(s, inStride, p, q, t);
      DecimatedBelow(p, m, q, t);
    }
  }

  /** Transforms of length one are the samples themselves. */
  lemma SamplesAreParts(x: seq<Cpx>, tw: seq<Cpx>, inverse: bool, p: nat, s: nat)
    requires |tw| > 0 && Twiddles(tw, inverse) && |x| == Times(p, 1)
    ensures HoldsParts(x, x, tw, p, 1, s)
  {
    hide Twiddles, Times, Product, Tw, Mul, Add;
    forall q: nat, u: nat | q < p && u < 1
      ensures At(x, Times(q, 1) + u) == Bin(Decimated(x, p, 1, q), tw, Times(s, p), u)
    {
      var d := Decimated(x, p, 1, q);
      TimesOne(q);
      TimesStep(p, 0);
      SinglePoint(d, tw, inverse, Times(s, p));
    }
  }

  lemma SinglePoint(d: seq<Cpx>, tw: seq<Cpx>, inverse: bool, s: nat)
    requires |tw| > 0 && Twiddles(tw, inverse) && |d| == 1
    ensures Bin(d, tw, s, 0) == d[0]
  {
    var f := DftTerm(d, tw, s, 0);
    ProductStep(s, 0, 0);
    TwKnown(tw, inverse, 0);
    hide Twiddles, Times, Product, Tw;
    assert Sum(f, 1) == Add(Sum(f, 0), f(0));
    MulOne(d[0]);
  }

  lemma SplicedTwice(a: seq<Cpx>, lo: nat, r: seq<Cpx>, r': seq<Cpx>)
    requires lo + |r| <= |a|
    ensures |r'| == |r| ==> Spliced(Spliced(a, lo, r), lo, r') == Spliced(a, lo, r')
    ensures lo + |r| + |r'| <= |a| ==> Spliced(Spliced(a, lo, r), lo + |r|, r') == Spliced(a, lo, r + r')
    ensures Spliced(a, lo, r)[lo..lo + |r|] == r
    ensures Spliced(a, lo, []) == a
  {
  }

  /** Stage after the parts are in place. */
  lemma StageIsTransform(a: seq<Cpx>, lo: nat, x: seq<Cpx>, parts: seq<Cpx>, tw: seq<Cpx>, inverse: bool,
                         p: nat, m: nat, s: nat)
    requires StageFits(|a|, lo, s, tw, inverse, p, m) && HoldsParts(parts, x, tw, p, m, s)
    ensures Spliced(Spliced(a, lo, parts), lo, Stage(Spliced(a, lo, parts), lo, tw, p, m, s))
         == Spliced(a, lo, Transform(x, tw, s))
  {
    hide Twiddles, Times, Product;
    SplicedTwice(a, lo, parts, Transform(x, tw, s));
    DecimationInTime(x, parts, tw, inverse, p, m, s);
  }

  /** The transform of the strided input, written to fout from lo on. */
  method KfWork(fout: array<Cpx>, lo: nat, f: array<Cpx>, off: nat, fstride: nat, inStride: nat,
                factors: seq<(nat, nat)>, tw: seq<Cpx>, inverse: bool, ghost n: nat)
    requires f != fout && |tw| > 0 && Twiddles(tw, inverse)
    requires Chain(factors, n) && |tw| == Times(fstride, n)
    requires lo + n <= fout.Length && (n > 0 ==> off + Times(Times(fstride, inStride), n - 1) < f.Length)
    modifies fout
    ensures fout[..] == Spliced(old(fout[..]), lo,
              Transform(Samples(f[..], off, Times(fstride, inStride), n), tw, fstride))
    decreases |factors|, 1
  {
    hide Twiddles, Times, Product, Stage, Transform, HoldsParts, Spliced, Samples;
    var (p, m) := factors[0];
    ghost var a := fout[..];
    ghost var x := Samples(f[..], off, Times(fstride, inStride), n);
    ProductRegroup(fstride, p, m);
    TimesPositive(p, m);
    ghost var parts;
    if m == 1 {
      TimesOne(p);
      CopySamples(fout, lo, f, off, Times(fstride, inStride), p);
      SamplesAreParts(x, tw, inverse, p, fstride);
      parts := x;
    } else {
      parts := KfParts(fout, lo, f, off, fstride, inStride, p, m, factors[1..], tw, inverse);
      assert f[..] == old(f[..]);
    }
    StageIsTransform(a, lo, x, parts, tw, inverse, p, m, fstride);
    PartsLength(parts, x, tw, p, m, fstride);
    Butterfly(fout, lo, fstride, tw, inverse, m, p);
  }

  lemma PartsLength(y: seq<Cpx>, x: seq<Cpx>, tw: seq<Cpx>, p: nat, m: nat, s: nat)
    requires |tw| > 0 && HoldsParts(y, x, tw, p, m, s)
    ensures |y| == |x| == Times(p, m)
  {
  }

  lemma SplicedAppend(a: seq<Cpx>, lo: nat, x: seq<Cpx>, j: nat)
    requires lo + |x| <= |a| && j < |x|
    ensures Spliced(a, lo, x[..j])[lo + j := x[j]] == Spliced(a, lo, x[..j + 1])
  {
  }

  /** The last stage's inputs: p strided samples, copied. */
  method CopySamples(fout: array<Cpx>, lo: nat, f: array<Cpx>, off: nat, step: nat, p: nat)
    requires f != fout && p > 0 && lo + p <= fout.Length && off + Times(step, p - 1) < f.Length
    modifies fout
    ensures fout[..] == Spliced(old(fout[..]), lo, Samples(f[..], off, step, p))
  {
    hide Times, Spliced, Samples;
    ghost var a := fout[..];
    ghost var x := Samples(f[..], off, step, p);
    var j, i := 0, off;
    TimesStep(step, 0);
    SplicedTwice(a, lo, [], []);
    assert x[..0] == [];
    while j < p
      invariant 0 <= j <= p && i == off + Times(step, j) && f[..] == old(f[..])
      invariant fout[..] == Spliced(a, lo, x[..j])
    {
      TimesMonotone(step, j, p - 1);
      TimesStep(step, j);
      SplicedAppend(a, lo, x, j);
      assert f[i] == f[..][i] == x[j];
      fout[lo + j] := f[i];
      i := i + step;
      j := j + 1;
    }
    assert x[..p] == x;
  }

  /** p instances of the smaller transform, each on a decimated input. */
  method KfParts(fout: array<Cpx>, lo: nat, f: array<Cpx>, off: nat, fstride: nat, inStride: nat, p: nat, m: nat,
                 rest: seq<(nat, nat)>, tw: seq<Cpx>, inverse: bool) returns (ghost parts: seq<Cpx>)
    requires f != fout && |tw| > 0 && Twiddles(tw, inverse)
    requires p > 0 && m > 0 && Chain(rest, m) && |tw| == Product(fstride, p, m)
    requires lo + Times(p, m) <= fout.Length
    requires off + Times(Times(fstride, inStride), Times(p, m) - 1) < f.Length
    modifies fout
    ensures HoldsParts(parts, Samples(f[..], off, Times(fstride, inStride), Times(p, m)), tw, p, m, fstride)
    ensures |parts| == Times(p, m) && fout[..] == Spliced(old(fout[..]), lo, parts)
    decreases |rest|, 2
  {
    hide Twiddles, Times, Product, Transform, Spliced, Samples, Bin, Decimated, Chain;
    ghost var a := fout[..];
    var step := Times(fstride, inStride);
    ghost var x := Samples(f[..], off, step, Times(p, m));
    parts := [];
    SplicedTwice(a, lo, [], []);
    ProductRegroup(fstride, p, m);
    TimesStep(step, 0);
    SmallMultiples(m);
    var q, at, from := 0, lo, off;
    while q < p
      invariant 0 <= q <= p && at == lo + Times(q, m) && from == off + Times(step, q)
      invariant |parts| == Times(q, m) <= Times(p, m) && f[..] == old(f[..])
      invariant fout[..] == Spliced(a, lo, parts)
      invariant PartsSoFar(parts, x, tw, p, m, fstride, q)
    {
      NextMultiple(q, m);
      TimesMonotone(m, q + 1, p);
      TimesSwap(m, q + 1);
      TimesSwap(m, p);
      LastSample(fstride, inStride, p, m, q);
      KfWork(fout, at, f, from, Times(fstride, p), inStride, rest, tw, inverse, m);
      ghost var part := Transform(Samples(f[..], from, Times(Times(fstride, p), inStride), m), tw, Times(fstride, p));
      SubSamples(f[..], off, fstride, inStride, p, m, q);
      SplicedTwice(a, lo, parts, part);
      PartsExtend(parts, part, x, tw, p, m, fstride, q);
      parts := parts + part;
      TimesStep(step, q);
      at := at + m;
      from := from + step;
      q := q + 1;
    }
  }

  lemma TimesSwap(a: nat, b: nat)
    ensures Times(a, b) == Times(b, a)
  {
  }

  /** The last sample of every decimated input is inside the buffer. */
  lemma LastSample(s: nat, inStride: nat, p: nat, m: nat, q: nat)
    requires q < p && m > 0
    ensures Times(p, m) > 0
    ensures Times(Times(s, inStride), q) + Times(Times(Times(s, p), inStride), m - 1)
         <= Times(Times(s, inStride), Times(p, m) - 1)
  {
    DecimatedBelow(p, m, q, m - 1);
    DecimatedStride(s, inStride, p, q, m - 1);
    TimesMonotone(Times(s, inStride), q + Times(p, m - 1), Times(p, m) - 1);
  }

  ghost predicate PartsSoFar(y: seq<Cpx>, x: seq<Cpx>, tw: seq<Cpx>, p: nat, m: nat, s: nat, done: nat)
    requires |tw| > 0
  {
    forall q: nat, u: nat :: q < done && u < m ==>
      At(y, Times(q, m) + u) == Bin(Decimated(x, p, m, q), tw, Times(s, p), u)
  }

  lemma PartsExtend(y: seq<Cpx>, part: seq<Cpx>, x: seq<Cpx>, tw: seq<Cpx>, p: nat, m: nat, s: nat, done: nat)
    requires |tw| > 0 && |y| == Times(done, m)
    requires PartsSoFar(y, x, tw, p, m, s, done)
    requires part == Transform(Decimated(x, p, m, done), tw, Times(s, p))
    ensures PartsSoFar(y + part, x, tw, p, m, s, done + 1)
  {
    hide Times;
    forall q: nat, u: nat | q < done + 1 && u < m
      ensures At(y + part, Times(q, m) + u) == Bin(Decimated(x, p, m, q), tw, Times(s, p), u)
    {
      IndexBelow(q, u, done, m);
      if q < done {
        assert At(y, Times(q, m) + u) == Bin(Decimated(x, p, m, q), tw, Times(s, p), u);
      }
    }
  }

  // ---------- The public transform ----------

  /** The configuration: direction, twiddle table and radix chain of one length. */
  datatype Config = Config(inverse: bool, tw: seq<Cpx>, factors: seq<(nat, nat)>)

  ghost predicate ValidConfig(cfg: Config) {
    |cfg.tw| > 0 && Twiddles(cfg.tw, cfg.inverse) && Chain(cfg.factors, |cfg.tw|)
  }

  lemma TimesLeftOne(a: nat)
    ensures Times(1, a) == a
  {
  }

  /** Transform fin with the given stride into fout.  When both are the same buffer,
      the transform goes through a temporary one. */
  method KissFftStride(cfg: Config, fin: array<Cpx>, fout: array<Cpx>, inStride: nat)
    requires ValidConfig(cfg)
    requires |cfg.tw| <= fout.Length && Times(inStride, |cfg.tw| - 1) < fin.Length
    modifies fout
    ensures fout[..] == Spliced(old(fout[..]), 0, Transform(Samples(old(fin[..]), 0, inStride, |cfg.tw|), cfg.tw, 1))
  {
    hide Twiddles, Times, Transform, Samples, Spliced, Chain;
    var n := |cfg.tw|;
    TimesLeftOne(n);
    TimesLeftOne(inStride);
    if fin == fout {
      var tmpbuf := new Cpx[n](_ => Zero);
      ghost var blank := tmpbuf[..];
      KfWork(tmpbuf, 0, fin, 0, 1, inStride, cfg.factors, cfg.tw, cfg.inverse, n);
      ghost var y := Transform(Samples(old(fin[..]), 0, inStride, n), cfg.tw, 1);
      SplicedWhole(blank, y);
      CopyBack(fout, tmpbuf);
    } else {
      KfWork(fout, 0, fin, 0, 1, inStride, cfg.factors, cfg.tw, cfg.inverse, n);
    }
  }

  lemma SplicedWhole(a: seq<Cpx>, y: seq<Cpx>)
    requires |y| == |a|
    ensures Spliced(a, 0, y) == y
  {
  }

  method CopyBack(fout: array<Cpx>, tmpbuf: array<Cpx>)
    requires fout != tmpbuf && tmpbuf.Length <= fout.Length
    modifies fout
    ensures fout[..] == Spliced(old(fout[..]), 0, tmpbuf[..])
  {
    var i := 0;
    while i < tmpbuf.Length
      invariant 0 <= i <= tmpbuf.Length
      invariant forall j :: 0 <= j < fout.Length ==> fout[j] == if j < i then tmpbuf[j] else old(fout[j])
    {
      fout[i] := tmpbuf[i];
      i := i + 1;
    }
  }
}
