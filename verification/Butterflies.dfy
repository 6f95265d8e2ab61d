/** The in-place butterflies: each overwrites p*m entries with the recombination
    of the p transforms of length m stored there. */
module Butterflies {
  import opened Complex
  import opened Dft
  import opened NatArithmetic

  // ---------- In-place updates, column by column ----------

  /** a with the entries from lo on replaced by r. */
  function Spliced(a: seq<Cpx>, lo: nat, r: seq<Cpx>): (b: seq<Cpx>)
    requires lo + |r| <= |a|
    ensures |b| == |a|
    ensures forall i :: 0 <= i < |a| ==> b[i] == if lo <= i < lo + |r| then r[i - lo] else a[i]
  {
    a[..lo] + r + a[lo + |r|..]
  }

  /** Entry j is final once columns before u, and the first q entries of column u, are. */
  predicate Done(j: nat, m: nat, u: nat, q: nat)
    requires m > 0
  {
    Rem(j, m) < u || (Rem(j, m) == u && Quot(j, m) < q)
  }

  function Mixed(a: seq<Cpx>, lo: nat, r: seq<Cpx>, m: nat, u: nat, q: nat): (b: seq<Cpx>)
    requires lo + |r| <= |a| && m > 0
    ensures |b| == |a|
    ensures forall i :: 0 <= i < |a| ==>
      b[i] == if lo <= i < lo + |r| && Done(i - lo, m, u, q) then r[i - lo] else a[i]
  {
    seq(|a|, i requires 0 <= i < |a| => if lo <= i < lo + |r| && Done(i - lo, m, u, q) then r[i - lo] else a[i])
  }

  lemma MixedStart(a: seq<Cpx>, lo: nat, r: seq<Cpx>, m: nat)
    requires lo + |r| <= |a| && m > 0
    ensures Mixed(a, lo, r, m, 0, 0) == a
    ensures Mixed(a, lo, r, m, m, 0) == Spliced(a, lo, r)
  {
  }

  /** Writing entry q of column u. */
  lemma MixedWrite(a: seq<Cpx>, lo: nat, r: seq<Cpx>, m: nat, u: nat, q: nat)
    requires lo + |r| <= |a| && u < m && Times(q, m) + u < |r|
    ensures Mixed(a, lo, r, m, u, q)[lo + Times(q, m) + u := r[Times(q, m) + u]] == Mixed(a, lo, r, m, u, q + 1)
  {
    var j := Times(q, m) + u;
    IndexForm(q, u, m, j);
    forall i: nat | i < |r|
      ensures Done(i, m, u, q + 1) <==> Done(i, m, u, q) || i == j
    {
      IndexForm(q, u, m, i);
    }
  }

  /** An entry of column u that was not written yet. */
  lemma MixedRead(a: seq<Cpx>, lo: nat, r: seq<Cpx>, m: nat, u: nat, q: nat)
    requires lo + |r| <= |a| && u < m && Times(q, m) + u < |r|
    ensures Mixed(a, lo, r, m, u, 0)[lo + Times(q, m) + u] == a[lo + Times(q, m) + u]
  {
    IndexForm(q, u, m, 0);
  }

  lemma MixedColumn(a: seq<Cpx>, lo: nat, r: seq<Cpx>, m: nat, u: nat, p: nat)
    requires lo + |r| <= |a| && u < m && |r| == Times(p, m)
    ensures Mixed(a, lo, r, m, u, p) == Mixed(a, lo, r, m, u + 1, 0)
  {
    forall j: nat | j < |r|
      ensures Done(j, m, u, p) <==> Done(j, m, u + 1, 0)
    {
      IndexForm(Quot(j, m), Rem(j, m), m, j);
      IndexBelow(Quot(j, m), Rem(j, m), p, m);
    }
  }

  // ---------- The values of one column ----------

  /** Input q of column u, turned by its twiddle factor. */
  function Turned(y: seq<Cpx>, tw: seq<Cpx>, m: nat, s: nat, u: nat, q: nat): Cpx
    requires |tw| > 0
  {
    Mul(At(y, Times(q, m) + u), Tw(tw, Product(s, q, u)))
  }

  /** Power j of the p-th root of unity, as a table entry; h == |tw| / p. */
  function Root(tw: seq<Cpx>, h: nat, j: nat): Cpx
    requires |tw| > 0
  {
    Tw(tw, Times(h, j))
  }

  lemma TermAtBin(y: seq<Cpx>, tw: seq<Cpx>, inverse: bool, m: nat, s: nat, u: nat, v: nat, q: nat)
    requires |tw| > 0 && Twiddles(tw, inverse) && u < m
    ensures RecombineTerm(y, tw, m, s, Times(v, m) + u)(q)
         == Mul(Turned(y, tw, m, s, u, q), Root(tw, Times(s, m), Times(q, v)))
  {
    hide Twiddles, Times, Product, Tw, Mul;
    IndexForm(v, u, m, 0);
    ExponentAtBin(s, q, u, v, m);
    TwAdd(tw, inverse, Product(s, q, u), Times(Times(s, m), Times(q, v)));
    MulAssociates(At(y, Times(q, m) + u), Tw(tw, Product(s, q, u)), Root(tw, Times(s, m), Times(q, v)));
  }

  /** What the p-th roots of unity in the table satisfy. */
  lemma RootLaws(tw: seq<Cpx>, inverse: bool, p: nat, h: nat, j: nat)
    requires |tw| > 0 && Twiddles(tw, inverse) && |tw| == Times(p, h)
    ensures Root(tw, h, 0) == One
    ensures Root(tw, h, j + p) == Root(tw, h, j)
    ensures 0 < j < p ==> Root(tw, h, p - j) == Conj(Root(tw, h, j))
  {
    hide Twiddles, Tw, Times, Conj;
    TimesLaws(p, h, j);
    TwTurns(tw, Times(h, j), 1);
    TwKnown(tw, inverse, Times(h, j));
  }

  lemma TimesLaws(p: nat, h: nat, j: nat)
    requires Times(p, h) > 0
    ensures Times(h, 0) == 0
    ensures Times(h, j + p) == Times(h, j) + Times(Times(p, h), 1)
    ensures 0 < j < p ==> 0 < Times(h, j) < Times(p, h) && Times(h, p - j) == Times(p, h) - Times(h, j)
  {
    assert h * (j + p) == h * j + p * h;
    if 0 < j < p {
      assert h * (p - j) == p * h - h * j;
      assert h > 0 && h * j >= h && h * (p - j) >= h by {
        MulMonotone(1, j, h);
        MulMonotone(1, p - j, h);
      }
    }
  }

  /** Bin v*m + u is the p-point transform of column u's turned inputs. */
  function ColumnTerm(y: seq<Cpx>, tw: seq<Cpx>, m: nat, s: nat, u: nat, v: nat): nat -> Cpx
    requires |tw| > 0
  {
    (q: nat) => Mul(Turned(y, tw, m, s, u, q), Root(tw, Times(s, m), Times(q, v)))
  }

  lemma BinAsColumn(y: seq<Cpx>, tw: seq<Cpx>, inverse: bool, p: nat, m: nat, s: nat, u: nat, v: nat)
    requires |tw| > 0 && Twiddles(tw, inverse) && u < m
    ensures RecombineBin(y, tw, p, m, s, Times(v, m) + u) == Sum(ColumnTerm(y, tw, m, s, u, v), p)
  {
    hide Twiddles, Times, Product, Tw, Mul;
    forall q: nat | q < p
      ensures RecombineTerm(y, tw, m, s, Times(v, m) + u)(q) == ColumnTerm(y, tw, m, s, u, v)(q)
    {
      TermAtBin(y, tw, inverse, m, s, u, v, q);
    }
    SumAgree(RecombineTerm(y, tw, m, s, Times(v, m) + u), ColumnTerm(y, tw, m, s, u, v), p);
  }

  lemma TurnedFirst(y: seq<Cpx>, tw: seq<Cpx>, inverse: bool, m: nat, s: nat, u: nat)
    requires |tw| > 0 && Twiddles(tw, inverse)
    ensures Turned(y, tw, m, s, u, 0) == At(y, u)
  {
    hide Twiddles, Tw, Times, Product;
    ProductStep(s, 0, u);
    SmallMultiples(m);
    TwKnown(tw, inverse, 0);
  }

  /** Bin v of a column, written out for the small radices. */
  function SmallBin(y: seq<Cpx>, tw: seq<Cpx>, p: nat, m: nat, s: nat, u: nat, v: nat): Cpx
    requires |tw| > 0 && 2 <= p <= 5
  {
    var h := Times(s, m);
    var two := Add(At(y, u), Mul(Turned(y, tw, m, s, u, 1), Root(tw, h, v)));
    if p == 2 then two else
    var three := Add(two, Mul(Turned(y, tw, m, s, u, 2), Root(tw, h, 2 * v)));
    if p == 3 then three else
    var four := Add(three, Mul(Turned(y, tw, m, s, u, 3), Root(tw, h, 3 * v)));
    if p == 4 then four else
    Add(four, Mul(Turned(y, tw, m, s, u, 4), Root(tw, h, 4 * v)))
  }

  lemma SmallSums(f: nat -> Cpx)
    ensures Sum(f, 2) == Add(f(0), f(1))
    ensures Sum(f, 3) == Add(Sum(f, 2), f(2))
    ensures Sum(f, 4) == Add(Sum(f, 3), f(3))
    ensures Sum(f, 5) == Add(Sum(f, 4), f(4))
  {
    assert Sum(f, 1) == Add(Sum(f, 0), f(0));
  }

  lemma BinAsSmall(y: seq<Cpx>, tw: seq<Cpx>, inverse: bool, p: nat, m: nat, s: nat, u: nat, v: nat)
    requires |tw| > 0 && Twiddles(tw, inverse) && u < m && |tw| == Product(s, p, m) && 2 <= p <= 5
    ensures RecombineBin(y, tw, p, m, s, Times(v, m) + u) == SmallBin(y, tw, p, m, s, u, v)
  {
    hide Twiddles, Tw, Times, Product, Add, Mul, Turned, RecombineBin, Root, Sum;
    var f := ColumnTerm(y, tw, m, s, u, v);
    BinAsColumn(y, tw, inverse, p, m, s, u, v);
    SmallSums(f);
    SmallMultiples(v);
    ColumnFirst(y, tw, inverse, p, m, s, u, v);
  }

  lemma ColumnFirst(y: seq<Cpx>, tw: seq<Cpx>, inverse: bool, p: nat, m: nat, s: nat, u: nat, v: nat)
    requires |tw| > 0 && Twiddles(tw, inverse) && u < m && |tw| == Product(s, p, m)
    ensures ColumnTerm(y, tw, m, s, u, v)(0) == At(y, u)
  {
    hide Twiddles, Tw, Times, Product, Turned, Root;
    TurnedFirst(y, tw, inverse, m, s, u);
    ProductRegroup(s, p, m);
    RootLaws(tw, inverse, p, Times(s, m), 0);
    SmallMultiples(v);
  }

  // The roots of unity that the small radices use, and the algebra on them.

  lemma Roots2(tw: seq<Cpx>, inverse: bool, s: nat, m: nat)
    requires |tw| > 0 && Twiddles(tw, inverse) && |tw| == Product(s, 2, m)
    ensures var h := Times(s, m); Root(tw, h, 0) == One && Root(tw, h, 1) == Cpx(-1.0, 0.0)
  {
    hide Twiddles, Tw, Times, Product, Root;
    var h := Times(s, m);
    ProductRegroup(s, 2, m);
    SmallMultiples(h);
    RootLaws(tw, inverse, 2, h, 0);
    RootOne(tw, h);
    TwKnown(tw, inverse, h);
  }

  lemma Roots3(tw: seq<Cpx>, inverse: bool, s: nat, m: nat)
    requires |tw| > 0 && Twiddles(tw, inverse) && |tw| == Product(s, 3, m)
    ensures var h := Times(s, m);
            var e := Tw(tw, h);
            && e.r == -0.5 && Root(tw, h, 0) == One
            && Root(tw, h, 1) == Root(tw, h, 4) == e && Root(tw, h, 2) == Conj(e)
  {
    hide Twiddles, Tw, Times, Product, Root;
    var h := Times(s, m);
    ProductRegroup(s, 3, m);
    SmallMultiples(h);
    RootLaws(tw, inverse, 3, h, 0);
    RootLaws(tw, inverse, 3, h, 1);
    RootOne(tw, h);
    TwKnown(tw, inverse, h);
  }

  lemma QuarterSquared(e: real)
    requires e == 1.0 || e == -1.0
    ensures Mul(Cpx(0.0, e), Cpx(0.0, e)) == Cpx(-1.0, 0.0)
  {
  }

  lemma Roots4(tw: seq<Cpx>, inverse: bool, s: nat, m: nat)
    requires |tw| > 0 && Twiddles(tw, inverse) && |tw| == Product(s, 4, m)
    ensures var h := Times(s, m);
            var e := Cpx(0.0, if inverse then 1.0 else -1.0);
            && Root(tw, h, 0) == Root(tw, h, 4) == One
            && Root(tw, h, 1) == Root(tw, h, 9) == e
            && Root(tw, h, 2) == Root(tw, h, 6) == Cpx(-1.0, 0.0)
            && Root(tw, h, 3) == Conj(e)
  {
    hide Twiddles, Tw, Times, Product, Root, Mul, Conj;
    var h := Times(s, m);
    ProductRegroup(s, 4, m);
    RootLaws(tw, inverse, 4, h, 0);
    RootLaws(tw, inverse, 4, h, 1);
    RootLaws(tw, inverse, 4, h, 2);
    RootLaws(tw, inverse, 4, h, 5);
    Quarter(tw, inverse, s, m);
  }

  lemma Quarter(tw: seq<Cpx>, inverse: bool, s: nat, m: nat)
    requires |tw| > 0 && Twiddles(tw, inverse) && |tw| == Product(s, 4, m)
    ensures Root(tw, Times(s, m), 1) == Cpx(0.0, if inverse then 1.0 else -1.0)
    ensures Root(tw, Times(s, m), 2) == Cpx(-1.0, 0.0)
  {
    hide Twiddles, Tw, Times, Product, Root, Mul;
    var h := Times(s, m);
    ProductRegroup(s, 4, m);
    SmallMultiples(h);
    RootOne(tw, h);
    TwKnown(tw, inverse, h);
    RootTwo(tw, inverse, h);
    QuarterSquared(1.0);
    QuarterSquared(-1.0);
  }

  lemma Roots5(tw: seq<Cpx>, inverse: bool, s: nat, m: nat)
    requires |tw| > 0 && Twiddles(tw, inverse) && |tw| == Product(s, 5, m)
    ensures var h := Times(s, m);
            var ya, yb := Root(tw, h, 1), Root(tw, h, 2);
            && Root(tw, h, 0) == One
            && Root(tw, h, 6) == Root(tw, h, 16) == ya && Root(tw, h, 12) == yb
            && Root(tw, h, 4) == Root(tw, h, 9) == Conj(ya)
            && Root(tw, h, 3) == Root(tw, h, 8) == Conj(yb)
  {
    hide Twiddles, Tw, Times, Product, Root, Conj;
    var h := Times(s, m);
    ProductRegroup(s, 5, m);
    RootLaws(tw, inverse, 5, h, 0);
    RootLaws(tw, inverse, 5, h, 1);
    RootLaws(tw, inverse, 5, h, 2);
    RootLaws(tw, inverse, 5, h, 3);
    RootLaws(tw, inverse, 5, h, 4);
    RootLaws(tw, inverse, 5, h, 6);
    RootLaws(tw, inverse, 5, h, 7);
    RootLaws(tw, inverse, 5, h, 11);
  }

  lemma RootOne(tw: seq<Cpx>, h: nat)
    requires |tw| > 0
    ensures Root(tw, h, 1) == Tw(tw, h)
  {
  }

  lemma RootTwo(tw: seq<Cpx>, inverse: bool, h: nat)
    requires |tw| > 0 && Twiddles(tw, inverse)
    ensures Root(tw, h, 2) == Mul(Tw(tw, h), Tw(tw, h))
  {
    hide Twiddles, Tw, Mul;
    assert Times(h, 2) == h + h;
    TwAdd(tw, inverse, h, h);
  }

  /** Radix 2: sum and difference. */
  lemma Radix2(y: seq<Cpx>, tw: seq<Cpx>, inverse: bool, m: nat, s: nat, u: nat)
    requires |tw| > 0 && Twiddles(tw, inverse) && u < m && |tw| == Product(s, 2, m)
    ensures var t0, t1 := At(y, u), Turned(y, tw, m, s, u, 1);
            && SmallBin(y, tw, 2, m, s, u, 0) == Add(t0, t1)
            && SmallBin(y, tw, 2, m, s, u, 1) == Sub(t0, t1)
  {
    hide Twiddles, Tw, Times, Product, Turned, Root;
    Roots2(tw, inverse, s, m);
  }

  /** Radix 3, with e the imaginary part of the primitive cube root of unity. */
  lemma Radix3(y: seq<Cpx>, tw: seq<Cpx>, inverse: bool, m: nat, s: nat, u: nat)
    requires |tw| > 0 && Twiddles(tw, inverse) && u < m && |tw| == Product(s, 3, m)
    ensures var t0, t1, t2 := At(y, u), Turned(y, tw, m, s, u, 1), Turned(y, tw, m, s, u, 2);
            var e := Tw(tw, Times(s, m)).i;
            var sum, turn := Add(t1, t2), Sub(t1, t2);
            var half := Cpx(t0.r - sum.r * 0.5, t0.i - sum.i * 0.5);
            && SmallBin(y, tw, 3, m, s, u, 0) == Add(t0, sum)
            && SmallBin(y, tw, 3, m, s, u, 1) == Cpx(half.r - SMul(turn.i, e), half.i + SMul(turn.r, e))
            && SmallBin(y, tw, 3, m, s, u, 2) == Cpx(half.r + SMul(turn.i, e), half.i - SMul(turn.r, e))
  {
    hide Twiddles, Tw, Times, Product, Turned, Root;
    Roots3(tw, inverse, s, m);
  }

  /** Radix 4: the odd inputs' difference is turned by a quarter, whose direction
      depends on the direction of the transform. */
  lemma Radix4(y: seq<Cpx>, tw: seq<Cpx>, inverse: bool, m: nat, s: nat, u: nat)
    requires |tw| > 0 && Twiddles(tw, inverse) && u < m && |tw| == Product(s, 4, m)
    ensures var t0, t1 := At(y, u), Turned(y, tw, m, s, u, 1);
            var t2, t3 := Turned(y, tw, m, s, u, 2), Turned(y, tw, m, s, u, 3);
            var d, odd, turn := Sub(t0, t2), Add(t1, t3), Sub(t1, t3);
            && SmallBin(y, tw, 4, m, s, u, 0) == Add(Add(t0, t2), odd)
            && SmallBin(y, tw, 4, m, s, u, 2) == Sub(Add(t0, t2), odd)
            && SmallBin(y, tw, 4, m, s, u, 1)
                == (if inverse then Cpx(d.r - turn.i, d.i + turn.r) else Cpx(d.r + turn.i, d.i - turn.r))
            && SmallBin(y, tw, 4, m, s, u, 3)
                == (if inverse then Cpx(d.r + turn.i, d.i - turn.r) else Cpx(d.r - turn.i, d.i + turn.r))
  {
    hide Twiddles, Tw, Times, Product, Turned, Root;
    Roots4(tw, inverse, s, m);
  }

  /** Radix 5, with ya and yb the first two fifth roots of unity. */
  lemma Radix5(y: seq<Cpx>, tw: seq<Cpx>, inverse: bool, m: nat, s: nat, u: nat)
    requires |tw| > 0 && Twiddles(tw, inverse) && u < m && |tw| == Product(s, 5, m)
    ensures var t0, t1, t2 := At(y, u), Turned(y, tw, m, s, u, 1), Turned(y, tw, m, s, u, 2);
            var t3, t4 := Turned(y, tw, m, s, u, 3), Turned(y, tw, m, s, u, 4);
            var ya, yb := Root(tw, Times(s, m), 1), Root(tw, Times(s, m), 2);
            var s7, s8, s9, s10 := Add(t1, t4), Add(t2, t3), Sub(t2, t3), Sub(t1, t4);
            var s5 := Cpx(t0.r + SMul(s7.r, ya.r) + SMul(s8.r, yb.r), t0.i + SMul(s7.i, ya.r) + SMul(s8.i, yb.r));
            var s6 := Cpx(SMul(s10.i, ya.i) + SMul(s9.i, yb.i), -SMul(s10.r, ya.i) - SMul(s9.r, yb.i));
            var s11 := Cpx(t0.r + SMul(s7.r, yb.r) + SMul(s8.r, ya.r), t0.i + SMul(s7.i, yb.r) + SMul(s8.i, ya.r));
            var s12 := Cpx(-SMul(s10.i, yb.i) + SMul(s9.i, ya.i), SMul(s10.r, yb.i) - SMul(s9.r, ya.i));
            && SmallBin(y, tw, 5, m, s, u, 0) == Add(t0, Add(s7, s8))
            && SmallBin(y, tw, 5, m, s, u, 1) == Sub(s5, s6)
            && SmallBin(y, tw, 5, m, s, u, 2) == Add(s11, s12)
            && SmallBin(y, tw, 5, m, s, u, 3) == Sub(s11, s12)
            && SmallBin(y, tw, 5, m, s, u, 4) == Add(s5, s6)
  {
    hide Twiddles, Tw, Times, Product, Turned, Root, Mul, Add, Sub, Conj;
    Roots5(tw, inverse, s, m);
    var h := Times(s, m);
    var ya, yb := Root(tw, h, 1), Root(tw, h, 2);
    var t0, t1, t2 := At(y, u), Turned(y, tw, m, s, u, 1), Turned(y, tw, m, s, u, 2);
    var t3, t4 := Turned(y, tw, m, s, u, 3), Turned(y, tw, m, s, u, 4);
    FivePointZero(t0, t1, t2, t3, t4);
    FivePoint(t0, t1, t2, t3, t4, ya, yb);
    FivePoint(t0, t1, t2, t3, t4, yb, Conj(ya));
    FivePoint(t0, t1, t2, t3, t4, Conj(yb), ya);
    FivePoint(t0, t1, t2, t3, t4, Conj(ya), Conj(yb));
    ConjConj(ya);
    ConjConj(yb);
    FivePointForms(t0, Add(t1, t4), Add(t2, t3), Sub(t2, t3), Sub(t1, t4), ya, yb);
  }

  lemma ConjConj(a: Cpx)
    ensures Conj(Conj(a)) == a && Conj(a).r == a.r && Conj(a).i == -a.i
  {
  }

  lemma FivePointZero(t0: Cpx, t1: Cpx, t2: Cpx, t3: Cpx, t4: Cpx)
    ensures Add(Add(Add(Add(t0, Mul(t1, One)), Mul(t2, One)), Mul(t3, One)), Mul(t4, One))
         == Add(t0, Add(Add(t1, t4), Add(t2, t3)))
  {
  }

  /** The five-point sum from the sums and differences of opposite inputs. */
  function FiveForm(t0: Cpx, s7: Cpx, s8: Cpx, s9: Cpx, s10: Cpx, a: Cpx, b: Cpx): Cpx {
    Cpx(t0.r + SMul(s7.r, a.r) + SMul(s8.r, b.r) - SMul(s10.i, a.i) - SMul(s9.i, b.i),
        t0.i + SMul(s7.i, a.r) + SMul(s8.i, b.r) + SMul(s10.r, a.i) + SMul(s9.r, b.i))
  }

  lemma MulConjPair(x: Cpx, y: Cpx, a: Cpx)
    ensures Add(Mul(x, a), Mul(y, Conj(a)))
         == Cpx(SMul(x.r + y.r, a.r) - SMul(x.i - y.i, a.i), SMul(x.i + y.i, a.r) + SMul(x.r - y.r, a.i))
  {
    hide SMul;
    SMulLaws(x.r, y.r, a.r);
    SMulLaws(x.i, y.i, a.i);
    SMulLaws(x.i, y.i, a.r);
    SMulLaws(x.r, y.r, a.i);
    SMulLaws(y.i, 0.0, a.i);
    SMulLaws(y.r, 0.0, a.i);
  }

  lemma FivePoint(t0: Cpx, t1: Cpx, t2: Cpx, t3: Cpx, t4: Cpx, a: Cpx, b: Cpx)
    ensures Add(Add(Add(Add(t0, Mul(t1, a)), Mul(t2, b)), Mul(t3, Conj(b))), Mul(t4, Conj(a)))
         == FiveForm(t0, Add(t1, t4), Add(t2, t3), Sub(t2, t3), Sub(t1, t4), a, b)
  {
    hide SMul, Mul, Conj;
    MulConjPair(t1, t4, a);
    MulConjPair(t2, t3, b);
  }

  lemma FivePointForms(t0: Cpx, s7: Cpx, s8: Cpx, s9: Cpx, s10: Cpx, ya: Cpx, yb: Cpx)
    ensures
            var s5 := Cpx(t0.r + SMul(s7.r, ya.r) + SMul(s8.r, yb.r), t0.i + SMul(s7.i, ya.r) + SMul(s8.i, yb.r));
            var s6 := Cpx(SMul(s10.i, ya.i) + SMul(s9.i, yb.i), -SMul(s10.r, ya.i) - SMul(s9.r, yb.i));
            var s11 := Cpx(t0.r + SMul(s7.r, yb.r) + SMul(s8.r, ya.r), t0.i + SMul(s7.i, yb.r) + SMul(s8.i, ya.r));
            var s12 := Cpx(-SMul(s10.i, yb.i) + SMul(s9.i, ya.i), SMul(s10.r, yb.i) - SMul(s9.r, ya.i));
            && FiveForm(t0, s7, s8, s9, s10, ya, yb) == Sub(s5, s6)
            && FiveForm(t0, s7, s8, s9, s10, yb, Conj(ya)) == Add(s11, s12)
            && FiveForm(t0, s7, s8, s9, s10, Conj(yb), ya) == Sub(s11, s12)
            && FiveForm(t0, s7, s8, s9, s10, Conj(ya), Conj(yb)) == Add(s5, s6)
  {
    hide SMul;
    SMulLaws(s9.i, 0.0, ya.i);
    SMulLaws(s9.r, 0.0, ya.i);
    SMulLaws(s10.i, 0.0, ya.i);
    SMulLaws(s10.r, 0.0, ya.i);
    SMulLaws(s9.i, 0.0, yb.i);
    SMulLaws(s9.r, 0.0, yb.i);
    SMulLaws(s10.i, 0.0, yb.i);
    SMulLaws(s10.r, 0.0, yb.i);
  }
}
