/** Complex numbers over exact reals, and finite complex sums. */
module Complex {

  import opened NatArithmetic

  datatype Cpx = Cpx(r: real, i: real)

  const Zero := Cpx(0.0, 0.0)
  const One := Cpx(1.0, 0.0)

  function Add(a: Cpx, b: Cpx): Cpx { Cpx(a.r + b.r, a.i + b.i) }

  function Sub(a: Cpx, b: Cpx): Cpx { Cpx(a.r - b.r, a.i - b.i) }

  function Neg(a: Cpx): Cpx { Cpx(-a.r, -a.i) }

  /** Scalar product; named so that proofs can treat products as atoms. */
  function SMul(a: real, b: real): real { a * b }

  function Mul(a: Cpx, b: Cpx): Cpx {
    Cpx(SMul(a.r, b.r) - SMul(a.i, b.i), SMul(a.r, b.i) + SMul(a.i, b.r))
  }

  function Conj(a: Cpx): Cpx { Cpx(a.r, -a.i) }

  lemma SMulAdd(a: real, b: real, c: real)
    ensures SMul(a + b, c) == SMul(a, c) + SMul(b, c)
  {
  }

  lemma SMulNeg(a: real, c: real)
    ensures SMul(-a, c) == -SMul(a, c) && SMul(a, -c) == -SMul(a, c)
  {
  }

  lemma SMulLaws(a: real, b: real, c: real)
    ensures SMul(a + b, c) == SMul(a, c) + SMul(b, c)
    ensures SMul(a - b, c) == SMul(a, c) - SMul(b, c)
    ensures SMul(a, -c) == -SMul(a, c)
  {
    hide SMul;
    SMulAdd(a, b, c);
    SMulAdd(a, -b, c);
    SMulNeg(a, c);
    SMulNeg(b, c);
  }

  lemma SMulCommutes(a: real, b: real)
    ensures SMul(a, b) == SMul(b, a)
  {
  }

  lemma SMulAssociates(a: real, b: real, c: real)
    ensures SMul(SMul(a, b), c) == SMul(a, SMul(b, c))
  {
  }

  /** The product of sums, fully expanded. */
  lemma SMulPair(a: real, b: real, c: real)
    ensures SMul(a + b, c) == SMul(a, c) + SMul(b, c) && SMul(c, a + b) == SMul(c, a) + SMul(c, b)
    ensures SMul(a - b, c) == SMul(a, c) - SMul(b, c) && SMul(c, a - b) == SMul(c, a) - SMul(c, b)
  {
    hide SMul;
    SMulLaws(a, b, c);
    SMulCommutes(a + b, c);
    SMulCommutes(a - b, c);
    SMulCommutes(a, c);
    SMulCommutes(b, c);
  }

  lemma MulOne(a: Cpx)
    ensures Mul(a, One) == a
  {
  }

  lemma MulAssociates(a: Cpx, b: Cpx, c: Cpx)
    ensures Mul(Mul(a, b), c) == Mul(a, Mul(b, c))
  {
    hide SMul;
    SMulPair(SMul(a.r, b.r), SMul(a.i, b.i), c.r);
    SMulPair(SMul(a.r, b.r), SMul(a.i, b.i), c.i);
    SMulPair(SMul(a.r, b.i), SMul(a.i, b.r), c.r);
    SMulPair(SMul(a.r, b.i), SMul(a.i, b.r), c.i);
    SMulPair(SMul(b.r, c.r), SMul(b.i, c.i), a.r);
    SMulPair(SMul(b.r, c.r), SMul(b.i, c.i), a.i);
    SMulPair(SMul(b.r, c.i), SMul(b.i, c.r), a.r);
    SMulPair(SMul(b.r, c.i), SMul(b.i, c.r), a.i);
    SMulAssociates(a.r, b.r, c.r);
    SMulAssociates(a.i, b.i, c.r);
    SMulAssociates(a.r, b.i, c.i);
    SMulAssociates(a.i, b.r, c.i);
    SMulAssociates(a.r, b.r, c.i);
    SMulAssociates(a.i, b.i, c.i);
    SMulAssociates(a.r, b.i, c.r);
    SMulAssociates(a.i, b.r, c.r);
  }

  lemma MulDistributes(a: Cpx, b: Cpx, c: Cpx)
    ensures Mul(Add(a, b), c) == Add(Mul(a, c), Mul(b, c))
  {
    hide SMul;
    SMulLaws(a.r, b.r, c.r);
    SMulLaws(a.i, b.i, c.i);
    SMulLaws(a.r, b.r, c.i);
    SMulLaws(a.i, b.i, c.r);
  }

  lemma ConjMul(a: Cpx, b: Cpx)
    ensures Conj(Mul(a, b)) == Mul(Conj(a), Conj(b))
  {
    hide SMul;
    SMulNeg(a.i, -b.i);
    SMulNeg(a.i, b.i);
    SMulNeg(a.r, b.i);
    SMulNeg(a.i, b.r);
  }

  // ---------- Sums ----------

  function Sum(f: nat -> Cpx, n: nat): Cpx {
    if n == 0 then Zero else Add(Sum(f, n - 1), f(n - 1))
  }

  lemma SumAgree(f: nat -> Cpx, g: nat -> Cpx, n: nat)
    requires forall k: nat :: k < n ==> f(k) == g(k)
    ensures Sum(f, n) == Sum(g, n)
  {
  }

  lemma {:induction false} SumAdd(f: nat -> Cpx, g: nat -> Cpx, n: nat)
    ensures Sum((k: nat) => Add(f(k), g(k)), n) == Add(Sum(f, n), Sum(g, n))
  {
    if n > 0 {
      SumAdd(f, g, n - 1);
    }
  }

  function Scaled(f: nat -> Cpx, c: Cpx): nat -> Cpx {
    (k: nat) => Mul(f(k), c)
  }

  lemma {:induction false} SumScale(f: nat -> Cpx, c: Cpx, n: nat)
    ensures Sum(Scaled(f, c), n) == Mul(Sum(f, n), c)
  {
    if n > 0 {
      SumScale(f, c, n - 1);
      MulDistributes(Sum(f, n - 1), f(n - 1), c);
    }
  }

  lemma ConjAdd(a: Cpx, b: Cpx)
    ensures Conj(Add(a, b)) == Add(Conj(a), Conj(b))
  {
  }

  lemma {:induction false} SumConj(f: nat -> Cpx, n: nat)
    ensures Sum((k: nat) => Conj(f(k)), n) == Conj(Sum(f, n))
  {
    if n == 0 { return; }
    hide Conj, Add;
    SumConj(f, n - 1);
    ConjAdd(Sum(f, n - 1), f(n - 1));
  }

  lemma SumZero(f: nat -> Cpx, n: nat)
    requires forall k: nat :: k < n ==> f(k) == Zero
    ensures Sum(f, n) == Zero
  {
  }

  lemma {:induction false} SumAppend(f: nat -> Cpx, m: nat, n: nat)
    ensures Sum(f, m + n) == Add(Sum(f, m), Sum((k: nat) => f(m + k), n))
  {
    if n > 0 {
      SumAppend(f, m, n - 1);
    }
  }

  /** Every p-th term of f, starting with term q. */
  function EveryFrom(f: nat -> Cpx, p: nat, q: nat): nat -> Cpx {
    (t: nat) => f(q + Times(p, t))
  }

  function Strided(f: nat -> Cpx, p: nat, m: nat): nat -> Cpx {
    (q: nat) => Sum(EveryFrom(f, p, q), m)
  }

  /** The m-th block of p terms. */
  function Block(f: nat -> Cpx, p: nat, m: nat): nat -> Cpx {
    (q: nat) => f(Times(p, m) + q)
  }

  lemma StridedStep(f: nat -> Cpx, p: nat, m: nat)
    ensures Sum(Strided(f, p, m + 1), p) == Add(Sum(Strided(f, p, m), p), Sum(Block(f, p, m), p))
  {
    hide Times;
    SumAdd(Strided(f, p, m), Block(f, p, m), p);
    SumAgree((k: nat) => Add(Strided(f, p, m)(k), Block(f, p, m)(k)), Strided(f, p, m + 1), p);
  }

  /** Summing p * m terms is summing the p residue classes modulo p. */
  lemma {:induction false} SumByResidue(f: nat -> Cpx, p: nat, m: nat)
    ensures Sum(f, Times(p, m)) == Sum(Strided(f, p, m), p)
  {
    TimesStep(p, if m == 0 then 0 else m - 1);
    hide Times;
    if m == 0 {
      SumZero(Strided(f, p, 0), p);
    } else {
      SumByResidue(f, p, m - 1);
      StridedStep(f, p, m - 1);
      SumAppend(f, Times(p, m - 1), p);
      SumAgree((k: nat) => f(Times(p, m - 1) + k), Block(f, p, m - 1), p);
    }
  }
}
