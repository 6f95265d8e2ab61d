/** Linear algebra over GF(2) on rows of bits: the vocabulary shared by the
    ordered-statistics decoder, the generator derivation and the FT8 encoder. */
module Gf2 {

  type Bits = seq<bool>

  function Zeros(n: nat): (z: Bits)
    ensures |z| == n && forall i :: 0 <= i < n ==> !z[i]
  {
    seq(n, _ => false)
  }

  function Unit(n: nat, k: nat): (u: Bits)
    ensures |u| == n && forall i :: 0 <= i < n ==> u[i] == (i == k)
  {
    seq(n, i => i == k)
  }

  function Xor(a: Bits, b: Bits): (c: Bits)
    requires |a| == |b|
    ensures |c| == |a| && forall i :: 0 <= i < |a| ==> c[i] == (a[i] != b[i])
  {
    seq(|a|, i requires 0 <= i < |a| => a[i] != b[i])
  }

  predicate IsZero(a: Bits) {
    forall i :: 0 <= i < |a| ==> !a[i]
  }

  // ---------- The inner product ----------

  /** The inner product modulo 2 of the first n entries. */
  predicate DotTo(a: Bits, b: Bits, n: nat)
    requires n <= |a| && n <= |b|
  {
    n > 0 && DotTo(a, b, n - 1) != (a[n - 1] && b[n - 1])
  }

  predicate Dot(a: Bits, b: Bits)
    requires |a| == |b|
  {
    DotTo(a, b, |a|)
  }

  lemma DotToAgree(a: Bits, b: Bits, a': Bits, b': Bits, n: nat)
    requires n <= |a| && n <= |b| && n <= |a'| && n <= |b'|
    requires forall i :: 0 <= i < n ==> (a[i] && b[i]) == (a'[i] && b'[i])
    ensures DotTo(a, b, n) == DotTo(a', b', n)
  {
  }

  lemma DotToFalse(a: Bits, b: Bits, n: nat)
    requires n <= |a| && n <= |b|
    requires forall i :: 0 <= i < n ==> !(a[i] && b[i])
    ensures !DotTo(a, b, n)
  {
  }

  lemma DotToXor(a: Bits, a': Bits, b: Bits, n: nat)
    requires |a| == |a'| && n <= |a| && n <= |b|
    ensures DotTo(Xor(a, a'), b, n) == (DotTo(a, b, n) != DotTo(a', b, n))
  {
  }

  lemma DotSymmetric(a: Bits, b: Bits)
    requires |a| == |b|
    ensures Dot(a, b) == Dot(b, a)
  {
    DotToAgree(a, b, b, a, |a|);
  }

  lemma DotXor(a: Bits, a': Bits, b: Bits)
    requires |a| == |a'| == |b|
    ensures Dot(Xor(a, a'), b) == (Dot(a, b) != Dot(a', b))
  {
    DotToXor(a, a', b, |a|);
  }

  lemma DotToUpdate(a: Bits, b: Bits, k: nat, v: bool, n: nat)
    requires n <= |a| && n <= |b| && k < |b|
    ensures DotTo(a, b[k := v], n) == (DotTo(a, b, n) != (k < n && a[k] && v != b[k]))
  {
    if n > 0 {
      DotToUpdate(a, b, k, v, n - 1);
    }
  }

  lemma DotUpdate(a: Bits, b: Bits, k: nat, v: bool)
    requires |a| == |b| && k < |b|
    ensures Dot(a, b[k := v]) == (Dot(a, b) != (a[k] && v != b[k]))
  {
    DotToUpdate(a, b, k, v, |a|);
  }

  /** Flipping entry k of the left factor adds the k-th entry of the right one. */
  lemma DotFlip(a: Bits, b: Bits, k: nat, v: bool)
    requires |a| == |b| && k < |a|
    ensures Dot(a[k := v], b) == (Dot(a, b) != (b[k] && v != a[k]))
  {
    DotSymmetric(a[k := v], b);
    DotUpdate(b, a, k, v);
    DotSymmetric(a, b);
  }

  lemma DotUnit(n: nat, k: nat, b: Bits)
    requires |b| == n && k < n
    ensures Dot(Unit(n, k), b) == b[k]
  {
    assert Unit(n, k) == Zeros(n)[k := true];
    DotToFalse(Zeros(n), b, n);
    DotFlip(Zeros(n), b, k, true);
  }

  /** If a is 1 only at k and possibly where b is 0, the product is b's k-th entry. */
  lemma DotPick(a: Bits, b: Bits, k: nat)
    requires |a| == |b| && k < |a| && a[k]
    requires forall i :: 0 <= i < |a| && i != k ==> !(a[i] && b[i])
    ensures Dot(a, b) == b[k]
  {
    DotToAgree(a, b, Unit(|a|, k), b, |a|);
    DotUnit(|a|, k, b);
  }

  // ---------- Matrices as sequences of rows ----------

  predicate IsMatrix(rows: seq<Bits>, w: nat) {
    forall i :: 0 <= i < |rows| ==> |rows[i]| == w
  }

  function Column(rows: seq<Bits>, w: nat, p: nat): (c: Bits)
    requires IsMatrix(rows, w) && p < w
    ensures |c| == |rows| && forall i :: 0 <= i < |rows| ==> c[i] == rows[i][p]
  {
    seq(|rows|, i requires 0 <= i < |rows| => rows[i][p])
  }

  /** The exclusive or of the rows that y selects: the product y * rows. */
  function Combine(rows: seq<Bits>, w: nat, y: Bits): (v: Bits)
    requires IsMatrix(rows, w) && |y| == |rows|
    ensures |v| == w && forall p :: 0 <= p < w ==> v[p] == Dot(y, Column(rows, w, p))
  {
    seq(w, p requires 0 <= p < w => Dot(y, Column(rows, w, p)))
  }

  /** The product of the matrix with a column vector. */
  function Apply(rows: seq<Bits>, w: nat, z: Bits): (v: Bits)
    requires IsMatrix(rows, w) && |z| == w
    ensures |v| == |rows| && forall i :: 0 <= i < |rows| ==> v[i] == Dot(rows[i], z)
  {
    seq(|rows|, i requires 0 <= i < |rows| => Dot(rows[i], z))
  }

  /** The combination of the first k rows only. */
  function CombineTo(rows: seq<Bits>, w: nat, y: Bits, k: nat): (v: Bits)
    requires IsMatrix(rows, w) && |y| == |rows| && k <= |rows|
    ensures |v| == w && forall p :: 0 <= p < w ==> v[p] == DotTo(y, Column(rows, w, p), k)
  {
    seq(w, p requires 0 <= p < w => DotTo(y, Column(rows, w, p), k))
  }

  lemma CombineToStep(rows: seq<Bits>, w: nat, y: Bits, k: nat)
    requires IsMatrix(rows, w) && |y| == |rows| && k < |rows|
    ensures CombineTo(rows, w, y, k + 1)
         == if y[k] then Xor(CombineTo(rows, w, y, k), rows[k]) else CombineTo(rows, w, y, k)
  {
  }

  lemma CombineToZero(rows: seq<Bits>, w: nat, y: Bits)
    requires IsMatrix(rows, w) && |y| == |rows|
    ensures CombineTo(rows, w, y, 0) == Zeros(w)
    ensures CombineTo(rows, w, y, |rows|) == Combine(rows, w, y)
  {
  }

  lemma {:induction false} AdjointTo(rows: seq<Bits>, w: nat, y: Bits, z: Bits, k: nat)
    requires IsMatrix(rows, w) && |y| == |rows| && |z| == w && k <= |rows|
    ensures Dot(CombineTo(rows, w, y, k), z) == DotTo(y, Apply(rows, w, z), k)
  {
    if k == 0 {
      DotToFalse(CombineTo(rows, w, y, 0), z, w);
    } else {
      AdjointTo(rows, w, y, z, k - 1);
      CombineToStep(rows, w, y, k - 1);
      DotXor(CombineTo(rows, w, y, k - 1), rows[k - 1], z);
    }
  }

  /** (y * rows) . z == y . (rows * z) */
  lemma Adjoint(rows: seq<Bits>, w: nat, y: Bits, z: Bits)
    requires IsMatrix(rows, w) && |y| == |rows| && |z| == w
    ensures Dot(Combine(rows, w, y), z) == Dot(y, Apply(rows, w, z))
  {
    AdjointTo(rows, w, y, z, |rows|);
    CombineToZero(rows, w, y);
  }

  lemma CombineUnit(rows: seq<Bits>, w: nat, k: nat)
    requires IsMatrix(rows, w) && k < |rows|
    ensures Combine(rows, w, Unit(|rows|, k)) == rows[k]
  {
    forall p | 0 <= p < w
      ensures Combine(rows, w, Unit(|rows|, k))[p] == rows[k][p]
    {
      DotUnit(|rows|, k, Column(rows, w, p));
    }
  }

  lemma DotToSplit(a: Bits, b: Bits, c: Bits, d: Bits, n: nat)
    requires |a| == |c| && |b| == |d| && |a| <= n <= |a| + |b|
    ensures DotTo(a + b, c + d, n) == (Dot(a, c) != DotTo(b, d, n - |a|))
  {
    if n == |a| {
      DotToAgree(a + b, c + d, a, c, n);
    } else {
      DotToSplit(a, b, c, d, n - 1);
    }
  }

  lemma DotSplit(a: Bits, b: Bits, c: Bits, d: Bits)
    requires |a| == |c| && |b| == |d|
    ensures Dot(a + b, c + d) == (Dot(a, c) != Dot(b, d))
  {
    DotToSplit(a, b, c, d, |a| + |b|);
  }

  // ---------- Matrix products ----------

  function Identity(n: nat): (rows: seq<Bits>)
    ensures IsMatrix(rows, n) && |rows| == n
    ensures forall i :: 0 <= i < n ==> rows[i] == Unit(n, i)
  {
    seq(n, i requires 0 <= i < n => Unit(n, i))
  }

  function MatMul(x: seq<Bits>, y: seq<Bits>, w: nat): (rows: seq<Bits>)
    requires IsMatrix(x, |y|) && IsMatrix(y, w)
    ensures IsMatrix(rows, w) && |rows| == |x|
    ensures forall i :: 0 <= i < |x| ==> rows[i] == Combine(y, w, x[i])
  {
    seq(|x|, i requires 0 <= i < |x| => Combine(y, w, x[i]))
  }

  /** Associativity: v * (x * y) == (v * x) * y */
  lemma CombineMatMul(x: seq<Bits>, y: seq<Bits>, w: nat, v: Bits)
    requires IsMatrix(x, |y|) && IsMatrix(y, w) && |v| == |x|
    ensures Combine(MatMul(x, y, w), w, v) == Combine(y, w, Combine(x, |y|, v))
  {
    forall p | 0 <= p < w
      ensures Combine(MatMul(x, y, w), w, v)[p] == Combine(y, w, Combine(x, |y|, v))[p]
    {
      assert Column(MatMul(x, y, w), w, p) == Apply(x, |y|, Column(y, w, p));
      Adjoint(x, |y|, v, Column(y, w, p));
    }
  }

  lemma CombineIdentity(n: nat, v: Bits)
    requires |v| == n
    ensures Combine(Identity(n), n, v) == v
  {
    forall p | 0 <= p < n ensures Combine(Identity(n), n, v)[p] == v[p] {
      DotPick(Column(Identity(n), n, p), v, p);
      DotSymmetric(v, Column(Identity(n), n, p));
    }
  }

  // ---------- Row space, dependence, kernel ----------

  ghost predicate InSpan(rows: seq<Bits>, w: nat, v: Bits)
    requires IsMatrix(rows, w)
  {
    exists y: Bits :: |y| == |rows| && Combine(rows, w, y) == v
  }

  /** Some nonempty selection of the rows adds up to zero. */
  ghost predicate Dependent(rows: seq<Bits>, w: nat)
    requires IsMatrix(rows, w)
  {
    exists y: Bits :: |y| == |rows| && !IsZero(y) && Combine(rows, w, y) == Zeros(w)
  }

  ghost predicate InKernel(rows: seq<Bits>, w: nat, z: Bits)
    requires IsMatrix(rows, w)
  {
    |z| == w && forall i :: 0 <= i < |rows| ==> !Dot(rows[i], z)
  }

  ghost predicate SameSpan(a: seq<Bits>, b: seq<Bits>, w: nat)
    requires IsMatrix(a, w) && IsMatrix(b, w)
  {
    forall v: Bits :: InSpan(a, w, v) <==> InSpan(b, w, v)
  }

  /** What row operations keep: the row space and whether the rows are dependent. */
  ghost predicate RowEquivalent(a: seq<Bits>, b: seq<Bits>, w: nat) {
    && IsMatrix(a, w) && IsMatrix(b, w) && |a| == |b|
    && SameSpan(a, b, w)
    && (Dependent(a, w) <==> Dependent(b, w))
  }

  lemma RowEquivalentTransitive(a: seq<Bits>, b: seq<Bits>, c: seq<Bits>, w: nat)
    requires RowEquivalent(a, b, w) && RowEquivalent(b, c, w)
    ensures RowEquivalent(a, c, w)
  {
    forall v: Bits ensures InSpan(a, w, v) <==> InSpan(c, w, v) {
      assert InSpan(a, w, v) <==> InSpan(b, w, v);
    }
  }

  /** A vector orthogonal to the rows is orthogonal to their whole span. */
  lemma KernelOfSpan(rows: seq<Bits>, w: nat, z: Bits, v: Bits)
    requires IsMatrix(rows, w) && InKernel(rows, w, z) && InSpan(rows, w, v)
    ensures |v| == w && !Dot(v, z)
  {
    var y: Bits :| |y| == |rows| && Combine(rows, w, y) == v;
    Adjoint(rows, w, y, z);
    DotToFalse(y, Apply(rows, w, z), |rows|);
  }

  lemma RowInSpan(rows: seq<Bits>, w: nat, k: nat)
    requires IsMatrix(rows, w) && k < |rows|
    ensures InSpan(rows, w, rows[k])
  {
    CombineUnit(rows, w, k);
  }

  lemma RowEquivalentKernel(a: seq<Bits>, b: seq<Bits>, w: nat, z: Bits)
    requires RowEquivalent(a, b, w)
    ensures InKernel(a, w, z) <==> InKernel(b, w, z)
  {
    if InKernel(a, w, z) {
      forall i | 0 <= i < |b| ensures !Dot(b[i], z) {
        RowInSpan(b, w, i);
        KernelOfSpan(a, w, z, b[i]);
      }
    }
    if InKernel(b, w, z) {
      forall i | 0 <= i < |a| ensures !Dot(a[i], z) {
        RowInSpan(a, w, i);
        KernelOfSpan(b, w, z, a[i]);
      }
    }
  }

  // ---------- Elementary row operations ----------

  function AddRow(rows: seq<Bits>, w: nat, r: nat, s: nat): (rows': seq<Bits>)
    requires IsMatrix(rows, w) && r < |rows| && s < |rows|
    ensures IsMatrix(rows', w) && |rows'| == |rows|
  {
    rows[r := Xor(rows[r], rows[s])]
  }

  function SwapRows(rows: seq<Bits>, w: nat, r: nat, s: nat): (rows': seq<Bits>)
    requires IsMatrix(rows, w) && r < |rows| && s < |rows|
    ensures IsMatrix(rows', w) && |rows'| == |rows|
  {
    rows[r := rows[s]][s := rows[r]]
  }

  /** Selecting after adding row s to row r is selecting with entry s corrected. */
  lemma CombineAddRow(rows: seq<Bits>, w: nat, r: nat, s: nat, y: Bits)
    requires IsMatrix(rows, w) && r < |rows| && s < |rows| && r != s && |y| == |rows|
    ensures Combine(AddRow(rows, w, r, s), w, y) == Combine(rows, w, y[s := y[s] != y[r]])
  {
    var rows' := AddRow(rows, w, r, s);
    forall p | 0 <= p < w
      ensures Combine(rows', w, y)[p] == Combine(rows, w, y[s := y[s] != y[r]])[p]
    {
      var c := Column(rows, w, p);
      assert Column(rows', w, p) == c[r := c[r] != c[s]];
      DotUpdate(y, c, r, c[r] != c[s]);
      DotFlip(y, c, s, y[s] != y[r]);
    }
  }

  lemma CombineSwapRows(rows: seq<Bits>, w: nat, r: nat, s: nat, y: Bits)
    requires IsMatrix(rows, w) && r < |rows| && s < |rows| && |y| == |rows|
    ensures Combine(SwapRows(rows, w, r, s), w, y) == Combine(rows, w, y[r := y[s]][s := y[r]])
  {
    var rows' := SwapRows(rows, w, r, s);
    forall p | 0 <= p < w
      ensures Combine(rows', w, y)[p] == Combine(rows, w, y[r := y[s]][s := y[r]])[p]
    {
      var c := Column(rows, w, p);
      assert Column(rows', w, p) == c[r := c[s]][s := c[r]];
      DotUpdate(y, c, r, c[s]);
      DotUpdate(y, c[r := c[s]], s, c[r]);
      DotFlip(y, c, r, y[s]);
      DotFlip(y[r := y[s]], c, s, y[r]);
    }
  }

  /** A change of selection vector carries the row space and dependence of a into b. */
  lemma CarriedBy(a: seq<Bits>, b: seq<Bits>, w: nat, f: Bits -> Bits)
    requires IsMatrix(a, w) && IsMatrix(b, w) && |a| == |b|
    requires forall y: Bits {:trigger f(y)} :: |y| == |a| ==>
      |f(y)| == |a| && Combine(a, w, y) == Combine(b, w, f(y)) && (IsZero(f(y)) == IsZero(y))
    ensures forall v: Bits :: InSpan(a, w, v) ==> InSpan(b, w, v)
    ensures Dependent(a, w) ==> Dependent(b, w)
  {
    forall v: Bits | InSpan(a, w, v) ensures InSpan(b, w, v) {
      var y: Bits :| |y| == |a| && Combine(a, w, y) == v;
      assert Combine(b, w, f(y)) == v;
    }
    if Dependent(a, w) {
      var y: Bits :| |y| == |a| && !IsZero(y) && Combine(a, w, y) == Zeros(w);
      assert Combine(b, w, f(y)) == Zeros(w);
    }
  }

  lemma AddRowEquivalent(rows: seq<Bits>, w: nat, r: nat, s: nat)
    requires IsMatrix(rows, w) && r < |rows| && s < |rows| && r != s
    ensures RowEquivalent(rows, AddRow(rows, w, r, s), w)
  {
    var rows' := AddRow(rows, w, r, s);
    var f := (y: Bits) => if |y| == |rows| then y[s := y[s] != y[r]] else y;
    forall y: Bits | |y| == |rows|
      ensures Combine(rows', w, y) == Combine(rows, w, f(y))
      ensures Combine(rows, w, y) == Combine(rows', w, f(y))
      ensures IsZero(f(y)) == IsZero(y)
    {
      CombineAddRow(rows, w, r, s, y);
      CombineAddRow(rows, w, r, s, f(y));
      assert f(f(y)) == y;
      assert f(y)[r] == y[r] && f(y)[s] == (y[s] != y[r]);
      assert forall i :: 0 <= i < |y| && i != s ==> f(y)[i] == y[i];
    }
    CarriedBy(rows, rows', w, f);
    CarriedBy(rows', rows, w, f);
  }

  lemma SwapRowsEquivalent(rows: seq<Bits>, w: nat, r: nat, s: nat)
    requires IsMatrix(rows, w) && r < |rows| && s < |rows|
    ensures RowEquivalent(rows, SwapRows(rows, w, r, s), w)
  {
    var rows' := SwapRows(rows, w, r, s);
    var f := (y: Bits) => if |y| == |rows| then y[r := y[s]][s := y[r]] else y;
    forall y: Bits | |y| == |rows|
      ensures Combine(rows', w, y) == Combine(rows, w, f(y))
      ensures Combine(rows, w, y) == Combine(rows', w, f(y))
      ensures IsZero(f(y)) == IsZero(y)
    {
      CombineSwapRows(rows, w, r, s, y);
      CombineSwapRows(rows, w, r, s, f(y));
      assert f(f(y)) == y;
      assert f(y)[r] == y[s] && f(y)[s] == y[r];
      assert forall i :: 0 <= i < |y| && i != s && i != r ==> f(y)[i] == y[i];
    }
    CarriedBy(rows, rows', w, f);
    CarriedBy(rows', rows, w, f);
  }

  // ---------- Counting positions, and underdetermined systems ----------

  function CountTo(m: Bits, n: nat): (c: nat)
    requires n <= |m|
    ensures c <= n
  {
    if n == 0 then 0 else CountTo(m, n - 1) + if m[n - 1] then 1 else 0
  }

  lemma CountToUpdate(m: Bits, k: nat, v: bool, n: nat)
    requires k < |m| && n <= |m|
    ensures CountTo(m[k := v], n) == CountTo(m, n)
              + if k < n && v && !m[k] then 1 else if k < n && !v && m[k] then -1 else 0
  {
    if n > 0 {
      CountToUpdate(m, k, v, n - 1);
    }
  }

  lemma CountToPositive(m: Bits, n: nat) returns (k: nat)
    requires n <= |m| && CountTo(m, n) > 0
    ensures k < n && m[k]
  {
    if m[n - 1] { k := n - 1; } else { k := CountToPositive(m, n - 1); }
  }

  lemma CountToAgree(m: Bits, m': Bits, n: nat)
    requires n <= |m| && n <= |m'|
    requires forall i :: 0 <= i < n ==> m[i] == m'[i]
    ensures CountTo(m, n) == CountTo(m', n)
  {
  }

  lemma CountToNone(m: Bits, n: nat, n': nat)
    requires n <= n' <= |m|
    requires forall i :: n <= i < n' ==> !m[i]
    ensures CountTo(m, n') == CountTo(m, n)
  {
  }

  /** z is 1 only inside the mask m. */
  predicate Within(z: Bits, m: Bits) {
    |z| == |m| && forall i :: 0 <= i < |z| && z[i] ==> m[i]
  }

  lemma DotClearsPivot(r: Bits, p: Bits, z: Bits, k: nat)
    requires |r| == |p| == |z| && k < |z| && p[k] && !z[k]
    ensures var r' := if r[k] then Xor(r, p) else r;
            var z' := z[k := Dot(p, z)];
            !Dot(p, z') && Dot(r, z') == Dot(r', z)
  {
    var z' := z[k := Dot(p, z)];
    DotUpdate(p, z, k, Dot(p, z));
    DotUpdate(r, z, k, Dot(p, z));
    DotXor(r, p, z);
  }

  /** A homogeneous system with fewer equations than admitted unknowns has a
      nonzero solution inside the admitted positions. */
  lemma {:induction false} Underdetermined(rows: seq<Bits>, w: nat, m: Bits) returns (z: Bits)
    requires IsMatrix(rows, w) && |m| == w
    requires CountTo(m, w) > |rows|
    ensures Within(z, m) && !IsZero(z) && InKernel(rows, w, z)
    decreases |rows|
  {
    if rows == [] {
      var k := CountToPositive(m, w);
      z := Unit(w, k);
      assert z[k];
    } else {
      var t := |rows| - 1;
      var p := rows[t];
      if forall i :: 0 <= i < w ==> !(m[i] && p[i]) {
        z := Underdetermined(rows[..t], w, m);
        DotToFalse(p, z, w);
        assert forall j :: 0 <= j < t ==> rows[..t][j] == rows[j];
      } else {
        var k: nat :| k < w && m[k] && p[k];
        var rows' := seq(t, j requires 0 <= j < t => if rows[j][k] then Xor(rows[j], p) else rows[j]);
        CountToUpdate(m, k, false, w);
        var z' := Underdetermined(rows', w, m[k := false]);
        z := z'[k := Dot(p, z')];
        forall j | 0 <= j < |rows| ensures !Dot(rows[j], z) {
          DotClearsPivot(rows[j], p, z', k);
          assert j < t ==> !Dot(rows'[j], z');
        }
        var i :| 0 <= i < w && z'[i];
        assert z[i];
      }
    }
  }
}
