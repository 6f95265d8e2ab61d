/** Deriving a systematic generator from a parity-check matrix: Gauss-Jordan
    inversion over GF(2), matrix products, and G = [B^T | I]. */
module GeneratorDerivation {
  import opened Gf2
  import opened Elimination
  import opened Options

  // ---------- Inversion ----------

  ghost predicate LeftInverse(r: seq<Bits>, a: seq<Bits>, n: nat) {
    IsMatrix(a, n) && |a| == n && IsMatrix(r, n) && |r| == n && MatMul(r, a, n) == Identity(n)
  }

  ghost predicate IsInverse(r: seq<Bits>, a: seq<Bits>, n: nat) {
    LeftInverse(r, a, n) && LeftInverse(a, r, n)
  }

  function Augmented(a: seq<Bits>, n: nat): (rows: seq<Bits>)
    requires IsMatrix(a, n) && |a| == n
    ensures IsMatrix(rows, 2 * n) && |rows| == n
    ensures forall i :: 0 <= i < n ==> rows[i] == a[i] + Unit(n, i)
  {
    seq(n, i requires 0 <= i < n => a[i] + Unit(n, i))
  }

  function Halves(rows: seq<Bits>, n: nat): (h: (seq<Bits>, seq<Bits>))
    requires IsMatrix(rows, 2 * n)
    ensures IsMatrix(h.0, n) && IsMatrix(h.1, n) && |h.0| == |h.1| == |rows|
    ensures forall i :: 0 <= i < |rows| ==> rows[i] == h.0[i] + h.1[i]
  {
    (seq(|rows|, i requires 0 <= i < |rows| => rows[i][..n]),
     seq(|rows|, i requires 0 <= i < |rows| => rows[i][n..]))
  }

  function FirstColumns(k: nat): (pivots: seq<nat>)
    ensures |pivots| == k && forall j :: 0 <= j < k ==> pivots[j] == j
  {
    seq(k, j requires 0 <= j => j)
  }

  lemma CombineHalves(rows: seq<Bits>, n: nat, y: Bits)
    requires IsMatrix(rows, 2 * n) && |y| == |rows|
    ensures var h := Halves(rows, n);
            Combine(rows, 2 * n, y) == Combine(h.0, n, y) + Combine(h.1, n, y)
  {
    var h := Halves(rows, n);
    forall p | 0 <= p < 2 * n
      ensures Combine(rows, 2 * n, y)[p] == (Combine(h.0, n, y) + Combine(h.1, n, y))[p]
    {
      if p < n {
        assert Column(rows, 2 * n, p) == Column(h.0, n, p);
      } else {
        assert Column(rows, 2 * n, p) == Column(h.1, n, p - n);
      }
    }
  }

  lemma HalvesOfAugmented(a: seq<Bits>, n: nat)
    requires IsMatrix(a, n) && |a| == n
    ensures Halves(Augmented(a, n), n) == (a, Identity(n))
  {
    var h := Halves(Augmented(a, n), n);
    assert forall i :: 0 <= i < n ==> h.0[i] == a[i] && h.1[i] == Unit(n, i);
    assert h.0 == a && h.1 == Identity(n);
  }

  /** When the left half has become the identity, the right half is the inverse. */
  lemma FinishedInverse(a: seq<Bits>, rows: seq<Bits>, n: nat)
    requires IsMatrix(a, n) && |a| == n
    requires RowEquivalent(Augmented(a, n), rows, 2 * n)
    requires Halves(rows, n).0 == Identity(n)
    ensures IsInverse(Halves(rows, n).1, a, n)
  {
    var aug := Augmented(a, n);
    var r := Halves(rows, n).1;
    HalvesOfAugmented(a, n);
    forall i | 0 <= i < n ensures Combine(a, n, r[i]) == Unit(n, i) {
      RowInSpan(rows, 2 * n, i);
      assert InSpan(aug, 2 * n, rows[i]);
      var y: Bits :| |y| == n && Combine(aug, 2 * n, y) == rows[i];
      CombineHalves(aug, n, y);
      CombineIdentity(n, y);
      assert rows[i][..n] == Combine(a, n, y) && rows[i][n..] == y;
    }
    forall i | 0 <= i < n ensures Combine(r, n, a[i]) == Unit(n, i) {
      RowInSpan(aug, 2 * n, i);
      assert InSpan(rows, 2 * n, aug[i]);
      var y: Bits :| |y| == n && Combine(rows, 2 * n, y) == aug[i];
      CombineHalves(rows, n, y);
      CombineIdentity(n, y);
      assert aug[i][..n] == y && aug[i][n..] == Combine(r, n, y);
    }
    assert MatMul(r, a, n) == Identity(n);
    assert MatMul(a, r, n) == Identity(n);
  }

  /** Some nonzero vector is sent to zero. */
  ghost predicate Singular(a: seq<Bits>, n: nat)
    requires IsMatrix(a, n)
  {
    exists z: Bits :: !IsZero(z) && InKernel(a, n, z)
  }

  /** A missing pivot exposes a nonzero vector that the matrix sends to zero. */
  lemma MissingPivot(a: seq<Bits>, rows: seq<Bits>, n: nat, col: nat)
    requires IsMatrix(a, n) && |a| == n && col < n
    requires RowEquivalent(Augmented(a, n), rows, 2 * n)
    requires Echelon(rows, 2 * n, FirstColumns(col), col)
    requires forall r :: col <= r < n ==> !rows[r][col]
    ensures Singular(a, n)
  {
    var z := seq(n, i requires 0 <= i < n => i == col || (i < col && rows[i][col]));
    var padded := z + Zeros(n);
    forall r | 0 <= r < n ensures !Dot(rows[r], padded) {
      if r < col {
        var x := rows[r];
        assert x[FirstColumns(col)[r]];
        assert forall i :: 0 <= i < col && i != r ==> !x[FirstColumns(col)[i]];
        DotFlip(padded, x, col, false);
        DotPick(x, padded[col := false], r);
        DotSymmetric(x, padded[col := false]);
        DotSymmetric(x, padded);
      } else {
        DotToFalse(rows[r], padded, 2 * n);
      }
    }
    RowEquivalentKernel(Augmented(a, n), rows, 2 * n, padded);
    forall i | 0 <= i < n ensures !Dot(a[i], z) {
      assert !Dot(Augmented(a, n)[i], padded);
      DotSplit(a[i], Unit(n, i), z, Zeros(n));
      DotToFalse(Unit(n, i), Zeros(n), n);
    }
    assert z[col];
    assert InKernel(a, n, z);
  }

  /** A singular matrix has no left inverse, so none at all. */
  lemma SingularHasNoInverse(r: seq<Bits>, a: seq<Bits>, n: nat)
    requires LeftInverse(r, a, n)
    ensures !Singular(a, n)
  {
    forall z: Bits | InKernel(a, n, z) ensures IsZero(z) {
      forall i | 0 <= i < n ensures !z[i] {
        assert MatMul(r, a, n)[i] == Identity(n)[i];
        Adjoint(a, n, r[i], z);
        DotToFalse(r[i], Apply(a, n, z), n);
        DotUnit(n, i, z);
      }
    }
  }

  lemma InvertibleIsNotSingular(r: seq<Bits>, a: seq<Bits>, n: nat)
    requires IsInverse(r, a, n)
    ensures !Singular(a, n)
  {
    SingularHasNoInverse(r, a, n);
  }

  /** Gauss-Jordan inversion in place on [A | I]: an inverse on both sides, or
      None exactly when there is none. */
  method Inverse(a: seq<Bits>) returns (r: Option<seq<Bits>>)
    requires IsMatrix(a, |a|)
    ensures r.Some? ==> IsInverse(r.value, a, |a|)
    ensures r.None? <==> Singular(a, |a|)
  {
    var n := |a|;
    var rows := new Bits[n](i requires 0 <= i < n => a[i] + Unit(n, i));
    ghost var aug := Augmented(a, n);
    assert rows[..] == aug;
    assert RowEquivalent(aug, aug, 2 * n) && Echelon(aug, 2 * n, FirstColumns(0), 0);
    hide RowEquivalent, Echelon, Pivoted, IsInverse, Singular;
    var col := 0;
    while col < n
      invariant 0 <= col <= n
      invariant IsMatrix(rows[..], 2 * n) && RowEquivalent(aug, rows[..], 2 * n)
      invariant Echelon(rows[..], 2 * n, FirstColumns(col), col)
    {
      ghost var before := rows[..];
      var piv := FindPivot(rows, 2 * n, col, col);
      if piv == n {
        MissingPivot(a, before, n, col);
        return None;
      }
      rows[col], rows[piv] := rows[piv], rows[col];
      EliminateColumn(rows, n, col, before, piv);
      EchelonPivot(before, 2 * n, FirstColumns(col), col, piv);
      PivotedEquivalent(before, 2 * n, col, piv, col);
      RowEquivalentTransitive(aug, before, rows[..], 2 * n);
      assert FirstColumns(col) + [col] == FirstColumns(col + 1);
      col := col + 1;
    }
    LeftIsIdentity(rows[..], n);
    FinishedInverse(a, rows[..], n);
    r := Some(Halves(rows[..], n).1);
    InvertibleIsNotSingular(r.value, a, n);
  }

  lemma LeftIsIdentity(rows: seq<Bits>, n: nat)
    requires Echelon(rows, 2 * n, FirstColumns(n), n) && |rows| == n
    ensures Halves(rows, n).0 == Identity(n)
  {
    var left := Halves(rows, n).0;
    forall r | 0 <= r < n ensures left[r] == Unit(n, r) {
      forall p | 0 <= p < n ensures left[r][p] == (p == r) {
        assert rows[r][FirstColumns(n)[p]] == (r == p);
      }
    }
  }

  /** Add the pivot row to every other row with a 1 in the column, entry by entry. */
  method EliminateColumn(rows: array<Bits>, n: nat, col: nat, ghost before: seq<Bits>, ghost piv: nat)
    requires IsMatrix(before, 2 * n) && |before| == rows.Length == n && col < n && piv < n
    requires rows[..] == SwapRows(before, 2 * n, col, piv)
    modifies rows
    ensures rows[..] == Pivoted(before, 2 * n, col, piv, col)
  {
    ghost var swapped := rows[..];
    var r := 0;
    while r < n
      invariant 0 <= r <= n
      invariant rows[..] == ClearedTo(swapped, 2 * n, col, col, r)
    {
      assert forall i :: 0 <= i < n ==> rows[i] == rows[..][i];
      if r != col && rows[r][col] {
        var row := rows[r];
        var c := 0;
        while c < 2 * n
          invariant 0 <= c <= 2 * n && |row| == 2 * n
          invariant forall p :: 0 <= p < 2 * n ==>
            row[p] == if p < c then rows[r][p] != rows[col][p] else rows[r][p]
        {
          row := row[c := row[c] != rows[col][c]];
          c := c + 1;
        }
        assert row == Xor(rows[r], rows[col]);
        rows[r] := row;
      }
      r := r + 1;
    }
  }

  // ---------- Products and the systematic generator ----------

  /** The row-times-matrix accumulation out[i] ^= b[k] for every k with a[i][k]. */
  method Multiply(a: seq<Bits>, b: seq<Bits>, w: nat) returns (product: seq<Bits>)
    requires IsMatrix(a, |b|) && IsMatrix(b, w)
    ensures product == MatMul(a, b, w)
  {
    product := [];
    var i := 0;
    while i < |a|
      invariant 0 <= i <= |a| && |product| == i
      invariant forall r :: 0 <= r < i ==> product[r] == Combine(b, w, a[r])
    {
      var row := Zeros(w);
      CombineToZero(b, w, a[i]);
      var k := 0;
      while k < |b|
        invariant 0 <= k <= |b| && row == CombineTo(b, w, a[i], k)
      {
        CombineToStep(b, w, a[i], k);
        if a[i][k] {
          row := Xor(row, b[k]);
        }
        k := k + 1;
      }
      product := product + [row];
      i := i + 1;
    }
  }

  /** Columns lo..hi of every row. */
  function Slice(rows: seq<Bits>, w: nat, lo: nat, hi: nat): (s: seq<Bits>)
    requires IsMatrix(rows, w) && lo <= hi <= w
    ensures IsMatrix(s, hi - lo) && |s| == |rows| && forall i :: 0 <= i < |rows| ==> s[i] == rows[i][lo..hi]
  {
    seq(|rows|, i requires 0 <= i < |rows| => rows[i][lo..hi])
  }

  function Transposed(rows: seq<Bits>, w: nat): (t: seq<Bits>)
    requires IsMatrix(rows, w)
    ensures IsMatrix(t, |rows|) && |t| == w && forall p :: 0 <= p < w ==> t[p] == Column(rows, w, p)
  {
    seq(w, p requires 0 <= p < w => Column(rows, w, p))
  }

  /** G = [B^T | I] */
  function Systematic(b: seq<Bits>, k: nat): (g: seq<Bits>)
    requires IsMatrix(b, k)
    ensures IsMatrix(g, |b| + k) && |g| == k
    ensures forall i :: 0 <= i < k ==> g[i] == Column(b, k, i) + Unit(k, i)
  {
    seq(k, i requires 0 <= i < k => Column(b, k, i) + Unit(k, i))
  }

  /** g generates exactly the words that pass every check of h, and the last k bits
      of a word m * g are m itself. */
  ghost predicate Generates(g: seq<Bits>, h: seq<Bits>, m: nat, k: nat) {
    && IsMatrix(h, m + k) && |h| == m && IsMatrix(g, m + k) && |g| == k
    && (forall y: Bits :: |y| == k ==> Combine(g, m + k, y)[m..] == y)
    && (forall x: Bits :: |x| == m + k ==> (InKernel(h, m + k, x) <==> InSpan(g, m + k, x)))
  }

  lemma SystematicReads(b: seq<Bits>, k: nat, y: Bits)
    requires IsMatrix(b, k) && |y| == k
    ensures Combine(Systematic(b, k), |b| + k, y)[|b|..] == y
  {
    var m, g := |b|, Systematic(b, k);
    forall i | 0 <= i < k ensures Combine(g, m + k, y)[m..][i] == y[i] {
      var c := Column(g, m + k, m + i);
      DotPick(c, y, i);
      DotSymmetric(c, y);
    }
  }

  /** B = Hp^-1 Hi makes every generator row pass every check. */
  lemma RowsPassChecks(h: seq<Bits>, m: nat, k: nat, inv: seq<Bits>, r: nat, i: nat)
    requires IsMatrix(h, m + k) && |h| == m && r < m && i < k
    requires IsInverse(inv, Slice(h, m + k, 0, m), m)
    ensures !Dot(h[r], Systematic(MatMul(inv, Slice(h, m + k, m, m + k), k), k)[i])
  {
    var hp, hi := Slice(h, m + k, 0, m), Slice(h, m + k, m, m + k);
    var b := MatMul(inv, hi, k);
    assert h[r] == hp[r] + hi[r];
    DotSplit(hp[r], hi[r], Column(b, k, i), Unit(k, i));
    assert Dot(hp[r], Column(b, k, i)) == Combine(b, k, hp[r])[i];
    CombineMatMul(inv, hi, k, hp[r]);
    assert MatMul(hp, inv, m)[r] == Identity(m)[r];
    CombineUnit(hi, k, r);
    DotSymmetric(hi[r], Unit(k, i));
    DotUnit(k, i, hi[r]);
  }

  /** Only the zero word passes all checks with zero message bits. */
  lemma ZeroMessage(h: seq<Bits>, m: nat, k: nat, inv: seq<Bits>, d: Bits)
    requires IsMatrix(h, m + k) && |h| == m
    requires IsInverse(inv, Slice(h, m + k, 0, m), m)
    requires InKernel(h, m + k, d) && IsZero(d[m..])
    ensures IsZero(d)
  {
    var hp, hi := Slice(h, m + k, 0, m), Slice(h, m + k, m, m + k);
    var dp := d[..m];
    forall r | 0 <= r < m ensures !Dot(hp[r], dp) {
      assert h[r] == hp[r] + hi[r] && d == dp + d[m..];
      DotSplit(hp[r], hi[r], dp, d[m..]);
      DotToFalse(hi[r], d[m..], k);
    }
    SingularHasNoInverse(inv, hp, m);
    assert InKernel(hp, m, dp);
    assert IsZero(dp);
    forall p | 0 <= p < m + k ensures !d[p] {
      assert p < m ==> d[p] == dp[p];
      assert p >= m ==> d[p] == d[m..][p - m];
    }
  }

  lemma KernelXor(h: seq<Bits>, w: nat, a: Bits, b: Bits)
    requires IsMatrix(h, w) && InKernel(h, w, a) && InKernel(h, w, b)
    ensures InKernel(h, w, Xor(a, b))
  {
    forall i | 0 <= i < |h| ensures !Dot(h[i], Xor(a, b)) {
      DotSymmetric(h[i], Xor(a, b));
      DotXor(a, b, h[i]);
      DotSymmetric(h[i], a);
      DotSymmetric(h[i], b);
    }
  }

  /** Every combination of rows that pass the checks passes them. */
  lemma CombinationPasses(g: seq<Bits>, h: seq<Bits>, w: nat, y: Bits)
    requires IsMatrix(g, w) && IsMatrix(h, w) && |y| == |g|
    requires forall i :: 0 <= i < |g| ==> InKernel(h, w, g[i])
    ensures InKernel(h, w, Combine(g, w, y))
  {
    forall r | 0 <= r < |h| ensures !Dot(h[r], Combine(g, w, y)) {
      forall i | 0 <= i < |g| ensures !Dot(g[i], h[r]) {
        DotSymmetric(g[i], h[r]);
      }
      Adjoint(g, w, y, h[r]);
      DotToFalse(y, Apply(g, w, h[r]), |g|);
      DotSymmetric(h[r], Combine(g, w, y));
    }
  }

  /** A word that passes every check is what its message bits generate. */
  lemma MessageDetermines(h: seq<Bits>, m: nat, k: nat, inv: seq<Bits>, c: Bits, x: Bits)
    requires IsMatrix(h, m + k) && |h| == m
    requires IsInverse(inv, Slice(h, m + k, 0, m), m)
    requires InKernel(h, m + k, c) && InKernel(h, m + k, x) && c[m..] == x[m..]
    ensures c == x
  {
    var d := Xor(x, c);
    KernelXor(h, m + k, x, c);
    forall i | 0 <= i < k ensures !d[m..][i] {
      assert c[m..][i] == x[m..][i];
    }
    ZeroMessage(h, m, k, inv, d);
    forall p | 0 <= p < m + k ensures x[p] == c[p] {
      assert !d[p];
    }
  }

  lemma GeneratedPasses(h: seq<Bits>, m: nat, k: nat, inv: seq<Bits>, y: Bits)
    requires IsMatrix(h, m + k) && |h| == m && |y| == k
    requires IsInverse(inv, Slice(h, m + k, 0, m), m)
    ensures InKernel(h, m + k, Combine(Systematic(MatMul(inv, Slice(h, m + k, m, m + k), k), k), m + k, y))
  {
    var g := Systematic(MatMul(inv, Slice(h, m + k, m, m + k), k), k);
    forall i | 0 <= i < k ensures InKernel(h, m + k, g[i]) {
      forall r | 0 <= r < m ensures !Dot(h[r], g[i]) {
        RowsPassChecks(h, m, k, inv, r, i);
      }
    }
    CombinationPasses(g, h, m + k, y);
  }

  lemma DerivedCode(h: seq<Bits>, m: nat, k: nat, inv: seq<Bits>, x: Bits)
    requires IsMatrix(h, m + k) && |h| == m && |x| == m + k
    requires IsInverse(inv, Slice(h, m + k, 0, m), m)
    ensures InKernel(h, m + k, x)
       <==> InSpan(Systematic(MatMul(inv, Slice(h, m + k, m, m + k), k), k), m + k, x)
  {
    var b := MatMul(inv, Slice(h, m + k, m, m + k), k);
    var g := Systematic(b, k);
    if InSpan(g, m + k, x) {
      var y: Bits :| |y| == k && Combine(g, m + k, y) == x;
      GeneratedPasses(h, m, k, inv, y);
    }
    if InKernel(h, m + k, x) {
      var y := x[m..];
      SystematicReads(b, k, y);
      GeneratedPasses(h, m, k, inv, y);
      MessageDetermines(h, m, k, inv, Combine(g, m + k, y), x);
    }
  }

  /** The derived matrix is a systematic generator of exactly the code of h. */
  lemma DerivedGenerates(h: seq<Bits>, m: nat, k: nat, inv: seq<Bits>)
    requires IsMatrix(h, m + k) && |h| == m
    requires IsInverse(inv, Slice(h, m + k, 0, m), m)
    ensures Generates(Systematic(MatMul(inv, Slice(h, m + k, m, m + k), k), k), h, m, k)
  {
    var b := MatMul(inv, Slice(h, m + k, m, m + k), k);
    hide IsInverse, InKernel, InSpan, Systematic, Slice, Combine;
    forall y: Bits | |y| == k ensures Combine(Systematic(b, k), m + k, y)[m..] == y {
      SystematicReads(b, k, y);
    }
    forall x: Bits | |x| == m + k
      ensures InKernel(h, m + k, x) <==> InSpan(Systematic(b, k), m + k, x)
    {
      DerivedCode(h, m, k, inv, x);
    }
  }

  datatype Derivation = Generator(g: seq<Bits>) | SingularParity | VerifyFailed

  /** The derivation: invert the parity columns, form G = [B^T | I], and check
      G * H^T = 0.  The check never fails, and G generates exactly the code of H. */
  method Derive(h: seq<Bits>, k: nat) returns (d: Derivation)
    requires IsMatrix(h, |h| + k)
    ensures d.SingularParity? <==> Singular(Slice(h, |h| + k, 0, |h|), |h|)
    ensures !d.VerifyFailed?
    ensures d.Generator? ==> Generates(d.g, h, |h|, k)
  {
    var m := |h|;
    var hp, hi := Slice(h, m + k, 0, m), Slice(h, m + k, m, m + k);
    var inv := Inverse(hp);
    if inv.None? {
      return SingularParity;
    }
    var b := Multiply(inv.value, hi, k);
    var g := Systematic(b, k);
    var ght := Multiply(g, Transposed(h, m + k), m);
    forall i, r | 0 <= i < k && 0 <= r < m ensures !ght[i][r] {
      RowsPassChecks(h, m, k, inv.value, r, i);
      assert Column(Transposed(h, m + k), m, r) == h[r];
      DotSymmetric(g[i], h[r]);
    }
    if exists i :: 0 <= i < k && !IsZero(ght[i]) {
      return VerifyFailed;
    }
    DerivedGenerates(h, m, k, inv.value);
    return Generator(g);
  }
}
