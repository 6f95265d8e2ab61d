/** Gauss-Jordan elimination over GF(2): the step that the ordered-statistics
    decoder and the generator derivation both perform for each column. */
module Elimination {
  import opened Gf2

  /** Rows 0..k after row s was added to every other row with a 1 in column col. */
  function ClearedTo(rows: seq<Bits>, w: nat, s: nat, col: nat, k: nat): (rows': seq<Bits>)
    requires IsMatrix(rows, w) && s < |rows| && col < w && k <= |rows|
    ensures IsMatrix(rows', w) && |rows'| == |rows|
  {
    seq(|rows|, r requires 0 <= r < |rows| =>
      if r < k && r != s && rows[r][col] then Xor(rows[r], rows[s]) else rows[r])
  }

  lemma ClearedNone(rows: seq<Bits>, w: nat, s: nat, col: nat)
    requires IsMatrix(rows, w) && s < |rows| && col < w
    ensures RowEquivalent(rows, ClearedTo(rows, w, s, col, 0), w)
  {
    assert ClearedTo(rows, w, s, col, 0) == rows;
  }

  lemma ClearedStepEquivalent(rows: seq<Bits>, w: nat, s: nat, col: nat, k: nat)
    requires IsMatrix(rows, w) && s < |rows| && col < w && k < |rows|
    ensures RowEquivalent(ClearedTo(rows, w, s, col, k), ClearedTo(rows, w, s, col, k + 1), w)
  {
    var before, after := ClearedTo(rows, w, s, col, k), ClearedTo(rows, w, s, col, k + 1);
    if k != s && rows[k][col] {
      assert after == AddRow(before, w, k, s);
      AddRowEquivalent(before, w, k, s);
    } else {
      assert after == before;
    }
  }

  lemma {:induction false} ClearedEquivalent(rows: seq<Bits>, w: nat, s: nat, col: nat, k: nat)
    requires IsMatrix(rows, w) && s < |rows| && col < w && k <= |rows|
    ensures RowEquivalent(rows, ClearedTo(rows, w, s, col, k), w)
  {
    hide *;
    if k == 0 {
      ClearedNone(rows, w, s, col);
    } else {
      ClearedEquivalent(rows, w, s, col, k - 1);
      ClearedStepEquivalent(rows, w, s, col, k - 1);
      RowEquivalentTransitive(rows, ClearedTo(rows, w, s, col, k - 1), ClearedTo(rows, w, s, col, k), w);
    }
  }

  /** The first row at or after `start` with a 1 in the column; rows.Length if none. */
  method FindPivot(rows: array<Bits>, w: nat, start: nat, col: nat) returns (sel: nat)
    requires IsMatrix(rows[..], w) && start <= rows.Length && col < w
    ensures start <= sel <= rows.Length
    ensures forall r :: start <= r < sel ==> !rows[..][r][col]
    ensures sel < rows.Length ==> rows[..][sel][col]
  {
    sel := start;
    while sel < rows.Length && !rows[..][sel][col]
      invariant start <= sel <= rows.Length
      invariant forall r :: start <= r < sel ==> !rows[..][r][col]
    {
      sel := sel + 1;
    }
  }

  /** Bring row sel to position s, then clear column col everywhere else. */
  function Pivoted(rows: seq<Bits>, w: nat, s: nat, sel: nat, col: nat): (rows': seq<Bits>)
    requires IsMatrix(rows, w) && s < |rows| && sel < |rows| && col < w
    ensures IsMatrix(rows', w) && |rows'| == |rows|
  {
    ClearedTo(SwapRows(rows, w, s, sel), w, s, col, |rows|)
  }

  lemma PivotedEquivalent(rows: seq<Bits>, w: nat, s: nat, sel: nat, col: nat)
    requires IsMatrix(rows, w) && s < |rows| && sel < |rows| && col < w
    ensures RowEquivalent(rows, Pivoted(rows, w, s, sel, col), w)
  {
    var rows1 := SwapRows(rows, w, s, sel);
    SwapRowsEquivalent(rows, w, s, sel);
    ClearedEquivalent(rows1, w, s, col, |rows|);
    RowEquivalentTransitive(rows, rows1, Pivoted(rows, w, s, sel, col), w);
  }

  /** Reduced row echelon form of the columns before col: pivot column j is the
      j-th unit vector, rows start with zeros before their pivot, and the rows
      without a pivot are zero so far. */
  ghost predicate Echelon(rows: seq<Bits>, w: nat, pivots: seq<nat>, col: nat) {
    && IsMatrix(rows, w) && col <= w && |pivots| <= |rows|
    && (forall j :: 0 <= j < |pivots| ==> pivots[j] < col)
    && (forall i, j :: 0 <= i < j < |pivots| ==> pivots[i] < pivots[j])
    && (forall j, r :: 0 <= j < |pivots| && 0 <= r < |rows| ==> rows[r][pivots[j]] == (r == j))
    && (forall j, p :: 0 <= j < |pivots| && 0 <= p < pivots[j] ==> !rows[j][p])
    && (forall r, p :: |pivots| <= r < |rows| && 0 <= p < col ==> !rows[r][p])
  }

  lemma EchelonPivot(rows: seq<Bits>, w: nat, pivots: seq<nat>, col: nat, sel: nat)
    requires Echelon(rows, w, pivots, col) && col < w
    requires |pivots| <= sel < |rows| && rows[sel][col]
    ensures Echelon(Pivoted(rows, w, |pivots|, sel, col), w, pivots + [col], col + 1)
  {
    var s := |pivots|;
    var rows1 := SwapRows(rows, w, s, sel);
    var rows2 := Pivoted(rows, w, s, sel, col);
    assert Echelon(rows1, w, pivots, col) && rows1[s][col];
    forall r, p | 0 <= r < |rows| && 0 <= p < col
      ensures rows2[r][p] == rows1[r][p]
    {
      assert !rows1[s][p];
    }
    forall r | 0 <= r < |rows| ensures rows2[r][col] == (r == s) {
    }
    var pivots' := pivots + [col];
    forall j, r | 0 <= j < |pivots'| && 0 <= r < |rows2|
      ensures rows2[r][pivots'[j]] == (r == j)
    {
      if j < s { assert pivots'[j] == pivots[j]; }
    }
    forall r, p | |pivots'| <= r < |rows2| && 0 <= p < col + 1
      ensures !rows2[r][p]
    {
    }
  }

  lemma EchelonSkip(rows: seq<Bits>, w: nat, pivots: seq<nat>, col: nat)
    requires Echelon(rows, w, pivots, col) && col < w
    requires forall r :: |pivots| <= r < |rows| ==> !rows[r][col]
    ensures Echelon(rows, w, pivots, col + 1)
  {
  }

  lemma EchelonFinished(rows: seq<Bits>, w: nat, pivots: seq<nat>, col: nat)
    requires Echelon(rows, w, pivots, col) && (col == w || |pivots| == |rows|)
    ensures Echelon(rows, w, pivots, w)
  {
  }

  /** With full rank, the pivot columns of a combination read back its selection. */
  lemma ReadOff(rows: seq<Bits>, w: nat, pivots: seq<nat>, y: Bits, j: nat)
    requires Echelon(rows, w, pivots, w) && |y| == |rows| && j < |pivots|
    ensures Combine(rows, w, y)[pivots[j]] == y[j]
  {
    var c := Column(rows, w, pivots[j]);
    DotSymmetric(y, c);
    DotPick(c, y, j);
  }

  /** Finished elimination decides dependence: a pivot for every row, or not. */
  lemma EchelonDependent(rows: seq<Bits>, w: nat, pivots: seq<nat>)
    requires Echelon(rows, w, pivots, w)
    ensures Dependent(rows, w) <==> |pivots| < |rows|
  {
    if |pivots| < |rows| {
      var y := Unit(|rows|, |pivots|);
      CombineUnit(rows, w, |pivots|);
      assert rows[|pivots|] == Zeros(w);
      assert y[|pivots|];
    } else if Dependent(rows, w) {
      var y: Bits :| |y| == |rows| && !IsZero(y) && Combine(rows, w, y) == Zeros(w);
      forall j | 0 <= j < |y| ensures !y[j] {
        ReadOff(rows, w, pivots, y, j);
      }
      assert false;
    }
  }

  // ---------- Which columns become pivots ----------

  /** The mask of the pivot columns. */
  function PivotMask(pivots: seq<nat>, w: nat): (m: Bits)
    ensures |m| == w && forall p :: 0 <= p < w ==> m[p] == (p in pivots)
  {
    seq(w, p requires 0 <= p < w => p in pivots)
  }

  /** The pivots before column c are the first CountTo(mask, c) of them. */
  lemma {:induction false} PivotsBefore(rows: seq<Bits>, w: nat, pivots: seq<nat>, c: nat)
    requires Echelon(rows, w, pivots, w) && c <= w
    ensures var t := CountTo(PivotMask(pivots, w), c);
            && t <= |pivots|
            && (forall j :: 0 <= j < t ==> pivots[j] < c)
            && (forall j :: t <= j < |pivots| ==> pivots[j] >= c)
  {
    if c > 0 {
      PivotsBefore(rows, w, pivots, c - 1);
      var t := CountTo(PivotMask(pivots, w), c - 1);
      if c - 1 in pivots {
        var j :| 0 <= j < |pivots| && pivots[j] == c - 1;
        assert j >= t;
        assert t < |pivots| && pivots[t] <= pivots[j];
      }
    }
  }

  /** No nonzero column combination inside the mask m cancels: the columns of m
      are linearly independent. */
  ghost predicate IndependentColumns(rows: seq<Bits>, w: nat, m: Bits)
    requires IsMatrix(rows, w)
  {
    |m| == w && forall z: Bits :: Within(z, m) && InKernel(rows, w, z) ==> IsZero(z)
  }

  lemma PivotsIndependent(rows: seq<Bits>, w: nat, pivots: seq<nat>)
    requires Echelon(rows, w, pivots, w)
    ensures IndependentColumns(rows, w, PivotMask(pivots, w))
  {
    forall z: Bits | Within(z, PivotMask(pivots, w)) && InKernel(rows, w, z)
      ensures IsZero(z)
    {
      forall p | 0 <= p < w ensures !z[p] {
        if p in pivots {
          var j :| 0 <= j < |pivots| && pivots[j] == p;
          DotPick(rows[j], z, p);
        }
      }
    }
  }

  /** Among the first c columns at most as many are independent as there are pivots. */
  lemma IndependentBound(rows: seq<Bits>, w: nat, pivots: seq<nat>, m: Bits, c: nat)
    requires Echelon(rows, w, pivots, w) && c <= w
    requires IndependentColumns(rows, w, m)
    ensures CountTo(m, c) <= CountTo(PivotMask(pivots, w), c)
  {
    var t := CountTo(PivotMask(pivots, w), c);
    PivotsBefore(rows, w, pivots, c);
    if CountTo(m, c) > t {
      var m' := seq(w, p requires 0 <= p < w => p < c && m[p]);
      CountToAgree(m, m', c);
      CountToNone(m', c, w);
      var z := Underdetermined(rows[..t], w, m');
      forall r | 0 <= r < |rows| ensures !Dot(rows[r], z) {
        if r < t {
          assert rows[..t][r] == rows[r];
        } else {
          DotToFalse(rows[r], z, w);
        }
      }
      assert false;
    }
  }

  /** Column c is the combination z[..c] of earlier columns taken from the mask m. */
  ghost predicate SpannedByEarlier(rows: seq<Bits>, w: nat, m: Bits, c: nat)
    requires IsMatrix(rows, w)
  {
    exists z: Bits ::
      && |z| == w && c < w && |m| == w && InKernel(rows, w, z) && z[c]
      && (forall p :: c < p < w ==> !z[p])
      && (forall p :: 0 <= p < c && z[p] ==> m[p])
  }

  /** The scan is greedy: a column is skipped exactly when the pivots before it
      already generate it. */
  lemma SkippedExactlyWhenSpanned(rows: seq<Bits>, w: nat, pivots: seq<nat>, c: nat)
    requires Echelon(rows, w, pivots, w) && c < w
    ensures c !in pivots <==> SpannedByEarlier(rows, w, PivotMask(pivots, w), c)
  {
    PivotsIndependent(rows, w, pivots);
    if c in pivots {
      PivotNotSpanned(rows, w, PivotMask(pivots, w), c);
    } else {
      SkippedIsSpanned(rows, w, pivots, c);
    }
  }

  lemma PivotNotSpanned(rows: seq<Bits>, w: nat, m: Bits, c: nat)
    requires IsMatrix(rows, w) && c < w && IndependentColumns(rows, w, m) && m[c]
    ensures !SpannedByEarlier(rows, w, m, c)
  {
    forall z: Bits | |z| == w && InKernel(rows, w, z) && z[c] && (forall p :: c < p < w ==> !z[p])
      ensures exists p :: 0 <= p < c && z[p] && !m[p]
    {
      if Within(z, m) { assert false; }
    }
  }

  lemma SkippedIsSpanned(rows: seq<Bits>, w: nat, pivots: seq<nat>, c: nat)
    requires Echelon(rows, w, pivots, w) && c < w && c !in pivots
    requires IndependentColumns(rows, w, PivotMask(pivots, w))
    ensures SpannedByEarlier(rows, w, PivotMask(pivots, w), c)
  {
    var m := PivotMask(pivots, w);
    var m' := seq(w, p requires 0 <= p < w => p == c || (p < c && m[p]));
    CountToAgree(m, m', c);
    CountToNone(m', c + 1, w);
    var t := CountTo(m, c);
    PivotsBefore(rows, w, pivots, c);
    var z := Underdetermined(rows[..t], w, m');
    forall r | 0 <= r < |rows| ensures !Dot(rows[r], z) {
      if r < t {
        assert rows[..t][r] == rows[r];
      } else {
        assert r < |pivots| ==> pivots[r] > c;
        DotToFalse(rows[r], z, w);
      }
    }
    assert !z[c] ==> Within(z, m);
  }
}
