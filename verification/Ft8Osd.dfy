/** The FT8 and JS8 front ends of the ordered-statistics decoder. */
module Ft8Osd {
  import opened Gf2
  import opened Packing
  import opened Ft8Code
  import opened OsdCore
  import opened Elimination
  import opened GeneratorDerivation

  /** The rows of a two-dimensional array. */
  function RowsOf(g: array2<bool>): (rows: seq<Bits>)
    reads g
    ensures IsMatrix(rows, g.Length1) && |rows| == g.Length0
    ensures forall i, j :: 0 <= i < g.Length0 && 0 <= j < g.Length1 ==> rows[i][j] == g[i, j]
  {
    seq(g.Length0, i requires 0 <= i < g.Length0 reads g =>
      seq(g.Length1, j requires 0 <= j < g.Length1 reads g => g[i, j]))
  }

  lemma ShiftedBit(b: Byte, k: nat)
    requires k < 8
    ensures ((b >> (7 - k)) & 1 != 0) == BitOf(b, k)
  {
    if k == 0 {} else if k == 1 {} else if k == 2 {} else if k == 3 {}
    else if k == 4 {} else if k == 5 {} else if k == 6 {} else {}
  }

  /** Unpack the table into the systematic generator; the array starts out zero. */
  method BuildGenerator(table: seq<seq<Byte>>, gen: array2<bool>)
    requires ValidTable(table) && gen.Length0 == K && gen.Length1 == N
    requires forall m, p :: 0 <= m < K && 0 <= p < N ==> !gen[m, p]
    modifies gen
    ensures RowsOf(gen) == GenMatrix(table)
  {
    hide RowsOf, BitOf, GenMatrix;
    ghost var g := GenMatrix(table);
    var m := 0;
    while m < K
      invariant 0 <= m <= K
      invariant forall r, p :: 0 <= r < m && 0 <= p < N ==> gen[r, p] == g[r][p]
      invariant forall r, p :: m <= r < K && 0 <= p < N ==> !gen[r, p]
    {
      gen[m, m] := true;
      var i := 0;
      while i < M
        invariant 0 <= i <= M
        invariant forall r, p :: 0 <= r < m && 0 <= p < N ==> gen[r, p] == g[r][p]
        invariant forall p :: 0 <= p < K + i ==> gen[m, p] == g[m][p]
        invariant forall r, p :: m < r < K && 0 <= p < N ==> !gen[r, p]
      {
        var bit := (table[i][m / 8] >> (7 - m % 8)) & 1;
        ShiftedBit(table[i][m / 8], m % 8);
        gen[m, K + i] := bit != 0;
        i := i + 1;
      }
      m := m + 1;
    }
    forall r | 0 <= r < K ensures RowsOf(gen)[r] == g[r] {
    }
  }

  /** FT8 decoding never fails, and its result re-encodes to itself: the unpacked
      generator and the packed encoder are the same map. */
  method Ft8OsdDecode(table: seq<seq<Byte>>, llr: seq<real>, order: int)
    returns (ok: bool, plain: Bits, softDist: real, ghost basis: seq<nat>)
    requires ValidTable(table) && |llr| == N
    ensures ok && |plain| == N
    ensures plain == Codeword(table, plain[..K])
    ensures softDist == SoftDist(llr, plain)
    ensures |basis| == K && (forall i :: 0 <= i < K ==> basis[i] < N)
    ensures Distinct(basis) && MostReliable(GenMatrix(table), N, llr, PivotMask(basis, N))
    ensures MismatchCount(llr, basis, plain) <= ClampedOrder(order)
    ensures Nearest(GenMatrix(table), N, llr, basis, ClampedOrder(order), softDist)
  {
    hide GenMatrix, Codeword, RowsOf, Distinct, MostReliable, Nearest, MismatchCount, SoftDist, PivotMask, InSpan;
    var gen := new bool[K, N]((i, j) => false);
    BuildGenerator(table, gen);
    GeneratorIndependent(table);
    ok, plain, softDist, basis := OsdDecode(llr, RowsOf(gen), order);
    SpanIsCodewords(table, plain);
  }

  /** A derived generator is systematic, so its rows are independent. */
  lemma GeneratesIndependent(g: seq<Bits>, h: seq<Bits>, m: nat, k: nat)
    requires Generates(g, h, m, k)
    ensures !Dependent(g, m + k)
  {
    forall y: Bits | |y| == k && Combine(g, m + k, y) == Zeros(m + k) ensures IsZero(y) {
      forall i | 0 <= i < k ensures !y[i] {
        assert Combine(g, m + k, y)[m..][i] == y[i];
      }
    }
  }

  /** With the generator derived from a check matrix, every decoded word passes
      all of that matrix's checks. */
  method Js8OsdDecode(gen: seq<Bits>, ghost h: seq<Bits>, llr: seq<real>, order: int)
    returns (ok: bool, xhat: Bits, softDist: real, ghost basis: seq<nat>)
    requires |llr| == 174 && Generates(gen, h, 87, 87)
    ensures ok && InKernel(h, 174, xhat)
    ensures softDist == SoftDist(llr, xhat)
    ensures |basis| == 87 && (forall i :: 0 <= i < 87 ==> basis[i] < 174)
    ensures Distinct(basis) && MostReliable(gen, 174, llr, PivotMask(basis, 174))
    ensures MismatchCount(llr, basis, xhat) <= ClampedOrder(order)
    ensures forall x: Bits :: InKernel(h, 174, x) && MismatchCount(llr, basis, x) <= ClampedOrder(order)
              ==> softDist <= SoftDist(llr, x)
  {
    hide Distinct, MostReliable, MismatchCount, SoftDist, PivotMask, InSpan, Dot;
    GeneratesIndependent(gen, h, 87, 87);
    ok, xhat, softDist, basis := OsdDecode(llr, gen, order);
  }
}
