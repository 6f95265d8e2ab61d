/** The parity checks of the (174,91) code given by index tables, and the belief
    propagation decoder with its acceptance logic. */
module Ft8Ldpc {
  import opened Gf2
  import opened Packing
  import opened Ft8Code
  import opened GeneratorDerivation

  const MAX_ROW := 7

  /** The index tables, with origin 1: nm and numRows list the code bits of each
      check, mn the three checks of each code bit. */
  datatype Checks = Checks(nm: seq<seq<nat>>, numRows: seq<nat>, mn: seq<seq<nat>>) {
    predicate Valid() {
      && |nm| == |numRows| == M && |mn| == N
      && (forall m :: 0 <= m < M ==> numRows[m] <= MAX_ROW && |nm[m]| == MAX_ROW)
      && (forall m, i :: 0 <= m < M && 0 <= i < numRows[m] ==> 1 <= nm[m][i] <= N)
      && (forall n :: 0 <= n < N ==> |mn[n]| == 3)
      && (forall n, i :: 0 <= n < N && 0 <= i < 3 ==> 1 <= mn[n][i] <= M)
    }

    /** The code bit that entry i of check m names. */
    function BitAt(m: nat, i: nat): (n: nat)
      requires Valid() && m < M && i < numRows[m]
      ensures n < N
    {
      nm[m][i] - 1
    }

    /** The check that entry i of code bit n names. */
    function CheckAt(n: nat, i: nat): (m: nat)
      requires Valid() && n < N && i < 3
      ensures m < M
    {
      mn[n][i] - 1
    }

    /** Check m as a row of the parity-check matrix, from its first k entries. */
    function RowTo(m: nat, k: nat): (row: Bits)
      requires Valid() && m < M && k <= numRows[m]
      ensures |row| == N
    {
      if k == 0 then Zeros(N) else
        var row := RowTo(m, k - 1);
        row[BitAt(m, k - 1) := !row[BitAt(m, k - 1)]]
    }

    /** The parity-check matrix. */
    function Matrix(): (h: seq<Bits>)
      requires Valid()
      ensures IsMatrix(h, N) && |h| == M && forall m :: 0 <= m < M ==> h[m] == RowTo(m, numRows[m])
    {
      seq(M, m requires 0 <= m < M => RowTo(m, numRows[m]))
    }
  }

  lemma RowToggle(c: Checks, m: nat, k: nat, x: Bits)
    requires c.Valid() && m < M && k < c.numRows[m] && |x| == N
    ensures Dot(c.RowTo(m, k + 1), x) == (Dot(c.RowTo(m, k), x) != x[c.BitAt(m, k)])
  {
    var row := c.RowTo(m, k);
    DotFlip(row, x, c.BitAt(m, k), !row[c.BitAt(m, k)]);
  }

  /** The number of the first k checks that a word fails. */
  function Failing(h: seq<Bits>, x: Bits, k: nat): (e: nat)
    requires IsMatrix(h, |x|) && k <= |h|
    ensures e <= k
  {
    if k == 0 then 0 else Failing(h, x, k - 1) + if Dot(h[k - 1], x) then 1 else 0
  }

  lemma {:induction false} NoneFailing(h: seq<Bits>, x: Bits, k: nat)
    requires IsMatrix(h, |x|) && k <= |h|
    ensures Failing(h, x, k) == 0 <==> forall i :: 0 <= i < k ==> !Dot(h[i], x)
  {
    if k > 0 {
      NoneFailing(h, x, k - 1);
    }
  }

  /** Count the failing checks by walking the index tables. */
  method LdpcCheck(c: Checks, x: Bits) returns (errors: nat)
    requires c.Valid() && |x| == N
    ensures errors == Failing(c.Matrix(), x, M)
    ensures errors == 0 <==> InKernel(c.Matrix(), N, x)
  {
    hide Dot;
    errors := 0;
    var m := 0;
    while m < M
      invariant 0 <= m <= M && errors == Failing(c.Matrix(), x, m)
    {
      var odd := false;
      var i := 0;
      EmptyRow(x);
      while i < c.numRows[m]
        invariant 0 <= i <= c.numRows[m] && odd == Dot(c.RowTo(m, i), x)
      {
        RowToggle(c, m, i, x);
        odd := odd != x[c.BitAt(m, i)];
        i := i + 1;
      }
      if odd {
        errors := errors + 1;
      }
      m := m + 1;
    }
    NoneFailing(c.Matrix(), x, M);
  }

  lemma EmptyRow(x: Bits)
    requires |x| == N
    ensures !Dot(Zeros(N), x)
  {
    DotToFalse(Zeros(N), x, N);
  }

  // ---------- What the checks accept ----------

  /** The tables describe one code: generator rows pass every check, and the
      checks determine the parity bits. */
  ghost predicate Matching(table: seq<seq<Byte>>, c: Checks) {
    && ValidTable(table) && c.Valid()
    && (forall i :: 0 <= i < K ==> InKernel(c.Matrix(), N, GenMatrix(table)[i]))
    && !Singular(Slice(c.Matrix(), N, K, N), M)
  }

  /** Only the zero word passes all checks with zero message bits. */
  lemma ZeroMessageBits(h: seq<Bits>, d: Bits)
    requires IsMatrix(h, N) && !Singular(Slice(h, N, K, N), M)
    requires InKernel(h, N, d) && IsZero(d[..K])
    ensures IsZero(d)
  {
    var hp := Slice(h, N, K, N);
    forall r | 0 <= r < |h| ensures !Dot(hp[r], d[K..]) {
      assert h[r] == h[r][..K] + hp[r] && d == d[..K] + d[K..];
      DotSplit(h[r][..K], hp[r], d[..K], d[K..]);
      DotToFalse(h[r][..K], d[..K], K);
    }
    assert InKernel(hp, M, d[K..]);
    forall p | 0 <= p < N ensures !d[p] {
      assert p < K ==> d[p] == d[..K][p];
      assert p >= K ==> d[p] == d[K..][p - K];
    }
  }

  /** A word passes every check exactly when it is the codeword of its first 91 bits. */
  lemma ChecksAcceptCodewords(table: seq<seq<Byte>>, c: Checks, x: Bits)
    requires Matching(table, c) && |x| == N
    ensures InKernel(c.Matrix(), N, x) <==> x == Codeword(table, x[..K])
  {
    hide GenMatrix, Codeword, Combine, InKernel, Dot, Slice, IsZero;
    var h, word := c.Matrix(), Codeword(table, x[..K]);
    CodewordIsCombination(table, x[..K]);
    CombinationPasses(GenMatrix(table), h, N, x[..K]);
    if InKernel(h, N, x) {
      KernelXor(h, N, x, word);
      SameMessageXor(x, word);
      ZeroMessageBits(h, Xor(x, word));
      XorIsZero(x, word);
    }
  }

  lemma SameMessageXor(x: Bits, y: Bits)
    requires |x| == |y| == N && forall p :: 0 <= p < K ==> x[p] == y[p]
    ensures IsZero(Xor(x, y)[..K])
  {
  }

  lemma XorIsZero(x: Bits, y: Bits)
    requires |x| == |y| && IsZero(Xor(x, y))
    ensures x == y
  {
    forall p | 0 <= p < |x| ensures x[p] == y[p] {
      assert !Xor(x, y)[p];
    }
  }

  // ---------- Belief propagation ----------

  /** The hard decisions of a vector of log-likelihoods. */
  function HardDecisions(llr: seq<real>): (x: Bits)
    ensures |x| == |llr| && forall i :: 0 <= i < |llr| ==> x[i] == (llr[i] > 0.0)
  {
    seq(|llr|, i requires 0 <= i < |llr| => llr[i] > 0.0)
  }

  /** All that is known of bit n: its likelihood and the messages from its three checks. */
  function Belief(llr: seq<real>, tov: array2<real>, n: nat): real
    requires n < |llr| && n < tov.Length0 && tov.Length1 == 3
    reads tov
  {
    llr[n] + tov[n, 0] + tov[n, 1] + tov[n, 2]
  }

  /** Decide each bit by the sign of all that is known of it. */
  method Guess(llr: seq<real>, tov: array2<real>, plain: array<bool>) returns (plainSum: nat)
    requires |llr| == N == plain.Length && tov.Length0 == N && tov.Length1 == 3
    modifies plain
    ensures forall n :: 0 <= n < N ==> plain[..][n] == (Belief(llr, tov, n) > 0.0)
    ensures plainSum == 0 <==> IsZero(plain[..])
  {
    plainSum := 0;
    var n := 0;
    while n < N
      invariant 0 <= n <= N
      invariant forall i :: 0 <= i < n ==> plain[..][i] == (Belief(llr, tov, i) > 0.0)
      invariant plainSum == 0 <==> IsZero(plain[..n])
    {
      plain[n] := llr[n] + tov[n, 0] + tov[n, 1] + tov[n, 2] > 0.0;
      plainSum := plainSum + if plain[n] then 1 else 0;
      assert plain[..n + 1] == plain[..n] + [plain[n]];
      n := n + 1;
    }
    assert plain[..N] == plain[..];
  }

  /** The likelihood that bit n reports to check m: everything but what m said itself. */
  function Extrinsic(c: Checks, llr: seq<real>, tov: array2<real>, m: nat, n: nat, k: nat): real
    requires c.Valid() && |llr| == N && tov.Length0 == N && tov.Length1 == 3 && n < N && k <= 3
    reads tov
  {
    if k == 0 then llr[n]
    else Extrinsic(c, llr, tov, m, n, k - 1) + if c.CheckAt(n, k - 1) != m then tov[n, k - 1] else 0.0
  }

  /** The product of the messages that the other bits of check m sent, up to entry k. */
  function OthersProduct(c: Checks, toc: array2<real>, m: nat, n: nat, k: nat): real
    requires c.Valid() && m < M && k <= c.numRows[m] && toc.Length0 == M && toc.Length1 == MAX_ROW
    reads toc
  {
    if k == 0 then 1.0
    else if c.BitAt(m, k - 1) != n then OthersProduct(c, toc, m, n, k - 1) * toc[m, k - 1]
    else OthersProduct(c, toc, m, n, k - 1)
  }

  function AllOthersProduct(c: Checks, toc: array2<real>, m: nat, n: nat): real
    requires c.Valid() && m < M && toc.Length0 == M && toc.Length1 == MAX_ROW
    reads toc
  {
    OthersProduct(c, toc, m, n, c.numRows[m])
  }

  /** The first k messages to check m are what its bits report. */
  ghost predicate Reported(c: Checks, llr: seq<real>, tov: array2<real>, toc: array2<real>, tanh: real -> real,
                           m: nat, k: nat)
    requires c.Valid() && |llr| == N && tov.Length0 == N && tov.Length1 == 3
    requires toc.Length0 == M && toc.Length1 == MAX_ROW && m < M && k <= c.numRows[m]
    reads tov, toc
  {
    forall i :: 0 <= i < k ==> toc[m, i] == tanh(-Extrinsic(c, llr, tov, m, c.BitAt(m, i), 3) / 2.0)
  }

  /** The first k messages to bit n are what its checks conclude from their other bits. */
  ghost predicate Concluded(c: Checks, toc: array2<real>, tov: array2<real>, atanh: real -> real, n: nat, k: nat)
    requires c.Valid() && tov.Length0 == N && tov.Length1 == 3 && n < N && k <= 3
    requires toc.Length0 == M && toc.Length1 == MAX_ROW
    reads tov, toc
  {
    forall i :: 0 <= i < k ==> tov[n, i] == -2.0 * atanh(AllOthersProduct(c, toc, c.CheckAt(n, i), n))
  }

  // ---------- What the messages mean ----------

  /** The value speaks for the bit: positive for 1, negative for 0. */
  predicate Agrees(v: real, bit: bool) {
    if bit then v > 0.0 else v < 0.0
  }

  /** f keeps the sign of v. */
  predicate SignAt(f: real -> real, v: real) {
    (v > 0.0 ==> f(v) > 0.0) && (v < 0.0 ==> f(v) < 0.0)
  }

  /** Entry k of bit n names check m, and no other entry of n does; entry i of m names n. */
  predicate Edge(c: Checks, n: nat, k: nat, m: nat, i: nat) {
    && c.Valid() && n < N && k < 3 && m < M && i < c.numRows[m]
    && c.CheckAt(n, k) == m && c.BitAt(m, i) == n
    && forall k' :: 0 <= k' < 3 && k' != k ==> c.CheckAt(n, k') != m
  }

  /** A bit reports to a check all that is known of it, less what that check said. */
  lemma ReportExcludes(c: Checks, llr: seq<real>, tov: array2<real>, n: nat, k: nat, m: nat, i: nat)
    requires Edge(c, n, k, m, i) && |llr| == N && tov.Length0 == N && tov.Length1 == 3
    ensures Extrinsic(c, llr, tov, m, n, 3) == Belief(llr, tov, n) - tov[n, k]
  {
    assert Extrinsic(c, llr, tov, m, n, 1) == llr[n] + if c.CheckAt(n, 0) != m then tov[n, 0] else 0.0;
    assert Extrinsic(c, llr, tov, m, n, 2)
        == Extrinsic(c, llr, tov, m, n, 1) + if c.CheckAt(n, 1) != m then tov[n, 1] else 0.0;
  }

  /** Check m names bit n once. */
  ghost predicate NamesOnce(c: Checks, m: nat, n: nat) {
    && c.Valid() && m < M && n < N
    && exists i :: 0 <= i < c.numRows[m] && c.BitAt(m, i) == n
                   && forall j :: 0 <= j < c.numRows[m] && j != i ==> c.BitAt(m, j) != n
  }

  /** What check m heard from its bits other than n speaks for the word x; a negative
      message speaks for 1. */
  ghost predicate OthersSay(c: Checks, toc: array2<real>, m: nat, n: nat, x: Bits)
    requires c.Valid() && m < M && toc.Length0 == M && toc.Length1 == MAX_ROW && |x| == N
    reads toc
  {
    forall j :: 0 <= j < c.numRows[m] && c.BitAt(m, j) != n ==> Agrees(-toc[m, j], x[c.BitAt(m, j)])
  }

  /** The parity of x over the first k entries of check m that name another bit than n. */
  function OthersParity(c: Checks, m: nat, n: nat, x: Bits, k: nat): bool
    requires c.Valid() && m < M && k <= c.numRows[m] && |x| == N
  {
    if k == 0 then false
    else OthersParity(c, m, n, x, k - 1) != (c.BitAt(m, k - 1) != n && x[c.BitAt(m, k - 1)])
  }

  lemma SignOfProduct(a: real, b: real, p: bool, q: bool)
    requires Agrees(-a, p) && Agrees(-b, q)
    ensures Agrees(-(a * b), p != q)
  {
    if p && q {
      assert (-a) * (-b) > 0.0;
    } else if p {
      assert (-a) * b > 0.0;
    } else if q {
      assert a * (-b) > 0.0;
    } else {
      assert a * b > 0.0;
    }
  }

  /** The sign of the product is the parity of the word spoken for. */
  lemma {:induction false} ProductSign(c: Checks, toc: array2<real>, m: nat, n: nat, x: Bits, k: nat)
    requires c.Valid() && m < M && k <= c.numRows[m] && toc.Length0 == M && toc.Length1 == MAX_ROW && |x| == N
    requires OthersSay(c, toc, m, n, x)
    ensures Agrees(-OthersProduct(c, toc, m, n, k), OthersParity(c, m, n, x, k))
  {
    if k > 0 {
      ProductSign(c, toc, m, n, x, k - 1);
      if c.BitAt(m, k - 1) != n {
        SignOfProduct(OthersProduct(c, toc, m, n, k - 1), toc[m, k - 1], OthersParity(c, m, n, x, k - 1), x[c.BitAt(m, k - 1)]);
      }
    }
  }

  /** The check's own sum over x is the parity of the others plus x[n] wherever n is named. */
  lemma {:induction false} ParityOfCheck(c: Checks, m: nat, n: nat, x: Bits, i: nat, k: nat)
    requires c.Valid() && m < M && i < c.numRows[m] && k <= c.numRows[m] && |x| == N && c.BitAt(m, i) == n
    requires forall j :: 0 <= j < c.numRows[m] && j != i ==> c.BitAt(m, j) != n
    ensures Dot(c.RowTo(m, k), x) == (OthersParity(c, m, n, x, k) != (i < k && x[n]))
  {
    hide Dot;
    if k == 0 {
      EmptyRow(x);
    } else {
      ParityOfCheck(c, m, n, x, i, k - 1);
      RowToggle(c, m, k - 1, x);
    }
  }

  /** Check k of bit n names it once, has heard x from its other bits, and atanh keeps
      the sign of what it concludes. */
  ghost predicate Hears(c: Checks, toc: array2<real>, atanh: real -> real, n: nat, k: nat, x: Bits)
    requires c.Valid() && n < N && k < 3 && toc.Length0 == M && toc.Length1 == MAX_ROW && |x| == N
    reads toc
  {
    var m := c.CheckAt(n, k);
    NamesOnce(c, m, n) && OthersSay(c, toc, m, n, x) && SignAt(atanh, AllOthersProduct(c, toc, m, n))
  }

  /** What a check concludes for a bit: if the others speak for x, it speaks for x[n]
      exactly when x passes the check, and otherwise for the opposite. */
  lemma CheckVotes(c: Checks, toc: array2<real>, tov: array2<real>, atanh: real -> real, n: nat, k: nat, x: Bits)
    requires c.Valid() && tov.Length0 == N && tov.Length1 == 3 && n < N && k < 3 && |x| == N
    requires toc.Length0 == M && toc.Length1 == MAX_ROW && Concluded(c, toc, tov, atanh, n, 3)
    requires Hears(c, toc, atanh, n, k, x)
    ensures Agrees(tov[n, k], x[n] != Dot(c.Matrix()[c.CheckAt(n, k)], x))
  {
    var m := c.CheckAt(n, k);
    var i :| 0 <= i < c.numRows[m] && c.BitAt(m, i) == n && forall j :: 0 <= j < c.numRows[m] && j != i ==> c.BitAt(m, j) != n;
    ProductSign(c, toc, m, n, x, c.numRows[m]);
    ParityOfCheck(c, m, n, x, i, c.numRows[m]);
    hide Dot, OthersProduct, OthersParity;
  }

  /** Messages from code bits to checks: a check hears of a bit all that is known of
      it, less what the check itself said last. */
  method BitsToChecks(c: Checks, llr: seq<real>, tov: array2<real>, toc: array2<real>, tanh: real -> real)
    requires c.Valid() && |llr| == N && tov.Length0 == N && tov.Length1 == 3
    requires toc.Length0 == M && toc.Length1 == MAX_ROW && toc != tov
    modifies toc
    ensures forall m :: 0 <= m < M ==> Reported(c, llr, tov, toc, tanh, m, c.numRows[m])
    ensures forall n: nat, k: nat, m: nat, i: nat :: Edge(c, n, k, m, i) ==> toc[m, i] == tanh(-(Belief(llr, tov, n) - tov[n, k]) / 2.0)
  {
    hide Extrinsic, Belief;
    for m := 0 to M
      invariant forall m' :: 0 <= m' < m ==> Reported(c, llr, tov, toc, tanh, m', c.numRows[m'])
    {
      BitsToCheck(c, llr, tov, toc, tanh, m);
    }
    forall n: nat, k: nat, m: nat, i: nat | Edge(c, n, k, m, i) ensures toc[m, i] == tanh(-(Belief(llr, tov, n) - tov[n, k]) / 2.0) {
      HeardOfBit(c, llr, tov, toc, tanh, n, k, m, i);
    }
  }

  lemma HeardOfBit(c: Checks, llr: seq<real>, tov: array2<real>, toc: array2<real>, tanh: real -> real,
                   n: nat, k: nat, m: nat, i: nat)
    requires Edge(c, n, k, m, i) && |llr| == N && tov.Length0 == N && tov.Length1 == 3
    requires toc.Length0 == M && toc.Length1 == MAX_ROW && Reported(c, llr, tov, toc, tanh, m, c.numRows[m])
    ensures toc[m, i] == tanh(-(Belief(llr, tov, n) - tov[n, k]) / 2.0)
  {
    hide Extrinsic, Belief;
    ReportExcludes(c, llr, tov, n, k, m, i);
  }

  method BitsToCheck(c: Checks, llr: seq<real>, tov: array2<real>, toc: array2<real>, tanh: real -> real, m: nat)
    requires c.Valid() && |llr| == N && tov.Length0 == N && tov.Length1 == 3 && m < M
    requires toc.Length0 == M && toc.Length1 == MAX_ROW && toc != tov
    modifies toc
    ensures Reported(c, llr, tov, toc, tanh, m, c.numRows[m])
    ensures forall j, i :: 0 <= j < M && j != m && 0 <= i < MAX_ROW ==> toc[j, i] == old(toc[j, i])
  {
    hide Extrinsic;
    for nIdx := 0 to c.numRows[m]
      invariant Reported(c, llr, tov, toc, tanh, m, nIdx)
      invariant forall j, i :: 0 <= j < M && j != m && 0 <= i < MAX_ROW ==> toc[j, i] == old(toc[j, i])
    {
      var tnm := Report(c, llr, tov, m, c.BitAt(m, nIdx));
      toc[m, nIdx] := tanh(-tnm / 2.0);
    }
  }

  method Report(c: Checks, llr: seq<real>, tov: array2<real>, m: nat, n: nat) returns (tnm: real)
    requires c.Valid() && |llr| == N && tov.Length0 == N && tov.Length1 == 3 && n < N
    ensures tnm == Extrinsic(c, llr, tov, m, n, 3)
  {
    tnm := llr[n];
    for mIdx := 0 to 3
      invariant tnm == Extrinsic(c, llr, tov, m, n, mIdx)
    {
      if c.CheckAt(n, mIdx) != m {
        tnm := tnm + tov[n, mIdx];
      }
    }
  }

  /** Messages from checks back to code bits: each check votes for the value of the bit
      that makes its parity even, given what it heard from its other bits. */
  method ChecksToBits(c: Checks, toc: array2<real>, tov: array2<real>, atanh: real -> real)
    requires c.Valid() && tov.Length0 == N && tov.Length1 == 3
    requires toc.Length0 == M && toc.Length1 == MAX_ROW && toc != tov
    modifies tov
    ensures forall n :: 0 <= n < N ==> Concluded(c, toc, tov, atanh, n, 3)
    ensures forall n, k, x: Bits :: 0 <= n < N && 0 <= k < 3 && |x| == N && Hears(c, toc, atanh, n, k, x)
              ==> Agrees(tov[n, k], x[n] != Dot(c.Matrix()[c.CheckAt(n, k)], x))
  {
    hide AllOthersProduct, OthersProduct, Dot, Agrees, Hears;
    for n := 0 to N
      invariant forall n' :: 0 <= n' < n ==> Concluded(c, toc, tov, atanh, n', 3)
    {
      label before:
      ChecksToBit(c, toc, tov, atanh, n);
      forall n' | 0 <= n' < n ensures Concluded(c, toc, tov, atanh, n', 3) {
        assert old@before(Concluded(c, toc, tov, atanh, n', 3));
      }
    }
    forall n, k, x: Bits | 0 <= n < N && 0 <= k < 3 && |x| == N && Hears(c, toc, atanh, n, k, x)
      ensures Agrees(tov[n, k], x[n] != Dot(c.Matrix()[c.CheckAt(n, k)], x))
    {
      CheckVotes(c, toc, tov, atanh, n, k, x);
    }
  }

  method ChecksToBit(c: Checks, toc: array2<real>, tov: array2<real>, atanh: real -> real, n: nat)
    requires c.Valid() && tov.Length0 == N && tov.Length1 == 3 && n < N
    requires toc.Length0 == M && toc.Length1 == MAX_ROW && toc != tov
    modifies tov
    ensures Concluded(c, toc, tov, atanh, n, 3)
    ensures forall j, i :: 0 <= j < N && j != n && 0 <= i < 3 ==> tov[j, i] == old(tov[j, i])
  {
    hide AllOthersProduct, OthersProduct;
    for mIdx := 0 to 3
      invariant Concluded(c, toc, tov, atanh, n, mIdx)
      invariant forall j, i :: 0 <= j < N && j != n && 0 <= i < 3 ==> tov[j, i] == old(tov[j, i])
    {
      var tmn := Conclude(c, toc, c.CheckAt(n, mIdx), n);
      tov[n, mIdx] := -2.0 * atanh(tmn);
    }
  }

  method Conclude(c: Checks, toc: array2<real>, m: nat, n: nat) returns (tmn: real)
    requires c.Valid() && m < M && toc.Length0 == M && toc.Length1 == MAX_ROW
    ensures tmn == AllOthersProduct(c, toc, m, n)
  {
    tmn := 1.0;
    for nIdx := 0 to c.numRows[m]
      invariant tmn == OthersProduct(c, toc, m, n, nIdx)
    {
      if c.BitAt(m, nIdx) != n {
        tmn := tmn * toc[m, nIdx];
      }
    }
  }

  /** Whatever the messages are: no errors means a nonzero word that passes every
      check; the count never exceeds what the hard decisions alone fail; and hard
      decisions that already form a codeword are returned as they are. */
  method BpDecode(c: Checks, llr: seq<real>, maxIters: int, plain: array<bool>,
                  tanh: real -> real, atanh: real -> real) returns (errors: nat)
    requires c.Valid() && |llr| == N == plain.Length
    modifies plain
    ensures errors <= M
    ensures errors == 0 ==> !IsZero(plain[..]) && InKernel(c.Matrix(), N, plain[..])
    ensures maxIters <= 0 || IsZero(HardDecisions(llr)) ==> errors == M
    ensures maxIters > 0 && !IsZero(HardDecisions(llr)) ==> errors <= Failing(c.Matrix(), HardDecisions(llr), M)
    ensures maxIters > 0 && !IsZero(HardDecisions(llr)) && InKernel(c.Matrix(), N, HardDecisions(llr))
        ==> plain[..] == HardDecisions(llr)
  {
    hide InKernel, Failing, Dot;
    ghost var h, first := c.Matrix(), HardDecisions(llr);
    var tov := new real[N, 3]((n, i) => 0.0);
    var toc := new real[M, MAX_ROW]((m, i) => 0.0);
    errors := M;
    var iter := 0;
    while iter < maxIters
      invariant 0 <= iter && (iter > 0 ==> iter <= maxIters) && 0 < errors <= M
      invariant iter == 0 ==> errors == M && forall n, i :: 0 <= n < N && 0 <= i < 3 ==> tov[n, i] == 0.0
      invariant iter > 0 ==> !IsZero(first) && errors <= Failing(h, first, M) && !InKernel(h, N, first)
    {
      var plainSum := Guess(llr, tov, plain);
      assert iter == 0 ==> plain[..] == first;
      if plainSum == 0 {
        break;
      }
      var failing := LdpcCheck(c, plain[..]);
      if failing < errors {
        errors := failing;
        if failing == 0 {
          break;
        }
      }
      BitsToChecks(c, llr, tov, toc, tanh);
      ChecksToBits(c, toc, tov, atanh);
      iter := iter + 1;
    }
  }
}
