/** The (174,91) code: the packed parity table, the packed encoder that walks it
    byte by byte, and the linear map over GF(2) that both stand for. */
module Ft8Code {
  import opened Gf2
  import opened Packing
  import opened Ft8Crc

  const N := 174
  const K := 91
  const M := 83
  const N_BYTES := 22
  const K_BYTES := 12

  /** One packed row of 91 coefficients for each checksum bit. */
  predicate ValidTable(table: seq<seq<Byte>>) {
    |table| == M && forall i :: 0 <= i < M ==> |table[i]| == K_BYTES
  }

  function TableRow(table: seq<seq<Byte>>, i: nat): (row: Bits)
    requires ValidTable(table) && i < M
    ensures |row| == K
  {
    Unpacked(table[i])[..K]
  }

  /** Message bits first, then one inner product with the table per checksum bit. */
  function Codeword(table: seq<seq<Byte>>, msg: Bits): (c: Bits)
    requires ValidTable(table) && |msg| == K
    ensures |c| == N
    ensures forall p :: 0 <= p < K ==> c[p] == msg[p]
    ensures forall p :: K <= p < N ==> c[p] == Dot(msg, TableRow(table, p - K))
  {
    seq(N, p requires 0 <= p < N => if p < K then msg[p] else Dot(msg, TableRow(table, p - K)))
  }

  /** The systematic generator: identity columns, then the table transposed. */
  function GenMatrix(table: seq<seq<Byte>>): (g: seq<Bits>)
    requires ValidTable(table)
    ensures IsMatrix(g, N) && |g| == K
    ensures forall m, p :: 0 <= m < K && 0 <= p < N
              ==> g[m][p] == if p < K then p == m else TableRow(table, p - K)[m]
  {
    seq(K, m requires 0 <= m < K =>
      seq(N, p requires 0 <= p < N => if p < K then p == m else TableRow(table, p - K)[m]))
  }

  /** Encoding is the combination of the generator rows that the message selects. */
  lemma CodewordIsCombination(table: seq<seq<Byte>>, msg: Bits)
    requires ValidTable(table) && |msg| == K
    ensures Combine(GenMatrix(table), N, msg) == Codeword(table, msg)
  {
    var g := GenMatrix(table);
    forall p | 0 <= p < N ensures Combine(g, N, msg)[p] == Codeword(table, msg)[p] {
      if p < K {
        assert Column(g, N, p) == Unit(K, p);
        DotUnit(K, p, msg);
        DotSymmetric(Unit(K, p), msg);
      } else {
        assert Column(g, N, p) == TableRow(table, p - K);
      }
    }
  }

  /** The words of the row space are exactly the codewords, each encoding its own first 91 bits. */
  lemma SpanIsCodewords(table: seq<seq<Byte>>, x: Bits)
    requires ValidTable(table) && |x| == N
    ensures InSpan(GenMatrix(table), N, x) <==> x == Codeword(table, x[..K])
  {
    hide GenMatrix, Codeword, Combine;
    var g := GenMatrix(table);
    CodewordIsCombination(table, x[..K]);
    if InSpan(g, N, x) {
      var y: Bits :| |y| == |g| && Combine(g, N, y) == x;
      CodewordIsCombination(table, y);
      assert x[..K] == y;
    }
  }

  /** The generator has full rank, because it is systematic. */
  lemma GeneratorIndependent(table: seq<seq<Byte>>)
    requires ValidTable(table)
    ensures !Dependent(GenMatrix(table), N)
  {
    hide GenMatrix, Codeword, Combine;
    var g := GenMatrix(table);
    forall y: Bits | |y| == |g| && Combine(g, N, y) == Zeros(N) ensures IsZero(y) {
      CodewordIsCombination(table, y);
      forall p | 0 <= p < K ensures !y[p] {
        assert Codeword(table, y)[p] == Zeros(N)[p];
      }
    }
  }

  // ---------- The parity of a byte ----------

  function Parity8(b: Byte): Byte {
    var x := b ^ (b >> 4);
    var x' := x ^ (x >> 2);
    var x'' := x' ^ (x' >> 1);
    x'' % 2
  }

  /** The exclusive or of the first k bits of a byte. */
  predicate ParityTo(b: Byte, k: nat)
    requires k <= 8
  {
    k > 0 && ParityTo(b, k - 1) != BitOf(b, k - 1)
  }

  lemma Parity8Folds(b: Byte)
    ensures Parity8(b) == if ((((b & 0x80 != 0) != (b & 0x40 != 0)) != ((b & 0x20 != 0) != (b & 0x10 != 0)))
                           != (((b & 0x08 != 0) != (b & 0x04 != 0)) != ((b & 0x02 != 0) != (b & 0x01 != 0))))
                          then 1 else 0
  {
  }

  lemma Parity8Bits(b: Byte)
    ensures Parity8(b) == if (((BitOf(b, 0) != BitOf(b, 1)) != (BitOf(b, 2) != BitOf(b, 3)))
                           != ((BitOf(b, 4) != BitOf(b, 5)) != (BitOf(b, 6) != BitOf(b, 7))))
                          then 1 else 0
  {
    hide Parity8;
    Parity8Folds(b);
  }

  /** Folding the byte on itself three times leaves the parity of its eight bits. */
  lemma Parity8Counts(b: Byte)
    ensures Parity8(b) == if ParityTo(b, 8) then 1 else 0
  {
    hide Parity8, BitOf;
    Parity8Bits(b);
    assert ParityTo(b, 1) == BitOf(b, 0);
    assert ParityTo(b, 2) == (BitOf(b, 0) != BitOf(b, 1));
    assert ParityTo(b, 4) == (ParityTo(b, 2) != (BitOf(b, 2) != BitOf(b, 3)));
    assert ParityTo(b, 6) == (ParityTo(b, 4) != (BitOf(b, 4) != BitOf(b, 5)));
  }

  predicate SingleBitByte(m: Byte) {
    m & (m - 1) == 0
  }

  lemma AndMasked(a: Byte, b: Byte, m: Byte)
    requires SingleBitByte(m)
    ensures ((a & b) & m != 0) == (a & m != 0 && b & m != 0)
  {
  }

  lemma ByteMaskSingle(k: nat)
    requires k < 8
    ensures SingleBitByte(Mask(k))
  {
  }

  lemma AndBit(a: Byte, b: Byte, k: nat)
    requires k < 8
    ensures BitOf(a & b, k) == (BitOf(a, k) && BitOf(b, k))
  {
    hide Mask, SingleBitByte;
    ByteMaskSingle(k);
    AndMasked(a, b, Mask(k));
  }

  lemma DotToStep(a: Bits, b: Bits, n: nat)
    requires n < |a| && n < |b|
    ensures DotTo(a, b, n + 1) == (DotTo(a, b, n) != (a[n] && b[n]))
  {
  }

  lemma BitsOfByte(s: seq<Byte>, j: nat, k: nat)
    requires j < |s| && k < 8
    ensures 8 * j + k < 8 * |s| && Unpacked(s)[8 * j + k] == BitOf(s[j], k)
  {
    assert (8 * j + k) / 8 == j && (8 * j + k) % 8 == k;
  }

  /** Eight more entries of the inner product are the parity of one more byte. */
  lemma {:induction false} DotByte(s: seq<Byte>, t: seq<Byte>, j: nat, k: nat)
    requires |s| == |t| && j < |s| && k <= 8
    ensures DotTo(Unpacked(s), Unpacked(t), 8 * j + k)
         == (DotTo(Unpacked(s), Unpacked(t), 8 * j) != ParityTo(s[j] & t[j], k))
  {
    hide BitOf, Unpacked, DotTo, PackedBit;
    if k > 0 {
      var n := 8 * j + k - 1;
      BitsOfByte(s, j, k - 1);
      BitsOfByte(t, j, k - 1);
      DotByte(s, t, j, k - 1);
      AndBit(s[j], t[j], k - 1);
      DotToStep(Unpacked(s), Unpacked(t), n);
    }
  }

  /** Unused bits that are zero on either side do not reach the parity. */
  lemma DotIgnoresTail(message: seq<Byte>, row: seq<Byte>)
    requires |message| == |row| == K_BYTES && (CleanTail(message, K) || CleanTail(row, K))
    ensures Dot(Unpacked(message), Unpacked(row)) == Dot(Unpacked(message)[..K], Unpacked(row)[..K])
  {
    hide Unpacked, PackedBit;
    var a, b := Unpacked(message), Unpacked(row);
    DotToTail(a, b, K, 8 * K_BYTES);
    DotToAgree(a, b, a[..K], b[..K], K);
  }

  lemma {:induction false} DotToTail(a: Bits, b: Bits, n: nat, n': nat)
    requires n <= n' <= |a| && n' <= |b| && forall i :: n <= i < n' ==> !a[i] || !b[i]
    ensures DotTo(a, b, n') == DotTo(a, b, n)
    decreases n'
  {
    if n < n' {
      DotToTail(a, b, n, n' - 1);
    }
  }

  // ---------- The packed encoder ----------

  /** The parity of the message against one packed row. */
  method RowParity(message: seq<Byte>, row: seq<Byte>) returns (nsum: Byte)
    requires |message| == |row| == K_BYTES
    ensures nsum % 2 == if Dot(Unpacked(message), Unpacked(row)) then 1 else 0
  {
    hide Unpacked, Parity8;
    nsum := 0;
    var j := 0;
    while j < K_BYTES
      invariant 0 <= j <= K_BYTES
      invariant nsum == if DotTo(Unpacked(message), Unpacked(row), 8 * j) then 1 else 0
    {
      var bits := message[j] & row[j];
      DotByte(message, row, j, 8);
      Parity8Counts(bits);
      hide ParityTo, DotTo;
      XorOfParities(nsum, Parity8(bits));
      nsum := nsum ^ Parity8(bits);
      j := j + 1;
    }
  }

  lemma XorOfParities(x: Byte, y: Byte)
    requires (x == 0 || x == 1) && (y == 0 || y == 1)
    ensures x ^ y == if (x == 1) != (y == 1) then 1 else 0
  {
  }

  /** The message bytes, then zeros. */
  method FillCodeword(message: seq<Byte>, codeword: array<Byte>)
    requires |message| == K_BYTES && codeword.Length == N_BYTES
    modifies codeword
    ensures codeword[..K_BYTES] == message && forall j :: K_BYTES <= j < N_BYTES ==> codeword[..][j] == 0
  {
    var j := 0;
    while j < N_BYTES
      invariant 0 <= j <= N_BYTES
      invariant forall i :: 0 <= i < j ==> codeword[..][i] == if i < K_BYTES then message[i] else 0
    {
      codeword[j] := if j < K_BYTES then message[j] else 0;
      j := j + 1;
    }
    assert forall i :: 0 <= i < K_BYTES ==> codeword[..][i] == message[i];
  }

  /** The message's bit p in the 22 bytes: stray bits after the 91st stay in place. */
  predicate Carried(message: seq<Byte>, p: nat)
    requires |message| == K_BYTES
  {
    p < 8 * K_BYTES && Unpacked(message)[p]
  }

  /** What the encoder writes for any twelve bytes: a stray bit is never cleared. */
  function Written(table: seq<seq<Byte>>, message: seq<Byte>): (w: Bits)
    requires ValidTable(table) && |message| == K_BYTES
    ensures |w| == N && w[..K] == Unpacked(message)[..K]
    ensures forall p :: K <= p < N ==> w[p] == (Carried(message, p) || Dot(Unpacked(message), Unpacked(table[p - K])))
  {
    seq(N, p requires 0 <= p < N =>
      Carried(message, p) || (p >= K && Dot(Unpacked(message), Unpacked(table[p - K]))))
  }

  /** With clean tables, that is the code word of the first 91 bits if and only if
      every stray bit falls on a checksum bit that is set anyway. */
  lemma WrittenIsCodeword(table: seq<seq<Byte>>, message: seq<Byte>)
    requires ValidTable(table) && |message| == K_BYTES
    requires CleanTail(message, K) || forall i :: 0 <= i < M ==> CleanTail(table[i], K)
    ensures var word := Codeword(table, Unpacked(message)[..K]);
            Written(table, message) == word <==> forall p :: K <= p < 8 * K_BYTES && Unpacked(message)[p] ==> word[p]
  {
    var msg := Unpacked(message)[..K];
    var w, word := Written(table, message), Codeword(table, msg);
    hide Unpacked, Written, Codeword, Dot;
    forall p | K <= p < N ensures w[p] == (Carried(message, p) || word[p]) {
      DotIgnoresTail(message, table[p - K]);
    }
    assert forall p :: K <= p < 8 * K_BYTES ==> Carried(message, p) == Unpacked(message)[p];
    if forall p :: K <= p < 8 * K_BYTES && Unpacked(message)[p] ==> word[p] {
      forall p | 0 <= p < N ensures w[p] == word[p] {
        assert p < K ==> w[p] == w[..K][p];
      }
    }
  }

  /** The first i bits are written, the others are still those of the message. */
  ghost predicate Writing(s: seq<Byte>, word: Bits, message: seq<Byte>, i: nat)
    requires |message| == K_BYTES
  {
    && |s| == N_BYTES && i <= |word| == N
    && (forall j :: 0 <= j < i ==> PackedBit(s, j) == word[j])
    && (forall j :: i <= j < 8 * N_BYTES ==> PackedBit(s, j) == Carried(message, j))
  }

  lemma StartWriting(s: seq<Byte>, word: Bits, message: seq<Byte>)
    requires |s| == N_BYTES && |message| == K_BYTES && |word| == N && word[..K] == Unpacked(message)[..K]
    requires s[..K_BYTES] == message && forall j :: K_BYTES <= j < N_BYTES ==> s[j] == 0
    ensures Writing(s, word, message, K)
  {
    hide BitOf;
    forall i | 0 <= i < 8 * N_BYTES ensures PackedBit(s, i) == Carried(message, i) {
      if i < 8 * K_BYTES {
        assert s[..K_BYTES][i / 8] == s[i / 8];
      } else {
        ClearBits(s[i / 8], i % 8);
      }
    }
    forall i | 0 <= i < K ensures PackedBit(s, i) == word[i] {
      assert word[..K][i] == Unpacked(message)[..K][i];
    }
  }

  lemma WriteBit(s: seq<Byte>, word: Bits, message: seq<Byte>, i: nat, parity: bool)
    requires |message| == K_BYTES && Writing(s, word, message, i) && i < N && word[i] == (Carried(message, i) || parity)
    ensures Writing(if parity then s[i / 8 := s[i / 8] | Mask(i % 8)] else s, word, message, i + 1)
  {
    hide BitOf, Mask;
    if parity {
      var t := s[i / 8 := s[i / 8] | Mask(i % 8)];
      SetBit(s, i);
      forall j | 0 <= j < 8 * |s| ensures PackedBit(t, j) == (PackedBit(s, j) || j == i) {
        assert PackedBit(t, j) == Unpacked(t)[j] && PackedBit(s, j) == Unpacked(s)[j];
      }
    }
  }

  /** The packed encoder, bit by bit through a rolling mask, directly from the packed
      table: what it writes for any bytes, and the code word for a clean message. */
  method Encode174(table: seq<seq<Byte>>, message: seq<Byte>, codeword: array<Byte>)
    requires ValidTable(table) && |message| == K_BYTES
    requires codeword.Length == N_BYTES
    modifies codeword
    ensures PackedUpTo(codeword[..], Written(table, message), N, N_BYTES)
    ensures CleanTail(message, K) ==> PackedUpTo(codeword[..], Codeword(table, Unpacked(message)[..K]), N, N_BYTES)
  {
    hide Unpacked, PackedUpTo, Writing, CleanTail, Dot, Mask, Codeword, Carried;
    FillCodeword(message, codeword);
    ghost var word := Written(table, message);
    StartWriting(codeword[..], word, message);
    var colMask: Byte, colIdx := 0x80 >> (K % 8), K_BYTES - 1;
    FirstMask();
    var i := 0;
    while i < M
      invariant 0 <= i <= M && colIdx == (K + i) / 8 && colMask == Mask((K + i) % 8)
      invariant Writing(codeword[..], word, message, K + i)
    {
      var nsum := RowParity(message, table[i]);
      assert word[K + i] == (Carried(message, K + i) || Dot(Unpacked(message), Unpacked(table[K + i - K])));
      WriteBit(codeword[..], word, message, K + i, nsum % 2 != 0);
      if nsum % 2 != 0 {
        codeword[colIdx] := codeword[colIdx] | colMask;
      }
      MaskStep((K + i) % 8);
      colMask := colMask >> 1;
      if colMask == 0 {
        colMask := 0x80;
        colIdx := colIdx + 1;
        TopMask();
      }
      i := i + 1;
    }
    AllWritten(codeword[..], word, message);
    if CleanTail(message, K) {
      CleanWritten(table, message);
    }
  }

  lemma AllWritten(s: seq<Byte>, word: Bits, message: seq<Byte>)
    requires |message| == K_BYTES && Writing(s, word, message, N)
    ensures PackedUpTo(s, word, N, N_BYTES)
  {
  }

  lemma CleanWritten(table: seq<seq<Byte>>, message: seq<Byte>)
    requires ValidTable(table) && |message| == K_BYTES && CleanTail(message, K)
    ensures Written(table, message) == Codeword(table, Unpacked(message)[..K])
  {
    WrittenIsCodeword(table, message);
  }

  lemma FirstMask()
    ensures 0x80 >> (K % 8) == Mask(K % 8)
  {
  }

  lemma TopMask()
    ensures Mask(0) == 0x80
  {
  }
}
