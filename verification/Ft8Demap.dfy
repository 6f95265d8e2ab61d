/** From the waterfall of magnitudes to log-likelihoods of the code bits. */
module Ft8Demap {
  import opened Gf2
  import opened Ft8Code
  import opened Ft8Encode

  // ---------- The waterfall ----------

  datatype Protocol = Ft4 | Ft8

  /** Magnitudes stored as blocks of time subdivisions of frequency subdivisions of bins. */
  datatype Waterfall = Waterfall(numBlocks: nat, numBins: nat, timeOsr: nat, freqOsr: nat,
                                 mag: seq<nat>, blockStride: nat, protocol: Protocol)
  {
    predicate Valid() {
      blockStride == timeOsr * (freqOsr * numBins) && |mag| >= numBlocks * blockStride
    }
  }

  /** Where a message may start. */
  datatype Candidate = Candidate(score: int, timeOffset: int, freqOffset: nat, timeSub: nat, freqSub: nat)

  /** The subdivisions exist and the tones lie inside the band. */
  predicate InBand(wf: Waterfall, cand: Candidate, tones: nat) {
    cand.timeSub < wf.timeOsr && cand.freqSub < wf.freqOsr && cand.freqOffset + tones <= wf.numBins
  }

  function Index(wf: Waterfall, cand: Candidate, block: int): int {
    ((block * wf.timeOsr + cand.timeSub) * wf.freqOsr + cand.freqSub) * wf.numBins + cand.freqOffset
  }

  lemma Nested(i: int, a: int, j: int, b: int)
    requires 0 <= i < a && 0 <= j < b
    ensures 0 <= i * b + j < a * b
  {
    assert (i + 1) * b <= a * b;
  }

  lemma Distribute(a: int, b: int, c: int)
    ensures (a + b) * c == a * c + b * c
  {
  }

  lemma Associate(a: int, b: int, c: int)
    ensures (a * b) * c == a * (b * c)
  {
  }

  lemma RowInside(blocks: nat, a: nat, b: nat, block: int, i: nat, j: nat)
    requires 0 <= block < blocks && i < a && j < b
    ensures 0 <= (block * a + i) * b + j < blocks * a * b
  {
    Nested(block, blocks, i, a);
    Nested(block * a + i, blocks * a, j, b);
  }

  lemma BinInside(f: int, rows: int, bins: nat, offset: nat, tones: nat)
    requires 0 <= f < rows && offset + tones <= bins
    ensures 0 <= f * bins + offset && f * bins + offset + tones <= rows * bins
  {
    Distribute(f, 1, bins);
    assert (f + 1) * bins <= rows * bins;
  }

  lemma StrideTotal(blocks: int, a: int, b: int, c: int)
    ensures blocks * a * b * c == blocks * (a * (b * c))
  {
    Associate(blocks * a, b, c);
    Associate(blocks, a, b * c);
  }

  lemma IndexInside(wf: Waterfall, cand: Candidate, block: int, tones: nat)
    requires wf.Valid() && InBand(wf, cand, tones) && 0 <= block < wf.numBlocks
    ensures 0 <= Index(wf, cand, block) && Index(wf, cand, block) + tones <= |wf.mag|
  {
    var f := (block * wf.timeOsr + cand.timeSub) * wf.freqOsr + cand.freqSub;
    var rows := wf.numBlocks * wf.timeOsr * wf.freqOsr;
    RowInside(wf.numBlocks, wf.timeOsr, wf.freqOsr, block, cand.timeSub, cand.freqSub);
    BinInside(f, rows, wf.numBins, cand.freqOffset, tones);
    StrideTotal(wf.numBlocks, wf.timeOsr, wf.freqOsr, wf.numBins);
  }

  /** Moving on by whole symbols is moving on by the stride. */
  lemma IndexStride(wf: Waterfall, cand: Candidate, block: int, s: int)
    requires wf.Valid()
    ensures Index(wf, cand, block + s) == Index(wf, cand, block) + s * wf.blockStride
  {
    Distribute(block, s, wf.timeOsr);
    var t := block * wf.timeOsr + cand.timeSub;
    Distribute(t, s * wf.timeOsr, wf.freqOsr);
    Distribute(t * wf.freqOsr + cand.freqSub, s * wf.timeOsr * wf.freqOsr, wf.numBins);
    Associate(s * wf.timeOsr, wf.freqOsr, wf.numBins);
    Associate(s, wf.timeOsr, wf.freqOsr * wf.numBins);
  }

  /** The offset of the candidate's first symbol. */
  method GetCandMag(wf: Waterfall, cand: Candidate) returns (offset: int)
    ensures offset == Index(wf, cand, cand.timeOffset)
  {
    offset := cand.timeOffset;
    offset := offset * wf.timeOsr + cand.timeSub;
    offset := offset * wf.freqOsr + cand.freqSub;
    offset := offset * wf.numBins + cand.freqOffset;
  }

  /** The magnitudes of the candidate's tones during one symbol. */
  function Levels(wf: Waterfall, cand: Candidate, sym: nat, tones: nat): (v: seq<nat>)
    requires wf.Valid() && InBand(wf, cand, tones) && 0 <= cand.timeOffset + sym < wf.numBlocks
    ensures |v| == tones
  {
    IndexInside(wf, cand, cand.timeOffset + sym, tones);
    wf.mag[Index(wf, cand, cand.timeOffset + sym)..Index(wf, cand, cand.timeOffset + sym) + tones]
  }

  // ---------- One symbol ----------

  /** Half-decibel steps from -120 dB. */
  function Decibels(x: nat): real {
    x as real * 0.5 - 120.0
  }

  /** The power of the tone that stands for each symbol value. */
  function Powers(levels: seq<nat>, gray: seq<nat>): (s: seq<real>)
    requires forall j :: 0 <= j < |gray| ==> gray[j] < |levels|
    ensures |s| == |gray| && forall j :: 0 <= j < |gray| ==> s[j] == Decibels(levels[gray[j]])
  {
    seq(|gray|, j requires 0 <= j < |gray| => Decibels(levels[gray[j]]))
  }

  /** Bit i of an n-bit symbol value, highest first. */
  predicate SymbolBit(v: nat, n: nat, i: nat)
    requires i < n <= 3
  {
    if n - i == 1 then v % 2 == 1 else if n - i == 2 then v / 2 % 2 == 1 else v / 4 % 2 == 1
  }

  /** x is the largest power among the values whose bit i equals b. */
  ghost predicate Strongest(x: real, s: seq<real>, n: nat, i: nat, b: bool)
    requires i < n <= 3
  {
    && (exists j :: 0 <= j < |s| && SymbolBit(j, n, i) == b && s[j] == x)
    && (forall j :: 0 <= j < |s| && SymbolBit(j, n, i) == b ==> s[j] <= x)
  }

  /** l compares the best value with bit i set against the best value with bit i clear. */
  ghost predicate Likelihood(l: real, s: seq<real>, n: nat, i: nat)
    requires i < n <= 3
  {
    exists one, zero :: Strongest(one, s, n, i, true) && Strongest(zero, s, n, i, false) && l == one - zero
  }

  function Max2(a: real, b: real): (m: real)
    ensures m >= a && m >= b && (m == a || m == b)
  {
    if a >= b then a else b
  }

  function Max4(a: real, b: real, c: real, d: real): (m: real)
    ensures m >= a && m >= b && m >= c && m >= d && (m == a || m == b || m == c || m == d)
  {
    Max2(Max2(a, b), Max2(c, d))
  }

  lemma StrongestOf4(x: real, s: seq<real>, i: nat, b: bool, j0: nat, j1: nat, j2: nat, j3: nat)
    requires |s| == 8 && i < 3 && j0 < 8 && j1 < 8 && j2 < 8 && j3 < 8
    requires forall j :: 0 <= j < 8 ==> (SymbolBit(j, 3, i) == b <==> j == j0 || j == j1 || j == j2 || j == j3)
    requires x == Max4(s[j0], s[j1], s[j2], s[j3])
    ensures Strongest(x, s, 3, i, b)
  {
    hide SymbolBit, Max4;
    assert SymbolBit(j0, 3, i) == b && SymbolBit(j1, 3, i) == b && SymbolBit(j2, 3, i) == b && SymbolBit(j3, 3, i) == b;
  }

  lemma StrongestOf2(x: real, s: seq<real>, i: nat, b: bool, j0: nat, j1: nat)
    requires |s| == 4 && i < 2 && j0 < 4 && j1 < 4
    requires forall j :: 0 <= j < 4 ==> (SymbolBit(j, 2, i) == b <==> j == j0 || j == j1)
    requires x == Max2(s[j0], s[j1])
    ensures Strongest(x, s, 2, i, b)
  {
    hide SymbolBit, Max2;
    assert SymbolBit(j0, 2, i) == b && SymbolBit(j1, 2, i) == b;
  }

  /** The likelihoods of the three bits of an FT8 symbol. */
  method ExtractFt8Symbol(levels: seq<nat>) returns (l0: real, l1: real, l2: real)
    requires |levels| == 8
    ensures Likelihood(l0, Powers(levels, FT8_GRAY), 3, 0)
    ensures Likelihood(l1, Powers(levels, FT8_GRAY), 3, 1)
    ensures Likelihood(l2, Powers(levels, FT8_GRAY), 3, 2)
  {
    hide Max4, Strongest, Decibels;
    var s2 := [];
    var j := 0;
    while j < 8
      invariant 0 <= j <= 8 && s2 == Powers(levels, FT8_GRAY)[..j]
    {
      s2 := s2 + [Decibels(levels[FT8_GRAY[j]])];
      j := j + 1;
    }
    assert s2 == Powers(levels, FT8_GRAY);
    var a, b := Max4(s2[4], s2[5], s2[6], s2[7]), Max4(s2[0], s2[1], s2[2], s2[3]);
    StrongestOf4(a, s2, 0, true, 4, 5, 6, 7);
    StrongestOf4(b, s2, 0, false, 0, 1, 2, 3);
    l0 := a - b;
    var c, d := Max4(s2[2], s2[3], s2[6], s2[7]), Max4(s2[0], s2[1], s2[4], s2[5]);
    StrongestOf4(c, s2, 1, true, 2, 3, 6, 7);
    StrongestOf4(d, s2, 1, false, 0, 1, 4, 5);
    l1 := c - d;
    var e, f := Max4(s2[1], s2[3], s2[5], s2[7]), Max4(s2[0], s2[2], s2[4], s2[6]);
    StrongestOf4(e, s2, 2, true, 1, 3, 5, 7);
    StrongestOf4(f, s2, 2, false, 0, 2, 4, 6);
    l2 := e - f;
  }

  /** The likelihoods of the two bits of an FT4 symbol. */
  method ExtractFt4Symbol(levels: seq<nat>) returns (l0: real, l1: real)
    requires |levels| == 4
    ensures Likelihood(l0, Powers(levels, FT4_GRAY), 2, 0)
    ensures Likelihood(l1, Powers(levels, FT4_GRAY), 2, 1)
  {
    hide Max2, Strongest, Decibels;
    var s2 := [];
    var j := 0;
    while j < 4
      invariant 0 <= j <= 4 && s2 == Powers(levels, FT4_GRAY)[..j]
    {
      s2 := s2 + [Decibels(levels[FT4_GRAY[j]])];
      j := j + 1;
    }
    assert s2 == Powers(levels, FT4_GRAY);
    var a, b := Max2(s2[2], s2[3]), Max2(s2[0], s2[1]);
    StrongestOf2(a, s2, 0, true, 2, 3);
    StrongestOf2(b, s2, 0, false, 0, 1);
    l0 := a - b;
    var c, d := Max2(s2[1], s2[3]), Max2(s2[0], s2[2]);
    StrongestOf2(c, s2, 1, true, 1, 3);
    StrongestOf2(d, s2, 1, false, 0, 2);
    l1 := c - d;
  }

  /** Tone t is strictly stronger than every other tone. */
  predicate Peak(levels: seq<nat>, t: nat) {
    t < |levels| && forall u :: 0 <= u < |levels| && u != t ==> levels[u] < levels[t]
  }

  /** The likelihood of a bit of the peak value has that bit's sign and at least half a decibel. */
  lemma PeakLikelihood(levels: seq<nat>, gray: seq<nat>, v: nat, n: nat, i: nat, l: real)
    requires i < n <= 3 && v < |gray| && forall j :: 0 <= j < |gray| ==> gray[j] < |levels|
    requires forall j, k :: 0 <= j < k < |gray| ==> gray[j] != gray[k]
    requires Peak(levels, gray[v]) && Likelihood(l, Powers(levels, gray), n, i)
    ensures SymbolBit(v, n, i) ==> l >= 0.5
    ensures !SymbolBit(v, n, i) ==> l <= -0.5
  {
    hide SymbolBit;
    var s := Powers(levels, gray);
    var one, zero :| Strongest(one, s, n, i, true) && Strongest(zero, s, n, i, false) && l == one - zero;
    forall j | 0 <= j < |gray| && j != v ensures s[j] + 0.5 <= s[v] {
      assert levels[gray[j]] < levels[gray[v]];
    }
    if SymbolBit(v, n, i) {
      var j :| 0 <= j < |s| && SymbolBit(j, n, i) == false && s[j] == zero;
    } else {
      var j :| 0 <= j < |s| && SymbolBit(j, n, i) == true && s[j] == one;
    }
  }

  /** The bits of a symbol value are the code bits it was made from. */
  lemma ValueBits(c: Bits, p: nat, n: nat, i: nat)
    requires p + n <= |c| && i < n <= 3
    ensures SymbolBit(BitsValue(c, p, n), n, i) == c[p + i]
  {
    assert BitsValue(c, p, 1) == if c[p] then 1 else 0;
    if n >= 2 {
      assert BitsValue(c, p, 2) == 2 * BitsValue(c, p, 1) + if c[p + 1] then 1 else 0;
    }
    if n == 3 {
      assert BitsValue(c, p, 3) == 2 * BitsValue(c, p, 2) + if c[p + 2] then 1 else 0;
    }
  }

  // ---------- All symbols ----------

  const FT8_TONES := 8
  const FT4_TONES := 4

  /** The likelihoods of one symbol: compared powers inside the capture, zero outside. */
  ghost predicate SymbolLikelihoods(wf: Waterfall, cand: Candidate, sym: nat, gray: seq<nat>, ls: seq<real>)
    requires wf.Valid() && |ls| <= 3 && InBand(wf, cand, |gray|)
    requires forall j :: 0 <= j < |gray| ==> gray[j] < |gray|
  {
    if 0 <= cand.timeOffset + sym < wf.numBlocks
    then forall i :: 0 <= i < |ls| ==> Likelihood(ls[i], Powers(Levels(wf, cand, sym, |gray|), gray), |ls|, i)
    else forall i :: 0 <= i < |ls| ==> ls[i] == 0.0
  }

  ghost predicate Ft8Likelihoods(wf: Waterfall, cand: Candidate, llr: seq<real>, count: nat)
    requires wf.Valid() && InBand(wf, cand, FT8_TONES) && |llr| == N && count <= FT8_DATA
  {
    forall k :: 0 <= k < count ==> SymbolLikelihoods(wf, cand, Ft8Position(k), FT8_GRAY, llr[3 * k..3 * k + 3])
  }

  ghost predicate Ft4Likelihoods(wf: Waterfall, cand: Candidate, llr: seq<real>, count: nat)
    requires wf.Valid() && InBand(wf, cand, FT4_TONES) && |llr| == N && count <= FT4_DATA
  {
    forall k :: 0 <= k < count ==> SymbolLikelihoods(wf, cand, Ft4Position(k), FT4_GRAY, llr[2 * k..2 * k + 2])
  }

  lemma LevelsAt(wf: Waterfall, cand: Candidate, sym: nat, tones: nat)
    requires wf.Valid() && InBand(wf, cand, tones) && 0 <= cand.timeOffset + sym < wf.numBlocks
    ensures var i := Index(wf, cand, cand.timeOffset + sym);
            0 <= i && i + tones <= |wf.mag| && Levels(wf, cand, sym, tones) == wf.mag[i..i + tones]
  {
    IndexInside(wf, cand, cand.timeOffset + sym, tones);
  }

  /** The likelihoods of data symbol k, or zeros when it lies outside the capture. */
  method Ft8SymbolAt(wf: Waterfall, cand: Candidate, mag: int, k: nat) returns (l0: real, l1: real, l2: real)
    requires wf.Valid() && InBand(wf, cand, FT8_TONES) && k < FT8_DATA
    requires mag == Index(wf, cand, cand.timeOffset)
    ensures SymbolLikelihoods(wf, cand, Ft8Position(k), FT8_GRAY, [l0, l1, l2])
  {
    hide Likelihood, Levels, Index;
    var symIdx := k + if k < 29 then 7 else 14;
    var block := cand.timeOffset + symIdx;
    if block < 0 || block >= wf.numBlocks {
      l0, l1, l2 := 0.0, 0.0, 0.0;
    } else {
      LevelsAt(wf, cand, symIdx, FT8_TONES);
      IndexStride(wf, cand, cand.timeOffset, symIdx);
      var start := mag + symIdx * wf.blockStride;
      l0, l1, l2 := ExtractFt8Symbol(wf.mag[start..start + FT8_TONES]);
    }
  }

  method ExtractFt8Likelihood(wf: Waterfall, cand: Candidate, log174: array<real>)
    requires wf.Valid() && InBand(wf, cand, FT8_TONES) && log174.Length == N
    modifies log174
    ensures Ft8Likelihoods(wf, cand, log174[..], FT8_DATA)
  {
    hide SymbolLikelihoods, Index;
    var mag := GetCandMag(wf, cand);
    var k := 0;
    while k < FT8_DATA
      invariant 0 <= k <= FT8_DATA && Ft8Likelihoods(wf, cand, log174[..], k)
    {
      ghost var before := log174[..];
      var bitIdx := 3 * k;
      var l0, l1, l2 := Ft8SymbolAt(wf, cand, mag, k);
      log174[bitIdx], log174[bitIdx + 1], log174[bitIdx + 2] := l0, l1, l2;
      assert log174[..][3 * k..3 * k + 3] == [l0, l1, l2];
      forall j | 0 <= j < k
        ensures SymbolLikelihoods(wf, cand, Ft8Position(j), FT8_GRAY, log174[..][3 * j..3 * j + 3])
      {
        assert log174[..][3 * j..3 * j + 3] == before[3 * j..3 * j + 3];
      }
      k := k + 1;
    }
  }

  /** The likelihoods of data symbol k, or zeros when it lies outside the capture. */
  method Ft4SymbolAt(wf: Waterfall, cand: Candidate, mag: int, k: nat) returns (l0: real, l1: real)
    requires wf.Valid() && InBand(wf, cand, FT4_TONES) && k < FT4_DATA
    requires mag == Index(wf, cand, cand.timeOffset)
    ensures SymbolLikelihoods(wf, cand, Ft4Position(k), FT4_GRAY, [l0, l1])
  {
    hide Likelihood, Levels, Index;
    var symIdx := k + if k < 29 then 5 else if k < 58 then 9 else 13;
    var block := cand.timeOffset + symIdx;
    if block < 0 || block >= wf.numBlocks {
      l0, l1 := 0.0, 0.0;
    } else {
      LevelsAt(wf, cand, symIdx, FT4_TONES);
      IndexStride(wf, cand, cand.timeOffset, symIdx);
      var start := mag + symIdx * wf.blockStride;
      l0, l1 := ExtractFt4Symbol(wf.mag[start..start + FT4_TONES]);
    }
  }

  method ExtractFt4Likelihood(wf: Waterfall, cand: Candidate, log174: array<real>)
    requires wf.Valid() && InBand(wf, cand, FT4_TONES) && log174.Length == N
    modifies log174
    ensures Ft4Likelihoods(wf, cand, log174[..], FT4_DATA)
  {
    hide SymbolLikelihoods, Index;
    var mag := GetCandMag(wf, cand);
    var k := 0;
    while k < FT4_DATA
      invariant 0 <= k <= FT4_DATA && Ft4Likelihoods(wf, cand, log174[..], k)
    {
      ghost var before := log174[..];
      var bitIdx := 2 * k;
      var l0, l1 := Ft4SymbolAt(wf, cand, mag, k);
      log174[bitIdx], log174[bitIdx + 1] := l0, l1;
      assert log174[..][2 * k..2 * k + 2] == [l0, l1];
      forall j | 0 <= j < k
        ensures SymbolLikelihoods(wf, cand, Ft4Position(j), FT4_GRAY, log174[..][2 * j..2 * j + 2])
      {
        assert log174[..][2 * j..2 * j + 2] == before[2 * j..2 * j + 2];
      }
      k := k + 1;
    }
  }
}
