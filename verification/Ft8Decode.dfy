/** Decoding a candidate: likelihoods, belief propagation, and the check that
    decides acceptance; with soundness and the end-to-end round trip. */
module Ft8Decode {
  import opened Gf2
  import opened Packing
  import opened Ft8Crc
  import opened Ft8Code
  import opened Ft8Encode
  import opened Ft8Ldpc
  import opened Ft8Demap
  import opened Ft8Normalize

  class Message {
    var payload: seq<Byte>
    var hash: bv16

    constructor ()
      ensures |payload| == 10
    {
      payload, hash := seq(10, _ => 0), 0;
    }
  }

  class Status {
    var ldpcErrors: int
    var crcExtracted: bv16
    var crcCalculated: bv16

    constructor () {
      ldpcErrors, crcExtracted, crcCalculated := 0, 0, 0;
    }
  }

  /** The numerical functions that the decoder calls. */
  datatype Numerics = Numerics(sqrt: real -> real, tanh: real -> real, atanh: real -> real)

  /** Ten bytes that hold 77 bits and nothing else. */
  predicate Holds(payload: seq<Byte>, bits: Bits) {
    |payload| == 10 && |bits| == PAYLOAD_BITS && Unpacked(payload) == bits + Zeros(3)
  }

  /** The first 91 bits of a word end in the check of the first 77. */
  predicate Checked(word: Bits)
    requires |word| >= K
  {
    word[..K] == WithCrc(word[..PAYLOAD_BITS])
  }

  // ---------- The check ----------

  /** Pack the message bits, extract the check, clear it, recompute it and compare. */
  method CheckMessage(plain: seq<bool>, status: Status) returns (ok: bool, a91: seq<Byte>)
    requires |plain| == N
    modifies status`crcExtracted, status`crcCalculated
    ensures ok <==> Checked(plain)
    ensures |a91| == K_BYTES && Holds(a91[..10], plain[..PAYLOAD_BITS])
    ensures RegBits(status.crcCalculated) == Remainder(plain[..PAYLOAD_BITS] + Zeros(5))
  {
    hide PackedUpTo, Unpacked, RegBits, Remainder, Cleared, Holds, WithCrc;
    var packed := new Byte[K_BYTES];
    PackBits(plain, K, packed);
    ghost var before := packed[..];
    PackedPrefix(before, plain);
    status.crcExtracted, status.crcCalculated := VerifyCrc(packed);
    ok := status.crcExtracted == status.crcCalculated;
    a91 := packed[..];
    ClearedHolds(before, plain);
  }

  lemma PackedPrefix(a91: seq<Byte>, plain: Bits)
    requires |a91| == K_BYTES && |plain| == N && PackedUpTo(a91, plain, K, K_BYTES)
    ensures Unpacked(a91)[..K] == plain[..K] && Unpacked(a91)[..PAYLOAD_BITS] == plain[..PAYLOAD_BITS]
  {
  }

  lemma ClearedHolds(a91: seq<Byte>, plain: Bits)
    requires |a91| == K_BYTES && |plain| == N && Unpacked(a91)[..PAYLOAD_BITS] == plain[..PAYLOAD_BITS]
    ensures Holds(Cleared(a91)[..10], plain[..PAYLOAD_BITS])
  {
    hide BitOf, Cleared;
    ClearedBits(a91);
    var a := Cleared(a91);
    forall i | 0 <= i < 80 ensures Unpacked(a[..10])[i] == Unpacked(a)[..82][i] {
      assert a[..10][i / 8] == a[i / 8];
    }
    assert Unpacked(a[..10]) == plain[..PAYLOAD_BITS] + Zeros(3);
  }

  /** Bits that some other decoder produced: accepted exactly when the check agrees. */
  method DecodeFromBits(plain: seq<bool>, message: Message, status: Status) returns (ok: bool)
    requires |plain| == N
    modifies message, status
    ensures status.ldpcErrors == 0
    ensures ok <==> Checked(plain)
    ensures ok ==> Holds(message.payload, plain[..PAYLOAD_BITS])
    ensures ok ==> forall sent :: Holds(sent, plain[..PAYLOAD_BITS]) ==> message.payload == sent
    ensures ok ==> RegBits(message.hash) == Remainder(plain[..PAYLOAD_BITS] + Zeros(5))
    ensures !ok ==> message.payload == old(message.payload) && message.hash == old(message.hash)
  {
    hide Checked, Holds, RegBits, Remainder;
    status.ldpcErrors := 0;
    var a91;
    ok, a91 := CheckMessage(plain, status);
    if ok {
      message.hash := status.crcCalculated;
      message.payload := a91[..10];
      forall sent | Holds(sent, plain[..PAYLOAD_BITS]) ensures message.payload == sent {
        HeldOnce(message.payload, sent, plain[..PAYLOAD_BITS]);
      }
    }
  }

  /** The 77 bits determine the ten bytes. */
  lemma HeldOnce(a: seq<Byte>, b: seq<Byte>, bits: Bits)
    requires Holds(a, bits) && Holds(b, bits)
    ensures a == b
  {
    UnpackedInjective(a, b);
  }

  // ---------- From likelihoods to a word ----------

  /** Every likelihood has its bit's sign and at least half a unit. */
  ghost predicate Heard(l: seq<real>, word: Bits) {
    && |l| == |word| == N
    && (forall p :: 0 <= p < N ==> if word[p] then l[p] >= 0.5 else l[p] <= -0.5)
  }

  lemma HeardDecisions(l: seq<real>, f: real, word: Bits)
    requires Heard(l, word) && f > 0.0
    ensures HardDecisions(Scaled(l, f)) == word
  {
    forall i | 0 <= i < N ensures HardDecisions(Scaled(l, f))[i] == word[i] {
      ScaledSigns(l, f, i);
    }
  }

  /** The word contains both a 0 and a 1. */
  predicate Mixed(word: Bits) {
    (exists i :: 0 <= i < |word| && word[i]) && (exists j :: 0 <= j < |word| && !word[j])
  }

  /** What the decoder needs beyond correct signs: a word that is not all zeros, and
      enough variance not to pass for silence. */
  predicate Audible(l: seq<real>, word: Bits)
    requires |l| == N
  {
    !IsZero(word) && Variance(l) >= 0.000001
  }

  /** A heard word that is not constant is always audible. */
  lemma MixedIsAudible(l: seq<real>, word: Bits)
    requires Heard(l, word) && Mixed(word)
    ensures Audible(l, word)
  {
    hide Variance;
    var i :| 0 <= i < N && word[i];
    var j :| 0 <= j < N && !word[j];
    ClearWordVaries(l, word, i, j);
  }

  /** Normalise and run belief propagation.  Without errors the word is nonzero and
      passes every check; a heard word that passes them is found exactly when it is
      audible. */
  method FindWord(c: Checks, log174: array<real>, maxIterations: int, fs: Numerics, status: Status)
    returns (plain: seq<bool>)
    requires c.Valid() && log174.Length == N && IsSqrt(fs.sqrt)
    modifies log174, status`ldpcErrors
    ensures |plain| == N && 0 <= status.ldpcErrors <= M
    ensures status.ldpcErrors == 0 ==> !IsZero(plain) && InKernel(c.Matrix(), N, plain)
    ensures forall word: Bits :: Heard(old(log174[..]), word) && InKernel(c.Matrix(), N, word) && maxIterations > 0
              ==> (status.ldpcErrors == 0 <==> Audible(old(log174[..]), word)) && (status.ldpcErrors == 0 ==> plain == word)
    ensures Variance(old(log174[..])) < 0.000001 ==> status.ldpcErrors == M
  {
    hide Variance, Heard, InKernel, Failing, IsSqrt;
    ghost var l := log174[..];
    Normalize(log174, fs.sqrt);
    ghost var scaled := log174[..];
    var bits := new bool[N];
    var errors := BpDecode(c, log174[..], maxIterations, bits, fs.tanh, fs.atanh);
    status.ldpcErrors := errors;
    plain := bits[..];
    if Variance(l) < 0.000001 {
      assert IsZero(HardDecisions(scaled));
    }
    forall word: Bits | Heard(l, word) && InKernel(c.Matrix(), N, word) && maxIterations > 0
      ensures (errors == 0 <==> Audible(l, word)) && (errors == 0 ==> plain == word)
    {
      if Variance(l) >= 0.000001 {
        HeardIsFirst(c, l, scaled, fs.sqrt, word);
      }
    }
  }

  /** The hard decisions on a heard word, after normalising, are the word. */
  lemma HeardIsFirst(c: Checks, l: seq<real>, scaled: seq<real>, sqrt: real -> real, word: Bits)
    requires c.Valid() && Heard(l, word) && |l| == N && IsSqrt(sqrt) && InKernel(c.Matrix(), N, word)
    requires Variance(l) >= 0.000001 && scaled == Scaled(l, sqrt(24.0 / Variance(l)))
    ensures HardDecisions(scaled) == word
    ensures Failing(c.Matrix(), word, M) == 0
  {
    NoneFailing(c.Matrix(), word, M);
    hide Variance, Heard, Failing;
    assert 24.0 / Variance(l) > 0.0;
    HeardDecisions(l, sqrt(24.0 / Variance(l)), word);
  }

  // ---------- Words that were sent ----------

  /** The code word of a payload passes the checks and carries the payload and its check. */
  lemma SentWord(table: seq<seq<Byte>>, c: Checks, sent: seq<Byte>)
    requires Matching(table, c) && |sent| >= 10
    ensures InKernel(c.Matrix(), N, PayloadWord(table, sent)) && Checked(PayloadWord(table, sent))
    ensures PayloadWord(table, sent)[..PAYLOAD_BITS] == Unpacked(sent)[..PAYLOAD_BITS]
  {
    hide InKernel, Unpacked, Remainder;
    var p := Unpacked(sent)[..PAYLOAD_BITS];
    var word := PayloadWord(table, sent);
    assert word[..K] == WithCrc(p);
    assert word[..PAYLOAD_BITS] == word[..K][..PAYLOAD_BITS] == p;
    ChecksAcceptCodewords(table, c, word);
  }

  /** A checked word of the code is the code word of the payload it holds. */
  lemma AcceptedWord(table: seq<seq<Byte>>, c: Checks, plain: Bits, payload: seq<Byte>)
    requires Matching(table, c) && |plain| == N && InKernel(c.Matrix(), N, plain) && Checked(plain)
    requires |payload| == 10 && Holds(payload, plain[..PAYLOAD_BITS])
    ensures plain == PayloadWord(table, payload)
  {
    hide InKernel, Matching, Unpacked, Remainder, Codeword;
    ChecksAcceptCodewords(table, c, plain);
    HoldsPrefix(payload, plain[..PAYLOAD_BITS]);
  }

  lemma HoldsPrefix(payload: seq<Byte>, bits: Bits)
    requires Holds(payload, bits)
    ensures |payload| == 10 && |bits| == PAYLOAD_BITS && Unpacked(payload)[..PAYLOAD_BITS] == bits
  {
    hide Unpacked;
    assert (bits + Zeros(3))[..PAYLOAD_BITS] == bits;
  }

  /** Decode 174 likelihoods.  Whatever values the messages took, an accepted word
      is nonzero and is the code word of the payload that is handed out; and a
      heard code word is accepted exactly when it is audible. */
  method DecodeFromLlr(c: Checks, llr: seq<real>, maxIterations: int, fs: Numerics, message: Message, status: Status,
                       ghost table: seq<seq<Byte>>) returns (ok: bool, ghost plain: Bits)
    requires c.Valid() && |llr| == N && IsSqrt(fs.sqrt) && ValidTable(table)
    modifies message, status
    ensures ok ==> |plain| == N && !IsZero(plain) && InKernel(c.Matrix(), N, plain) && Checked(plain)
    ensures ok ==> Holds(message.payload, plain[..PAYLOAD_BITS])
    ensures ok && Matching(table, c) ==> plain == PayloadWord(table, message.payload)
    ensures !ok ==> message.payload == old(message.payload) && message.hash == old(message.hash)
    ensures Variance(llr) < 0.000001 ==> !ok && status.ldpcErrors == M
    ensures forall sent: seq<Byte> ::
      |sent| >= 10 && Matching(table, c) && maxIterations > 0 && Heard(llr, PayloadWord(table, sent))
      ==> (ok <==> Audible(llr, PayloadWord(table, sent)))
          && (ok ==> Unpacked(message.payload)[..PAYLOAD_BITS] == Unpacked(sent)[..PAYLOAD_BITS])
  {
    hide Heard, Audible, InKernel, Holds, Checked, Matching, PayloadWord, IsSqrt, Variance, Unpacked, RegBits, Remainder;
    var log174 := new real[N](i requires 0 <= i < N => llr[i]);
    assert log174[..] == llr;
    var bits := FindWord(c, log174, maxIterations, fs, status);
    plain := bits;
    forall sent: seq<Byte> | |sent| >= 10 && Matching(table, c) && maxIterations > 0
        && Heard(llr, PayloadWord(table, sent))
      ensures status.ldpcErrors == 0 <==> Audible(llr, PayloadWord(table, sent))
      ensures status.ldpcErrors == 0 ==> Checked(bits) && bits[..PAYLOAD_BITS] == Unpacked(sent)[..PAYLOAD_BITS]
    {
      SentWord(table, c, sent);
    }
    ok := false;
    if status.ldpcErrors > 0 {
      return;
    }
    var a91;
    ok, a91 := CheckMessage(bits, status);
    if ok {
      message.hash := status.crcCalculated;
      message.payload := a91[..10];
      HoldsPrefix(message.payload, bits[..PAYLOAD_BITS]);
      if Matching(table, c) {
        AcceptedWord(table, c, bits, message.payload);
      }
    }
  }

  // ---------- A candidate in the waterfall ----------

  function ToneCount(p: Protocol): (t: nat)
    ensures t == FT8_TONES || t == FT4_TONES
  {
    if p.Ft4? then FT4_TONES else FT8_TONES
  }

  /** The payload as it goes on the air. */
  function OnAir(p: Protocol, payload: seq<Byte>): (s: seq<Byte>)
    requires |payload| >= 10
    ensures |s| >= 10
  {
    if p.Ft4? then Scrambled(payload) else payload
  }

  /** The word on the air: FT4 scrambles the payload first. */
  function AirWord(p: Protocol, table: seq<seq<Byte>>, payload: seq<Byte>): (word: Bits)
    requires ValidTable(table) && |payload| >= 10
    ensures |word| == N
  {
    PayloadWord(table, OnAir(p, payload))
  }

  /** These tones carry this word. */
  ghost predicate Carries(p: Protocol, tones: seq<nat>, word: Bits)
    requires |word| == N
  {
    if p.Ft4? then CarriesFt4(tones, word) else CarriesFt8(tones, word)
  }

  function Positions(p: Protocol): (n: nat)
    ensures n == FT8_DATA || n == FT4_DATA
  {
    if p.Ft4? then FT4_DATA else FT8_DATA
  }

  function Position(p: Protocol, k: nat): nat
    requires k < Positions(p)
  {
    if p.Ft4? then Ft4Position(k) else Ft8Position(k)
  }

  /** Every data symbol lies inside the capture, with its transmitted tone strictly strongest. */
  ghost predicate Received(wf: Waterfall, cand: Candidate, tones: seq<nat>)
    requires wf.Valid() && InBand(wf, cand, ToneCount(wf.protocol))
  {
    forall k :: 0 <= k < Positions(wf.protocol) ==>
      && Position(wf.protocol, k) < |tones|
      && 0 <= cand.timeOffset + Position(wf.protocol, k) < wf.numBlocks
      && Peak(Levels(wf, cand, Position(wf.protocol, k), ToneCount(wf.protocol)), tones[Position(wf.protocol, k)])
  }

  lemma Ft8SymbolHeard(wf: Waterfall, cand: Candidate, tones: seq<nat>, word: Bits, llr: seq<real>, k: nat, i: nat)
    requires wf.Valid() && wf.protocol.Ft8? && InBand(wf, cand, FT8_TONES) && |word| == |llr| == N
    requires CarriesFt8(tones, word) && Received(wf, cand, tones) && Ft8Likelihoods(wf, cand, llr, FT8_DATA)
    requires k < FT8_DATA && i < 3
    ensures if word[3 * k + i] then llr[3 * k + i] >= 0.5 else llr[3 * k + i] <= -0.5
  {
    hide Levels, Likelihood, Peak, BitsValue, SymbolBit;
    assert Position(wf.protocol, k) == Ft8Position(k);
    var levels := Levels(wf, cand, Ft8Position(k), FT8_TONES);
    var v := BitsValue(word, 3 * k, 3);
    assert SymbolLikelihoods(wf, cand, Ft8Position(k), FT8_GRAY, llr[3 * k..3 * k + 3]);
    assert llr[3 * k..3 * k + 3][i] == llr[3 * k + i];
    PeakLikelihood(levels, FT8_GRAY, v, 3, i, llr[3 * k + i]);
    ValueBits(word, 3 * k, 3, i);
  }

  lemma Ft4SymbolHeard(wf: Waterfall, cand: Candidate, tones: seq<nat>, word: Bits, llr: seq<real>, k: nat, i: nat)
    requires wf.Valid() && wf.protocol.Ft4? && InBand(wf, cand, FT4_TONES) && |word| == |llr| == N
    requires CarriesFt4(tones, word) && Received(wf, cand, tones) && Ft4Likelihoods(wf, cand, llr, FT4_DATA)
    requires k < FT4_DATA && i < 2
    ensures if word[2 * k + i] then llr[2 * k + i] >= 0.5 else llr[2 * k + i] <= -0.5
  {
    hide Levels, Likelihood, Peak, BitsValue, SymbolBit;
    assert Position(wf.protocol, k) == Ft4Position(k);
    var levels := Levels(wf, cand, Ft4Position(k), FT4_TONES);
    var v := BitsValue(word, 2 * k, 2);
    assert SymbolLikelihoods(wf, cand, Ft4Position(k), FT4_GRAY, llr[2 * k..2 * k + 2]);
    assert llr[2 * k..2 * k + 2][i] == llr[2 * k + i];
    PeakLikelihood(levels, FT4_GRAY, v, 2, i, llr[2 * k + i]);
    ValueBits(word, 2 * k, 2, i);
  }

  ghost predicate Extracted(wf: Waterfall, cand: Candidate, llr: seq<real>)
    requires wf.Valid() && InBand(wf, cand, ToneCount(wf.protocol)) && |llr| == N
  {
    if wf.protocol.Ft4? then Ft4Likelihoods(wf, cand, llr, FT4_DATA) else Ft8Likelihoods(wf, cand, llr, FT8_DATA)
  }

  /** What is received from tones that carry a word is heard as that word. */
  lemma ReceivedIsHeard(wf: Waterfall, cand: Candidate, tones: seq<nat>, word: Bits, llr: seq<real>)
    requires wf.Valid() && InBand(wf, cand, ToneCount(wf.protocol)) && |word| == |llr| == N
    requires Carries(wf.protocol, tones, word) && Received(wf, cand, tones) && Extracted(wf, cand, llr)
    ensures Heard(llr, word)
  {
    hide Received, Ft4Likelihoods, Ft8Likelihoods, CarriesFt4, CarriesFt8;
    forall p | 0 <= p < N ensures if word[p] then llr[p] >= 0.5 else llr[p] <= -0.5 {
      if wf.protocol.Ft4? {
        Ft4SymbolHeard(wf, cand, tones, word, llr, p / 2, p % 2);
      } else {
        Ft8SymbolHeard(wf, cand, tones, word, llr, p / 3, p % 3);
      }
    }
  }

  /** Take the scrambling off again. */
  method Descramble(a91: seq<Byte>, message: Message)
    requires |a91| == K_BYTES && |message.payload| == 10
    modifies message`payload
    ensures message.payload == Scrambled(a91)
  {
    var i := 0;
    while i < 10
      invariant 0 <= i <= 10 && |message.payload| == 10
      invariant forall j :: 0 <= j < i ==> message.payload[j] == Scrambled(a91)[j]
    {
      message.payload := message.payload[i := a91[i] ^ FT4_XOR[i]];
      i := i + 1;
    }
  }

  lemma XorBytes(s: seq<Byte>, x: seq<Byte>, t: seq<Byte>, i: nat)
    requires |s| >= |x| == |t| && i < 8 * |x|
    requires forall j :: 0 <= j < |x| ==> t[j] == s[j] ^ x[j]
    ensures Unpacked(t)[i] == (Unpacked(s)[i] != Unpacked(x)[i])
  {
    hide BitOf;
    XorBit(s[i / 8], x[i / 8], i % 8);
  }

  /** Scrambling is a bitwise exclusive or, so equal payload bits stay equal under it. */
  lemma ScrambledPrefix(s: seq<Byte>, t: seq<Byte>)
    requires |s| >= 10 && |t| >= 10
    requires Unpacked(s)[..PAYLOAD_BITS] == Unpacked(t)[..PAYLOAD_BITS]
    ensures Unpacked(Scrambled(s))[..PAYLOAD_BITS] == Unpacked(Scrambled(t))[..PAYLOAD_BITS]
  {
    hide BitOf, Unpacked, Scrambled;
    forall i | 0 <= i < PAYLOAD_BITS
      ensures Unpacked(Scrambled(s))[..PAYLOAD_BITS][i] == Unpacked(Scrambled(t))[..PAYLOAD_BITS][i]
    {
      assert Unpacked(s)[..PAYLOAD_BITS][i] == Unpacked(t)[..PAYLOAD_BITS][i];
      XorBytes(s, FT4_XOR, Scrambled(s), i);
      XorBytes(t, FT4_XOR, Scrambled(t), i);
    }
  }

  lemma XorMasked(a: Byte, b: Byte, m: Byte)
    requires SingleBitByte(m)
    ensures ((a ^ b) & m != 0) == ((a & m != 0) != (b & m != 0))
  {
  }

  lemma XorBit(a: Byte, b: Byte, k: nat)
    requires k < 8
    ensures BitOf(a ^ b, k) == (BitOf(a, k) != BitOf(b, k))
  {
    hide Mask, SingleBitByte;
    ByteMaskSingle(k);
    XorMasked(a, b, Mask(k));
  }

  /** Decode one candidate.  An accepted word is nonzero and is the word that a
      transmitter puts on the air for the payload that is handed out; and whatever
      payload was sent, if every data symbol's tone is strictly the strongest inside
      the capture, one iteration gets the payload's 77 bits back exactly when the word
      is audible, which every word with both a 0 and a 1 is. */
  method DecodeCandidate(wf: Waterfall, cand: Candidate, c: Checks, maxIterations: int, fs: Numerics,
                         message: Message, status: Status, ghost table: seq<seq<Byte>>)
    returns (ok: bool, ghost plain: Bits, ghost llr: seq<real>)
    requires wf.Valid() && InBand(wf, cand, ToneCount(wf.protocol)) && c.Valid() && IsSqrt(fs.sqrt)
    requires Matching(table, c) && |message.payload| == 10
    modifies message, status
    ensures |message.payload| == 10
    ensures ok ==> |plain| == N && !IsZero(plain) && plain == AirWord(wf.protocol, table, message.payload)
    ensures !ok ==> message.payload == old(message.payload) && message.hash == old(message.hash)
    ensures |llr| == N && Extracted(wf, cand, llr)
    ensures forall sent: seq<Byte>, tones: seq<nat> :: maxIterations > 0 && Delivered(wf, cand, table, sent, tones)
              ==> ((ok <==> Audible(llr, AirWord(wf.protocol, table, sent)))
                   && (Mixed(AirWord(wf.protocol, table, sent)) ==> ok)
                   && (ok ==> Unpacked(message.payload)[..PAYLOAD_BITS] == Unpacked(sent)[..PAYLOAD_BITS]))
  {
    hide Heard, Audible, InKernel, Holds, Checked, Matching, PayloadWord, IsSqrt, Variance, Unpacked, RegBits, Remainder,
      Received, Carries, Extracted, Mixed, Scrambled, AirWord, OnAir, Ft4Likelihoods, Ft8Likelihoods;
    var log174 := new real[N];
    ExtractLikelihood(wf, cand, log174);
    llr := log174[..];
    var bits := FindWord(c, log174, maxIterations, fs, status);
    plain := bits;
    ok := false;
    if maxIterations > 0 {
      SentIsFound(wf, cand, c, table, llr, maxIterations, status.ldpcErrors, bits);
    }
    if status.ldpcErrors > 0 {
      return;
    }
    var a91;
    ok, a91 := CheckMessage(bits, status);
    if !ok {
      return;
    }
    message.hash := status.crcCalculated;
    if wf.protocol.Ft4? {
      Descramble(a91, message);
    } else {
      StorePayload(a91, message);
    }
    OnAirTwice(wf.protocol, a91);
    AcceptedOnAir(wf.protocol, table, c, bits, a91, message.payload);
  }

  method ExtractLikelihood(wf: Waterfall, cand: Candidate, log174: array<real>)
    requires wf.Valid() && InBand(wf, cand, ToneCount(wf.protocol)) && log174.Length == N
    modifies log174
    ensures Extracted(wf, cand, log174[..])
  {
    hide Ft4Likelihoods, Ft8Likelihoods;
    if wf.protocol.Ft4? {
      ExtractFt4Likelihood(wf, cand, log174);
    } else {
      ExtractFt8Likelihood(wf, cand, log174);
    }
  }

  method StorePayload(a91: seq<Byte>, message: Message)
    requires |a91| == K_BYTES && |message.payload| == 10
    modifies message`payload
    ensures message.payload == a91[..10]
  {
    var i := 0;
    while i < 10
      invariant 0 <= i <= 10 && |message.payload| == 10
      invariant forall j :: 0 <= j < i ==> message.payload[j] == a91[j]
    {
      message.payload := message.payload[i := a91[i]];
      i := i + 1;
    }
  }

  /** sent went on the air, on these tones, and every data symbol came through. */
  ghost predicate Delivered(wf: Waterfall, cand: Candidate, table: seq<seq<Byte>>, sent: seq<Byte>, tones: seq<nat>) {
    && wf.Valid() && InBand(wf, cand, ToneCount(wf.protocol)) && ValidTable(table) && |sent| >= 10
    && Received(wf, cand, tones)
    && Carries(wf.protocol, tones, AirWord(wf.protocol, table, sent))
  }

  lemma SentIsFound(wf: Waterfall, cand: Candidate, c: Checks, table: seq<seq<Byte>>, llr: seq<real>,
                    maxIterations: int, errors: int, bits: Bits)
    requires wf.Valid() && InBand(wf, cand, ToneCount(wf.protocol)) && |llr| == N && Extracted(wf, cand, llr)
    requires Matching(table, c) && maxIterations > 0 && |bits| == N
    requires forall word: Bits :: Heard(llr, word) && InKernel(c.Matrix(), N, word)
               ==> (errors == 0 <==> Audible(llr, word)) && (errors == 0 ==> bits == word)
    ensures forall sent: seq<Byte>, tones: seq<nat> :: Delivered(wf, cand, table, sent, tones)
              ==> ((errors == 0 <==> Audible(llr, AirWord(wf.protocol, table, sent)))
                   && (Mixed(AirWord(wf.protocol, table, sent)) ==> errors == 0)
                   && (errors == 0 ==> Checked(bits) && bits == AirWord(wf.protocol, table, sent)))
  {
    hide Heard, Audible, InKernel, Checked, PayloadWord, Received, Carries, Extracted, Mixed, Scrambled, OnAir;
    forall sent: seq<Byte>, tones: seq<nat> | Delivered(wf, cand, table, sent, tones)
      ensures errors == 0 <==> Audible(llr, AirWord(wf.protocol, table, sent))
      ensures Mixed(AirWord(wf.protocol, table, sent)) ==> errors == 0
      ensures errors == 0 ==> Checked(bits) && bits == AirWord(wf.protocol, table, sent)
    {
      var word := AirWord(wf.protocol, table, sent);
      ReceivedIsHeard(wf, cand, tones, word, llr);
      if Mixed(word) {
        MixedIsAudible(llr, word);
      }
      SentWord(table, c, OnAir(wf.protocol, sent));
    }
  }

  lemma OnAirTwice(p: Protocol, a91: seq<Byte>)
    requires |a91| == K_BYTES
    ensures p.Ft4? ==> OnAir(p, Scrambled(a91)) == a91[..10]
    ensures p.Ft8? ==> OnAir(p, a91[..10]) == a91[..10]
  {
    ScrambledTwice(a91);
  }

  /** Payload bits on the air determine the payload bits. */
  lemma OnAirInjective(p: Protocol, payload: seq<Byte>, sent: seq<Byte>)
    requires |payload| == 10 && |sent| >= 10
    requires Unpacked(OnAir(p, payload))[..PAYLOAD_BITS] == Unpacked(OnAir(p, sent))[..PAYLOAD_BITS]
    ensures Unpacked(payload)[..PAYLOAD_BITS] == Unpacked(sent)[..PAYLOAD_BITS]
  {
    hide Unpacked;
    if p.Ft4? {
      hide Scrambled;
      ScrambledPrefix(Scrambled(payload), Scrambled(sent));
      ScrambledTwice(payload);
      ScrambledTwice(sent);
      hide FT4_XOR;
      assert payload[..10] == payload;
      SamePrefix(sent, sent[..10]);
    }
  }

  /** The payload handed out is the one whose word was accepted, and it is the payload of that word alone. */
  lemma AcceptedOnAir(p: Protocol, table: seq<seq<Byte>>, c: Checks, bits: Bits, a91: seq<Byte>, payload: seq<Byte>)
    requires Matching(table, c) && |bits| == N && InKernel(c.Matrix(), N, bits) && Checked(bits)
    requires |a91| == K_BYTES && Holds(a91[..10], bits[..PAYLOAD_BITS])
    requires |payload| == 10 && OnAir(p, payload) == a91[..10]
    ensures bits == AirWord(p, table, payload)
    ensures forall sent: seq<Byte> :: |sent| >= 10 && bits == AirWord(p, table, sent)
              ==> Unpacked(payload)[..PAYLOAD_BITS] == Unpacked(sent)[..PAYLOAD_BITS]
  {
    hide Holds, InKernel, Unpacked, Checked, PayloadWord, Scrambled, OnAir, FT4_XOR;
    AcceptedWord(table, c, bits, a91[..10]);
    HoldsPrefix(a91[..10], bits[..PAYLOAD_BITS]);
    forall sent: seq<Byte> | |sent| >= 10 && bits == AirWord(p, table, sent)
      ensures Unpacked(payload)[..PAYLOAD_BITS] == Unpacked(sent)[..PAYLOAD_BITS]
    {
      SentWord(table, c, OnAir(p, sent));
      OnAirInjective(p, payload, sent);
    }
  }
}
