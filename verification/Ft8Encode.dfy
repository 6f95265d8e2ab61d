/** From payload to channel symbols: check, code word, and the tone sequence in
    which data symbols alternate with fixed synchronisation tones. */
module Ft8Encode {
  import opened Gf2
  import opened Packing
  import opened Ft8Crc
  import opened Ft8Code

  const FT8_SYMBOLS := 79
  const FT8_DATA := 58
  const FT4_SYMBOLS := 105
  const FT4_DATA := 87

  const FT8_COSTAS: seq<nat> := [3, 1, 4, 0, 6, 5, 2]
  const FT4_COSTAS: seq<seq<nat>> := [[0, 1, 3, 2], [1, 0, 2, 3], [2, 3, 1, 0], [3, 2, 0, 1]]
  const FT8_GRAY: seq<nat> := [0, 1, 3, 2, 5, 6, 4, 7]
  const FT4_GRAY: seq<nat> := [0, 1, 3, 2]
  const FT4_XOR: seq<Byte> := [0x4A, 0x5E, 0x89, 0xB4, 0xB0, 0x8A, 0x79, 0x55, 0xBE, 0x28]

  // ---------- Where the data symbols sit ----------

  /** The channel symbol that carries data symbol k: S7 D29 S7 D29 S7. */
  function Ft8Position(k: nat): (p: nat)
    requires k < FT8_DATA
    ensures p < FT8_SYMBOLS
  {
    k + if k < 29 then 7 else 14
  }

  /** The channel symbol that carries data symbol k: R S4 D29 S4 D29 S4 D29 S4 R. */
  function Ft4Position(k: nat): (p: nat)
    requires k < FT4_DATA
    ensures p < FT4_SYMBOLS
  {
    k + if k < 29 then 5 else if k < 58 then 9 else 13
  }

  /** How many data symbols come before channel symbol i. */
  function Ft8DataBefore(i: nat): (k: nat)
    requires i <= FT8_SYMBOLS
    ensures k <= FT8_DATA
  {
    if i < 7 then 0 else if i < 36 then i - 7 else if i < 43 then 29 else if i < 72 then i - 14 else 58
  }

  function Ft4DataBefore(i: nat): (k: nat)
    requires i <= FT4_SYMBOLS
    ensures k <= FT4_DATA
  {
    if i < 5 then 0 else if i < 34 then i - 5 else if i < 38 then 29 else if i < 67 then i - 9
    else if i < 71 then 58 else if i < 100 then i - 13 else 87
  }

  /** The value of up to three code bits from position p on, highest first. */
  function BitsValue(c: Bits, p: nat, n: nat): (v: nat)
    requires p + n <= |c| && n <= 3
    ensures v < if n == 0 then 1 else if n == 1 then 2 else if n == 2 then 4 else 8
  {
    if n == 0 then 0 else 2 * BitsValue(c, p, n - 1) + if c[p + n - 1] then 1 else 0
  }

  /** The tones carry the word: three sync blocks, and between them one Gray-coded
      tone for every three bits. */
  ghost predicate CarriesFt8(tones: seq<nat>, word: Bits)
    requires |word| == N
  {
    && |tones| == FT8_SYMBOLS
    && tones[0..7] == tones[36..43] == tones[72..79] == FT8_COSTAS
    && (forall k :: 0 <= k < FT8_DATA ==> tones[Ft8Position(k)] == FT8_GRAY[BitsValue(word, 3 * k, 3)])
  }

  /** The tones carry the word: two ramp symbols, four sync blocks, and one
      Gray-coded tone for every two bits. */
  ghost predicate CarriesFt4(tones: seq<nat>, word: Bits)
    requires |word| == N
  {
    && |tones| == FT4_SYMBOLS
    && tones[0] == tones[104] == 0
    && tones[1..5] == FT4_COSTAS[0] && tones[34..38] == FT4_COSTAS[1]
    && tones[67..71] == FT4_COSTAS[2] && tones[100..104] == FT4_COSTAS[3]
    && (forall k :: 0 <= k < FT4_DATA ==> tones[Ft4Position(k)] == FT4_GRAY[BitsValue(word, 2 * k, 2)])
  }

  /** What must hold of channel symbol i alone. */
  function Ft8Tone(word: Bits, i: nat): nat
    requires |word| == N && i < FT8_SYMBOLS
  {
    if i < 7 then FT8_COSTAS[i]
    else if 36 <= i < 43 then FT8_COSTAS[i - 36]
    else if 72 <= i then FT8_COSTAS[i - 72]
    else FT8_GRAY[BitsValue(word, 3 * Ft8DataBefore(i), 3)]
  }

  function Ft4Tone(word: Bits, i: nat): nat
    requires |word| == N && i < FT4_SYMBOLS
  {
    if i == 0 || i == 104 then 0
    else if i < 5 then FT4_COSTAS[0][i - 1]
    else if 34 <= i < 38 then FT4_COSTAS[1][i - 34]
    else if 67 <= i < 71 then FT4_COSTAS[2][i - 67]
    else if 100 <= i then FT4_COSTAS[3][i - 100]
    else FT4_GRAY[BitsValue(word, 2 * Ft4DataBefore(i), 2)]
  }

  lemma Ft8TonesCarry(tones: seq<nat>, word: Bits)
    requires |word| == N && |tones| == FT8_SYMBOLS
    requires forall i :: 0 <= i < FT8_SYMBOLS ==> tones[i] == Ft8Tone(word, i)
    ensures CarriesFt8(tones, word)
  {
    hide BitsValue;
    forall k | 0 <= k < FT8_DATA
      ensures tones[Ft8Position(k)] == FT8_GRAY[BitsValue(word, 3 * k, 3)]
    {
      assert Ft8DataBefore(Ft8Position(k)) == k;
    }
  }

  lemma Ft4TonesCarry(tones: seq<nat>, word: Bits)
    requires |word| == N && |tones| == FT4_SYMBOLS
    requires forall i :: 0 <= i < FT4_SYMBOLS ==> tones[i] == Ft4Tone(word, i)
    ensures CarriesFt4(tones, word)
  {
    hide BitsValue;
    forall k | 0 <= k < FT4_DATA
      ensures tones[Ft4Position(k)] == FT4_GRAY[BitsValue(word, 2 * k, 2)]
    {
      assert Ft4DataBefore(Ft4Position(k)) == k;
    }
  }

  // ---------- The encoders ----------

  /** Take the next bit of the packed word and roll the mask on. */
  method NextBit(codeword: seq<Byte>, mask: Byte, iByte: nat, ghost word: Bits, ghost p: nat)
    returns (bit: bool, mask': Byte, iByte': nat)
    requires PackedUpTo(codeword, word, N, N_BYTES) && p < N
    requires mask == Mask(p % 8) && iByte == p / 8
    ensures bit == word[p] && mask' == Mask((p + 1) % 8) && iByte' == (p + 1) / 8
  {
    bit := codeword[iByte] & mask != 0;
    assert PackedBit(codeword, p) == word[p];
    MaskStep(p % 8);
    mask', iByte' := mask >> 1, iByte;
    if mask' == 0 {
      mask', iByte' := 0x80, iByte + 1;
      TopMask();
    }
  }

  /** Read n bits from position p on. */
  method NextBits(codeword: seq<Byte>, mask: Byte, iByte: nat, n: nat, ghost word: Bits, ghost p: nat)
    returns (bits: nat, mask': Byte, iByte': nat)
    requires |word| == N && PackedUpTo(codeword, word, N, N_BYTES) && p + n <= N && n <= 3
    requires mask == Mask(p % 8) && iByte == p / 8
    ensures bits == BitsValue(word, p, n) && mask' == Mask((p + n) % 8) && iByte' == (p + n) / 8
  {
    hide PackedUpTo, Mask;
    bits, mask', iByte' := 0, mask, iByte;
    var i := 0;
    while i < n
      invariant 0 <= i <= n && bits == BitsValue(word, p, i)
      invariant mask' == Mask((p + i) % 8) && iByte' == (p + i) / 8
    {
      var bit;
      bit, mask', iByte' := NextBit(codeword, mask', iByte', word, p + i);
      bits := 2 * bits + if bit then 1 else 0;
      i := i + 1;
    }
  }

  method MapFt8(codeword: seq<Byte>, tones: array<nat>, ghost word: Bits)
    requires |word| == N && PackedUpTo(codeword, word, N, N_BYTES) && tones.Length == FT8_SYMBOLS
    modifies tones
    ensures CarriesFt8(tones[..], word)
  {
    hide PackedUpTo, Mask, BitsValue, CarriesFt8;
    var mask: Byte, iByte := 0x80, 0;
    TopMask();
    var iTone := 0;
    while iTone < FT8_SYMBOLS
      invariant 0 <= iTone <= FT8_SYMBOLS
      invariant forall i :: 0 <= i < iTone ==> tones[..][i] == Ft8Tone(word, i)
      invariant mask == Mask(3 * Ft8DataBefore(iTone) % 8) && iByte == 3 * Ft8DataBefore(iTone) / 8
    {
      if 0 <= iTone < 7 {
        tones[iTone] := FT8_COSTAS[iTone];
      } else if 36 <= iTone < 43 {
        tones[iTone] := FT8_COSTAS[iTone - 36];
      } else if 72 <= iTone < 79 {
        tones[iTone] := FT8_COSTAS[iTone - 72];
      } else {
        var bits3;
        bits3, mask, iByte := NextBits(codeword, mask, iByte, 3, word, 3 * Ft8DataBefore(iTone));
        tones[iTone] := FT8_GRAY[bits3];
      }
      iTone := iTone + 1;
    }
    Ft8TonesCarry(tones[..], word);
  }

  method MapFt4(codeword: seq<Byte>, tones: array<nat>, ghost word: Bits)
    requires |word| == N && PackedUpTo(codeword, word, N, N_BYTES) && tones.Length == FT4_SYMBOLS
    modifies tones
    ensures CarriesFt4(tones[..], word)
  {
    hide PackedUpTo, Mask, BitsValue, CarriesFt4;
    var mask: Byte, iByte := 0x80, 0;
    TopMask();
    var iTone := 0;
    while iTone < FT4_SYMBOLS
      invariant 0 <= iTone <= FT4_SYMBOLS
      invariant forall i :: 0 <= i < iTone ==> tones[..][i] == Ft4Tone(word, i)
      invariant mask == Mask(2 * Ft4DataBefore(iTone) % 8) && iByte == 2 * Ft4DataBefore(iTone) / 8
    {
      if iTone == 0 || iTone == 104 {
        tones[iTone] := 0;
      } else if 1 <= iTone < 5 {
        tones[iTone] := FT4_COSTAS[0][iTone - 1];
      } else if 34 <= iTone < 38 {
        tones[iTone] := FT4_COSTAS[1][iTone - 34];
      } else if 67 <= iTone < 71 {
        tones[iTone] := FT4_COSTAS[2][iTone - 67];
      } else if 100 <= iTone < 104 {
        tones[iTone] := FT4_COSTAS[3][iTone - 100];
      } else {
        var bits2;
        bits2, mask, iByte := NextBits(codeword, mask, iByte, 2, word, 2 * Ft4DataBefore(iTone));
        tones[iTone] := FT4_GRAY[bits2];
      }
      iTone := iTone + 1;
    }
    Ft4TonesCarry(tones[..], word);
  }

  /** The code word of a payload: its 77 bits, their check, and the parity bits. */
  function PayloadWord(table: seq<seq<Byte>>, payload: seq<Byte>): (c: Bits)
    requires ValidTable(table) && |payload| >= 10
    ensures |c| == N
  {
    Codeword(table, WithCrc(Unpacked(payload)[..PAYLOAD_BITS]))
  }

  /** The packed code word of a payload. */
  method EncodePayload(table: seq<seq<Byte>>, payload: seq<Byte>) returns (codeword: seq<Byte>)
    requires ValidTable(table) && |payload| >= 10
    ensures PackedUpTo(codeword, PayloadWord(table, payload), N, N_BYTES)
  {
    hide Codeword, WithCrc, Unpacked, CleanTail, PackedUpTo;
    var a91 := new Byte[K_BYTES];
    AddCrc(payload, a91);
    PackedMessage(a91[..], WithCrc(Unpacked(payload)[..PAYLOAD_BITS]));
    var packed := new Byte[N_BYTES];
    Encode174(table, a91[..], packed);
    codeword := packed[..];
  }

  lemma PackedMessage(a91: seq<Byte>, msg: Bits)
    requires |a91| == K_BYTES && |msg| == K && PackedUpTo(a91, msg, K, K_BYTES)
    ensures CleanTail(a91, K) && Unpacked(a91)[..K] == msg
  {
  }

  /** FT8: the transmitted tones carry the code word of the payload. */
  method EncodeFt8(table: seq<seq<Byte>>, payload: seq<Byte>, tones: array<nat>)
    requires ValidTable(table) && |payload| >= 10 && tones.Length == FT8_SYMBOLS
    modifies tones
    ensures CarriesFt8(tones[..], PayloadWord(table, payload))
  {
    hide CarriesFt8, PayloadWord;
    var codeword := EncodePayload(table, payload);
    MapFt8(codeword, tones, PayloadWord(table, payload));
  }

  /** The payload combined with the fixed FT4 sequence. */
  function Scrambled(payload: seq<Byte>): (s: seq<Byte>)
    requires |payload| >= 10
    ensures |s| == 10 && forall i :: 0 <= i < 10 ==> s[i] == payload[i] ^ FT4_XOR[i]
  {
    seq(10, i requires 0 <= i < 10 => payload[i] ^ FT4_XOR[i])
  }

  lemma XorTwice(a: Byte, x: Byte)
    ensures (a ^ x) ^ x == a
  {
  }

  /** Scrambling is its own inverse. */
  lemma ScrambledTwice(payload: seq<Byte>)
    requires |payload| >= 10
    ensures Scrambled(Scrambled(payload)) == payload[..10]
  {
    forall i | 0 <= i < 10 ensures Scrambled(Scrambled(payload))[i] == payload[i] {
      XorTwice(payload[i], FT4_XOR[i]);
    }
  }

  /** FT4: as FT8, but on the scrambled payload. */
  method EncodeFt4(table: seq<seq<Byte>>, payload: seq<Byte>, tones: array<nat>)
    requires ValidTable(table) && |payload| >= 10 && tones.Length == FT4_SYMBOLS
    modifies tones
    ensures CarriesFt4(tones[..], PayloadWord(table, Scrambled(payload)))
  {
    hide CarriesFt4, PayloadWord;
    var payloadXor := new Byte[10];
    var i := 0;
    while i < 10
      invariant 0 <= i <= 10 && payloadXor[..i] == Scrambled(payload)[..i]
    {
      payloadXor[i] := payload[i] ^ FT4_XOR[i];
      i := i + 1;
    }
    assert payloadXor[..] == Scrambled(payload);
    var codeword := EncodePayload(table, payloadXor[..]);
    MapFt4(codeword, tones, PayloadWord(table, Scrambled(payload)));
  }
}
