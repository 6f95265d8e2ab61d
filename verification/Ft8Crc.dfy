/** The 14-bit cyclic redundancy check: a shift register over packed bytes, and
    the polynomial division over GF(2) that it computes. */
module Ft8Crc {
  import opened Gf2
  import opened Packing

  const WIDTH := 14

  const POLYNOMIAL: bv16 := 0x2757

  // ---------- Polynomial division ----------

  /** The mask of bit k of a register, counted from the highest of the low fourteen. */
  function RegMask(k: nat): bv16
    requires k < WIDTH
  {
    if k == 0 then 0x2000 else if k == 1 then 0x1000 else if k == 2 then 0x0800 else if k == 3 then 0x0400
    else if k == 4 then 0x0200 else if k == 5 then 0x0100 else if k == 6 then 0x0080 else if k == 7 then 0x0040
    else if k == 8 then 0x0020 else if k == 9 then 0x0010 else if k == 10 then 0x0008 else if k == 11 then 0x0004
    else if k == 12 then 0x0002 else 0x0001
  }

  predicate Masked(r: bv16, m: bv16) {
    r & m != 0
  }

  predicate RegBit(r: bv16, k: nat)
    requires k < WIDTH
  {
    Masked(r, RegMask(k))
  }

  /** The low fourteen bits of a register, highest first. */
  function RegBits(r: bv16): (b: Bits)
    ensures |b| == WIDTH && forall k :: 0 <= k < WIDTH ==> b[k] == RegBit(r, k)
  {
    seq(WIDTH, k requires 0 <= k < WIDTH => RegBit(r, k))
  }

  /** t times the generator polynomial without its leading coefficient. */
  function PolyTail(t: bool): (p: Bits)
    ensures |p| == WIDTH
  {
    if t then RegBits(POLYNOMIAL) else Zeros(WIDTH)
  }

  /** One division step: bring down bit b and subtract the divisor if it fits. */
  function DivideStep(r: Bits, b: bool): (r': Bits)
    requires |r| == WIDTH
    ensures |r'| == WIDTH
  {
    Xor(r[1..] + [false], PolyTail(r[0] != b))
  }

  /** The remainder of m * x^14 modulo the generator polynomial, bit by bit. */
  function Remainder(m: Bits): (r: Bits)
    ensures |r| == WIDTH
  {
    if m == [] then Zeros(WIDTH) else DivideStep(Remainder(m[..|m| - 1]), m[|m| - 1])
  }

  /** The product of q with the generator polynomial x^14 + 0x2757. */
  function TimesPoly(q: Bits): (p: Bits)
    ensures |p| == |q| + WIDTH
  {
    if q == [] then Zeros(WIDTH)
    else
      var t := q[|q| - 1];
      Xor(TimesPoly(q[..|q| - 1]) + [false], Zeros(|q| - 1) + ([t] + PolyTail(t)))
  }

  /** m * x^14 == q * (x^14 + 0x2757) + r with a remainder of degree below 14. */
  predicate IsDivision(m: Bits, q: Bits, r: Bits) {
    |q| == |m| && |r| == WIDTH && m + Zeros(WIDTH) == Xor(TimesPoly(q), Zeros(|m|) + r)
  }

  lemma DivisionStep(m: Bits, q: Bits, r: Bits, b: bool)
    requires IsDivision(m, q, r)
    ensures IsDivision(m + [b], q + [r[0] != b], DivideStep(r, b))
  {
    var n, t := |m|, r[0] != b;
    var q', r', product := q + [t], DivideStep(r, b), TimesPoly(q);
    assert q'[..n] == q;
    var product' := Xor(product + [false], Zeros(n) + ([t] + PolyTail(t)));
    assert TimesPoly(q') == product';
    hide TimesPoly, PolyTail;
    forall p | 0 <= p < n + 1 + WIDTH
      ensures (m + [b] + Zeros(WIDTH))[p] == Xor(product', Zeros(n + 1) + r')[p]
    {
      if p < n + WIDTH {
        assert (m + Zeros(WIDTH))[p] == (product[p] != (Zeros(n) + r)[p]);
      }
      if p > n {
        DivideStepBit(r, b, p - n - 1);
      }
    }
    assert m + [b] + Zeros(WIDTH) == Xor(product', Zeros(n + 1) + r');
  }

  lemma DivideStepBit(r: Bits, b: bool, j: nat)
    requires |r| == WIDTH && j < WIDTH
    ensures DivideStep(r, b)[j] == ((j + 1 < WIDTH && r[j + 1]) != PolyTail(r[0] != b)[j])
  {
  }

  /** The bitwise procedure divides: a quotient exists. */
  lemma {:induction false} RemainderDivides(m: Bits) returns (q: Bits)
    ensures IsDivision(m, q, Remainder(m))
  {
    if m == [] {
      q := [];
      assert m + Zeros(WIDTH) == Xor(TimesPoly(q), Zeros(0) + Remainder(m));
    } else {
      var q' := RemainderDivides(m[..|m| - 1]);
      var b := m[|m| - 1];
      DivisionStep(m[..|m| - 1], q', Remainder(m[..|m| - 1]), b);
      assert m == m[..|m| - 1] + [b];
      q := q' + [Remainder(m[..|m| - 1])[0] != b];
    }
  }

  lemma {:induction false} TimesPolyXor(q: Bits, q': Bits)
    requires |q| == |q'|
    ensures TimesPoly(Xor(q, q')) == Xor(TimesPoly(q), TimesPoly(q'))
  {
    if q == [] {
      assert Xor(q, q') == [];
      assert Xor(Zeros(WIDTH), Zeros(WIDTH)) == Zeros(WIDTH);
    } else {
      var n := |q| - 1;
      assert Xor(q, q')[..n] == Xor(q[..n], q'[..n]);
      TimesPolyXor(q[..n], q'[..n]);
      PolyTailXor(q[n], q'[n]);
      TimesPolyXorStep(q, q');
    }
  }

  lemma PolyTailXor(t: bool, t': bool)
    ensures PolyTail(t != t') == Xor(PolyTail(t), PolyTail(t'))
  {
  }

  lemma TimesPolyXorStep(q: Bits, q': Bits)
    requires |q| == |q'| > 0
    requires Xor(q, q')[..|q| - 1] == Xor(q[..|q| - 1], q'[..|q| - 1])
    requires TimesPoly(Xor(q[..|q| - 1], q'[..|q| - 1])) == Xor(TimesPoly(q[..|q| - 1]), TimesPoly(q'[..|q| - 1]))
    requires PolyTail(q[|q| - 1] != q'[|q| - 1]) == Xor(PolyTail(q[|q| - 1]), PolyTail(q'[|q| - 1]))
    ensures TimesPoly(Xor(q, q')) == Xor(TimesPoly(q), TimesPoly(q'))
  {
    hide PolyTail;
    var n := |q| - 1;
    var low, low', both := TimesPoly(q[..n]), TimesPoly(q'[..n]), TimesPoly(Xor(q, q')[..n]);
    forall p | 0 <= p < n + 1 + WIDTH
      ensures TimesPoly(Xor(q, q'))[p] == (TimesPoly(q)[p] != TimesPoly(q')[p])
    {
      if p < n + WIDTH {
        assert both[p] == (low[p] != low'[p]);
      }
      if p > n {
        assert PolyTail(q[n] != q'[n])[p - n - 1] == (PolyTail(q[n])[p - n - 1] != PolyTail(q'[n])[p - n - 1]);
      }
    }
  }

  /** The leading coefficient of a nonzero quotient survives in the product. */
  lemma {:induction false} LeadingSurvives(q: Bits, k: nat)
    requires k < |q| && q[k] && forall i :: 0 <= i < k ==> !q[i]
    ensures TimesPoly(q)[k]
  {
    var n := |q| - 1;
    if k < n {
      LeadingSurvives(q[..n], k);
    } else {
      ZeroProduct(q[..n]);
    }
  }

  lemma {:induction false} ZeroProduct(q: Bits)
    requires IsZero(q)
    ensures IsZero(TimesPoly(q))
  {
    if q != [] {
      ZeroProduct(q[..|q| - 1]);
    }
  }

  /** Quotient and remainder are unique. */
  lemma DivisionUnique(m: Bits, q: Bits, r: Bits, q': Bits, r': Bits)
    requires IsDivision(m, q, r) && IsDivision(m, q', r')
    ensures q == q' && r == r'
  {
    var n := |m|;
    TimesPolyXor(q, q');
    forall p | 0 <= p < n ensures TimesPoly(q)[p] == TimesPoly(q')[p] {
      assert (m + Zeros(WIDTH))[p] == Xor(TimesPoly(q), Zeros(n) + r)[p];
      assert (m + Zeros(WIDTH))[p] == Xor(TimesPoly(q'), Zeros(n) + r')[p];
    }
    if q != q' {
      var k := FirstDifference(q, q');
      LeadingSurvives(Xor(q, q'), k);
      assert false;
    }
    forall i | 0 <= i < WIDTH ensures r[i] == r'[i] {
      assert (m + Zeros(WIDTH))[n + i] == Xor(TimesPoly(q), Zeros(n) + r)[n + i];
      assert (m + Zeros(WIDTH))[n + i] == Xor(TimesPoly(q'), Zeros(n) + r')[n + i];
    }
  }

  lemma FirstDifference(q: Bits, q': Bits) returns (k: nat)
    requires |q| == |q'| && q != q'
    ensures k < |q| && q[k] != q'[k] && forall i :: 0 <= i < k ==> q[i] == q'[i]
  {
    k := 0;
    while k < |q| && q[k] == q'[k]
      invariant k <= |q| && forall i :: 0 <= i < k ==> q[i] == q'[i]
    {
      k := k + 1;
    }
  }

  /** The remainder is the only one that division admits. */
  lemma RemainderIsTheRemainder(m: Bits, q: Bits, r: Bits)
    requires IsDivision(m, q, r)
    ensures r == Remainder(m)
  {
    var q' := RemainderDivides(m);
    DivisionUnique(m, q, r, q', Remainder(m));
  }

  /** The check is linear over exclusive or. */
  lemma {:induction false} RemainderXor(a: Bits, b: Bits)
    requires |a| == |b|
    ensures Remainder(Xor(a, b)) == Xor(Remainder(a), Remainder(b))
  {
    if a == [] {
      assert Xor(Zeros(WIDTH), Zeros(WIDTH)) == Zeros(WIDTH);
    } else {
      var n := |a| - 1;
      assert Xor(a, b)[..n] == Xor(a[..n], b[..n]);
      RemainderXor(a[..n], b[..n]);
      DivideStepXor(Remainder(a[..n]), Remainder(b[..n]), a[n], b[n]);
    }
  }

  lemma DivideStepXor(r: Bits, r': Bits, b: bool, b': bool)
    requires |r| == |r'| == WIDTH
    ensures DivideStep(Xor(r, r'), b != b') == Xor(DivideStep(r, b), DivideStep(r', b'))
  {
    PolyTailXor(r[0] != b, r'[0] != b');
    hide PolyTail;
    var t, t' := r[0] != b, r'[0] != b';
    forall p | 0 <= p < WIDTH
      ensures DivideStep(Xor(r, r'), b != b')[p] == (DivideStep(r, b)[p] != DivideStep(r', b')[p])
    {
      assert PolyTail(t != t')[p] == (PolyTail(t)[p] != PolyTail(t')[p]);
    }
  }

  // ---------- The register ----------

  predicate SingleBit(m: bv16) {
    m & (m - 1) == 0
  }

  lemma MaskIsSingle(k: nat)
    requires k < WIDTH
    ensures SingleBit(RegMask(k))
  {
  }

  lemma MaskedXor(a: bv16, b: bv16, m: bv16)
    requires SingleBit(m)
    ensures Masked(a ^ b, m) == (Masked(a, m) != Masked(b, m))
  {
  }

  lemma RegBitXor(a: bv16, b: bv16, k: nat)
    requires k < WIDTH
    ensures RegBit(a ^ b, k) == (RegBit(a, k) != RegBit(b, k))
  {
    hide RegMask, Masked, SingleBit;
    MaskIsSingle(k);
    MaskedXor(a, b, RegMask(k));
  }

  lemma RegXor(a: bv16, b: bv16)
    ensures RegBits(a ^ b) == Xor(RegBits(a), RegBits(b))
  {
    hide RegBit;
    forall k | 0 <= k < WIDTH ensures RegBits(a ^ b)[k] == Xor(RegBits(a), RegBits(b))[k] {
      RegBitXor(a, b, k);
    }
  }

  lemma MaskedShift(a: bv16, m: bv16)
    ensures Masked(a << 1, m) == Masked(a, m >> 1)
  {
  }

  lemma NextMask(k: nat)
    requires k < WIDTH
    ensures RegMask(k) >> 1 == if k < WIDTH - 1 then RegMask(k + 1) else 0
  {
  }

  lemma NothingMasked(a: bv16)
    ensures !Masked(a, 0)
  {
  }

  lemma RegBitShift(a: bv16, k: nat)
    requires k < WIDTH
    ensures RegBit(a << 1, k) == (k < WIDTH - 1 && RegBit(a, k + 1))
  {
    hide RegMask, Masked;
    NextMask(k);
    MaskedShift(a, RegMask(k));
    NothingMasked(a);
  }

  lemma RegShift(a: bv16)
    ensures RegBits(a << 1) == RegBits(a)[1..] + [false]
  {
    hide RegBit;
    forall k | 0 <= k < WIDTH ensures RegBits(a << 1)[k] == (RegBits(a)[1..] + [false])[k] {
      RegBitShift(a, k);
    }
  }

  /** What is left of the current byte after its first k bits, at the top of the register. */
  function Pending(b: Byte, k: nat): (p: Bits)
    requires k <= 8
    ensures |p| == WIDTH
    ensures forall j :: 0 <= j < WIDTH ==> p[j] == (k + j < 8 && BitOf(b, k + j))
  {
    seq(WIDTH, j requires 0 <= j < WIDTH => k + j < 8 && BitOf(b, k + j))
  }

  lemma RegBitByte(b: Byte, k: nat)
    requires k < WIDTH
    ensures RegBit((b as bv16) << 6, k) == (k < 8 && BitOf(b, k))
  {
    if k == 0 {} else if k == 1 {} else if k == 2 {} else if k == 3 {} else if k == 4 {}
    else if k == 5 {} else if k == 6 {} else if k == 7 {} else if k == 8 {} else if k == 9 {}
    else if k == 10 {} else if k == 11 {} else if k == 12 {} else {}
  }

  lemma RegByte(b: Byte)
    ensures RegBits((b as bv16) << 6) == Pending(b, 0)
  {
    hide RegBit, BitOf;
    forall k | 0 <= k < WIDTH ensures RegBits((b as bv16) << 6)[k] == Pending(b, 0)[k] {
      RegBitByte(b, k);
    }
  }

  /** Bring the next byte into the register. */
  function BringIn(reg: bv16, b: Byte): bv16 {
    reg ^ ((b as bv16) << 6)
  }

  /** Try to divide the current data bit. The two uppermost bits are not cleared. */
  function TryDivide(reg: bv16): bv16 {
    if reg & 0x2000 != 0 then (reg << 1) ^ POLYNOMIAL else reg << 1
  }

  /** A register that still holds the rest of the byte divides by the next bit. */
  lemma RegisterStep(reg: bv16, r: Bits, b: Byte, k: nat)
    requires k < 8 && |r| == WIDTH && RegBits(reg) == Xor(r, Pending(b, k))
    ensures RegBits(TryDivide(reg)) == Xor(DivideStep(r, BitOf(b, k)), Pending(b, k + 1))
  {
    var t := reg & 0x2000 != 0;
    TopBit(reg);
    hide RegBits, RegBit, Masked, BitOf, PolyTail;
    assert t == (r[0] != BitOf(b, k));
    RegShift(reg);
    RegXor(reg << 1, POLYNOMIAL);
    StepAlgebra(RegBits(reg), r, Pending(b, k), Pending(b, k + 1), t);
    assert PolyTail(true) == RegBits(POLYNOMIAL) by { SomeTail(); }
  }

  lemma TopBit(reg: bv16)
    ensures RegBits(reg)[0] == (reg & 0x2000 != 0)
  {
  }

  lemma SomeTail()
    ensures PolyTail(true) == RegBits(POLYNOMIAL)
  {
  }

  lemma StepAlgebra(reg: Bits, r: Bits, pending: Bits, pending': Bits, t: bool)
    requires |reg| == |r| == |pending| == |pending'| == WIDTH
    requires reg == Xor(r, pending) && pending' == pending[1..] + [false]
    ensures Xor(reg[1..] + [false], PolyTail(t)) == Xor(Xor(r[1..] + [false], PolyTail(t)), pending')
    ensures !t ==> reg[1..] + [false] == Xor(Xor(r[1..] + [false], PolyTail(t)), pending')
  {
    hide PolyTail;
    if !t { assert PolyTail(false) == Zeros(WIDTH) by { NoTail(); } }
  }

  lemma NoTail()
    ensures PolyTail(false) == Zeros(WIDTH)
  {
  }

  /** The unused bits of the last byte are zero. */
  predicate CleanTail(message: seq<Byte>, numBits: nat)
    requires ByteCount(numBits) <= |message|
  {
    var bits := Unpacked(message);
    forall i {:trigger bits[i]} :: numBits <= i < 8 * ByteCount(numBits) ==> !bits[i]
  }

  /** How many bits of the current byte the register has divided before bit i. */
  function Phase(i: nat): (k: nat)
    ensures k <= 8
  {
    if i % 8 == 0 then 8 else i % 8
  }

  function Current(message: seq<Byte>, i: nat): Byte
    requires i <= 8 * |message|
  {
    if i % 8 == 0 then 0 else message[i / 8]
  }

  /** The loop's invariant: the register is the remainder so far plus the undivided rest of the byte. */
  ghost predicate Dividing(reg: bv16, message: seq<Byte>, i: nat) {
    && i <= 8 * |message|
    && RegBits(reg) == Xor(Remainder(Unpacked(message)[..i]), Pending(Current(message, i), Phase(i)))
  }

  lemma DividingStart(message: seq<Byte>)
    ensures Dividing(0, message, 0)
  {
    RegisterEmpty();
    assert Unpacked(message)[..0] == [];
  }

  lemma DividingLoad(reg: bv16, message: seq<Byte>, i: nat)
    requires Dividing(reg, message, i) && i < 8 * |message| && i % 8 == 0
    ensures RegBits(BringIn(reg, message[i / 8]))
         == Xor(Remainder(Unpacked(message)[..i]), Pending(message[i / 8], 0))
  {
    hide Remainder, RegBits, Unpacked, Pending, BringIn;
    LoadByte(reg, Remainder(Unpacked(message)[..i]), 0, message[i / 8]);
  }

  lemma DividingBit(reg: bv16, message: seq<Byte>, i: nat)
    requires i < 8 * |message|
    requires RegBits(reg) == Xor(Remainder(Unpacked(message)[..i]), Pending(message[i / 8], i % 8))
    ensures Dividing(TryDivide(reg), message, i + 1)
  {
    hide Remainder, DivideStep, RegBits, Pending, BitOf, TryDivide;
    var m := Unpacked(message);
    RegisterStep(reg, Remainder(m[..i]), message[i / 8], i % 8);
    RemainderAppend(m, i);
    assert m[i] == BitOf(message[i / 8], i % 8);
    assert RegBits(TryDivide(reg)) == Xor(Remainder(m[..i + 1]), Pending(message[i / 8], i % 8 + 1));
    if i % 8 == 7 {
      AllDivided(message[i / 8], 0);
    }
  }

  lemma AllDivided(b: Byte, b': Byte)
    ensures Pending(b, 8) == Pending(b', 8)
  {
  }

  /** The shift register computes the polynomial remainder, although its two
      uppermost bits are never cleared inside the loop. */
  method ComputeCrc(message: seq<Byte>, numBits: nat) returns (crc: bv16)
    requires ByteCount(numBits) <= |message| && CleanTail(message, numBits)
    ensures RegBits(crc) == Remainder(Unpacked(message)[..numBits])
    ensures crc & 0xC000 == 0
  {
    hide Remainder, RegBits, Unpacked, Dividing, CleanTail, BringIn, TryDivide;
    var remainder: bv16, idxByte := 0, 0;
    DividingStart(message);
    var idxBit := 0;
    while idxBit < numBits
      invariant 0 <= idxBit <= numBits && idxByte == (idxBit + 7) / 8
      invariant Dividing(remainder, message, idxBit)
    {
      if idxBit % 8 == 0 {
        DividingLoad(remainder, message, idxBit);
        remainder := BringIn(remainder, message[idxByte]);
        idxByte := idxByte + 1;
      } else {
        DividingOn(remainder, message, idxBit);
      }
      DividingBit(remainder, message, idxBit);
      remainder := TryDivide(remainder);
      idxBit := idxBit + 1;
    }
    DividingDone(remainder, message, numBits);
    MaskedRegister(remainder);
    return remainder & 0x3FFF;
  }

  lemma DividingOn(reg: bv16, message: seq<Byte>, i: nat)
    requires Dividing(reg, message, i) && i % 8 != 0
    ensures RegBits(reg) == Xor(Remainder(Unpacked(message)[..i]), Pending(message[i / 8], i % 8))
  {
  }

  lemma DividingDone(reg: bv16, message: seq<Byte>, numBits: nat)
    requires Dividing(reg, message, numBits) && ByteCount(numBits) <= |message| && CleanTail(message, numBits)
    ensures RegBits(reg) == Remainder(Unpacked(message)[..numBits])
  {
    NothingPending(message, numBits);
    hide Remainder, RegBits, Pending, CleanTail;
    XorZero(Remainder(Unpacked(message)[..numBits]));
  }

  lemma RegisterEmpty()
    ensures RegBits(0) == Xor(Remainder([]), Pending(0, 8)) == Zeros(WIDTH)
    ensures Remainder([]) == Zeros(WIDTH)
  {
    assert Pending(0, 8) == Zeros(WIDTH);
  }

  lemma LoadByte(reg: bv16, r: Bits, before: Byte, b: Byte)
    requires |r| == WIDTH && RegBits(reg) == Xor(r, Pending(before, 8))
    ensures RegBits(BringIn(reg, b)) == Xor(r, Pending(b, 0))
  {
    hide RegBits, RegBit, Masked, BitOf;
    RegXor(reg, (b as bv16) << 6);
    RegByte(b);
    assert Xor(Xor(r, Pending(before, 8)), Pending(b, 0)) == Xor(r, Pending(b, 0));
  }

  lemma RemainderAppend(m: Bits, i: nat)
    requires i < |m|
    ensures Remainder(m[..i + 1]) == DivideStep(Remainder(m[..i]), m[i])
  {
    assert m[..i + 1][..i] == m[..i];
  }

  lemma NothingPending(message: seq<Byte>, numBits: nat)
    requires ByteCount(numBits) <= |message| && CleanTail(message, numBits)
    ensures Pending(Current(message, numBits), Phase(numBits)) == Zeros(WIDTH)
  {
    hide BitOf;
    if numBits % 8 != 0 {
      forall j | numBits % 8 <= j < 8 ensures !BitOf(message[numBits / 8], j) {
        var i := 8 * (numBits / 8) + j;
        assert i / 8 == numBits / 8 && i % 8 == j;
        assert !Unpacked(message)[i];
      }
    }
  }

  lemma XorZero(a: Bits)
    ensures Xor(a, Zeros(|a|)) == a
  {
  }

  lemma MaskedBelow(r: bv16, m: bv16)
    requires m & 0xC000 == 0
    ensures Masked(r & 0x3FFF, m) == Masked(r, m)
  {
  }

  lemma MaskBelow(k: nat)
    requires k < WIDTH
    ensures RegMask(k) & 0xC000 == 0
  {
  }

  lemma MaskedRegister(r: bv16)
    ensures RegBits(r & 0x3FFF) == RegBits(r) && (r & 0x3FFF) & 0xC000 == 0
  {
    assert (r & 0x3FFF) & 0xC000 == 0;
    hide RegMask, Masked;
    forall k | 0 <= k < WIDTH ensures RegBits(r & 0x3FFF)[k] == RegBits(r)[k] {
      MaskBelow(k);
      MaskedBelow(r, RegMask(k));
    }
  }

  lemma SameBit(a: bv16, b: bv16, k: nat)
    requires k < WIDTH && RegBits(a) == RegBits(b)
    ensures Masked(a, RegMask(k)) == Masked(b, RegMask(k))
  {
    hide RegMask, Masked;
    assert RegBits(a)[k] == RegBits(b)[k];
  }

  lemma Masks()
    ensures RegMask(0) == 0x2000 && RegMask(1) == 0x1000 && RegMask(2) == 0x0800 && RegMask(3) == 0x0400
    ensures RegMask(4) == 0x0200 && RegMask(5) == 0x0100 && RegMask(6) == 0x0080 && RegMask(7) == 0x0040
    ensures RegMask(8) == 0x0020 && RegMask(9) == 0x0010 && RegMask(10) == 0x0008 && RegMask(11) == 0x0004
    ensures RegMask(12) == 0x0002 && RegMask(13) == 0x0001
  {
  }

  lemma SameBits(a: bv16, b: bv16)
    requires a & 0xC000 == 0 && b & 0xC000 == 0
    requires Masked(a, 0x2000) == Masked(b, 0x2000) && Masked(a, 0x1000) == Masked(b, 0x1000)
    requires Masked(a, 0x0800) == Masked(b, 0x0800) && Masked(a, 0x0400) == Masked(b, 0x0400)
    requires Masked(a, 0x0200) == Masked(b, 0x0200) && Masked(a, 0x0100) == Masked(b, 0x0100)
    requires Masked(a, 0x0080) == Masked(b, 0x0080) && Masked(a, 0x0040) == Masked(b, 0x0040)
    requires Masked(a, 0x0020) == Masked(b, 0x0020) && Masked(a, 0x0010) == Masked(b, 0x0010)
    requires Masked(a, 0x0008) == Masked(b, 0x0008) && Masked(a, 0x0004) == Masked(b, 0x0004)
    requires Masked(a, 0x0002) == Masked(b, 0x0002) && Masked(a, 0x0001) == Masked(b, 0x0001)
    ensures a == b
  {
  }

  /** A masked register is determined by its fourteen bits. */
  lemma RegInjective(a: bv16, b: bv16)
    requires a & 0xC000 == 0 && b & 0xC000 == 0 && RegBits(a) == RegBits(b)
    ensures a == b
  {
    hide RegBits, RegBit, RegMask, Masked;
    Masks();
    SameBit(a, b, 0);
    SameBit(a, b, 1);
    SameBit(a, b, 2);
    SameBit(a, b, 3);
    SameBit(a, b, 4);
    SameBit(a, b, 5);
    SameBit(a, b, 6);
    SameBit(a, b, 7);
    SameBit(a, b, 8);
    SameBit(a, b, 9);
    SameBit(a, b, 10);
    SameBit(a, b, 11);
    SameBit(a, b, 12);
    SameBit(a, b, 13);
    SameBits(a, b);
  }

  // ---------- The message with its check appended ----------

  const PAYLOAD_BITS := 77
  const MESSAGE_BITS := 91
  const MESSAGE_BYTES := 12

  /** The 77 payload bits followed by the check of the payload extended to 82 bits. */
  function WithCrc(p: Bits): (m: Bits)
    requires |p| == PAYLOAD_BITS
    ensures |m| == MESSAGE_BITS
  {
    p + Remainder(p + Zeros(5))
  }

  /** The check bits stored after the payload. */
  function ExtractCrc(a91: seq<Byte>): (crc: bv16)
    requires |a91| >= MESSAGE_BYTES
  {
    Joined(a91[9], a91[10], a91[11])
  }

  function Joined(x: Byte, y: Byte, z: Byte): bv16 {
    (((x & 0x07) as bv16) << 11) | ((y as bv16) << 3) | ((z >> 5) as bv16)
  }

  function HighPart(m: bv16): Byte {
    ((m >> 11) as Byte) & 0x07
  }

  function MiddlePart(m: bv16): Byte {
    ((m >> 3) & 0xFF) as Byte
  }

  function LowPart(m: bv16): Byte {
    ((m << 5) & 0xFF) as Byte
  }

  lemma JoinedMasked(x: Byte, y: Byte, z: Byte, m: bv16)
    ensures Masked(Joined(x, y, z), m)
         == (x & HighPart(m) != 0 || y & MiddlePart(m) != 0 || z & LowPart(m) != 0)
  {
  }

  lemma MaskParts(k: nat)
    requires k < WIDTH
    ensures HighPart(RegMask(k)) == if k < 3 then Mask(k + 5) else 0
    ensures MiddlePart(RegMask(k)) == if 3 <= k < 11 then Mask(k - 3) else 0
    ensures LowPart(RegMask(k)) == if 11 <= k then Mask(k - 11) else 0
  {
  }

  lemma NoPart(x: Byte)
    ensures x & 0 == 0
  {
  }

  lemma JoinedBit(x: Byte, y: Byte, z: Byte, k: nat)
    requires k < WIDTH
    ensures RegBit(Joined(x, y, z), k)
         == if k < 3 then BitOf(x, k + 5) else if k < 11 then BitOf(y, k - 3) else BitOf(z, k - 11)
  {
    hide HighPart, MiddlePart, LowPart, RegMask, Mask, Joined, Masked;
    JoinedMasked(x, y, z, RegMask(k));
    MaskParts(k);
    NoPart(x);
    NoPart(y);
    NoPart(z);
  }

  lemma JoinedIsMasked(x: Byte, y: Byte, z: Byte)
    ensures Joined(x, y, z) & 0xC000 == 0
  {
  }

  /** The extracted check is the fourteen bits that follow the payload. */
  lemma ExtractedBits(a91: seq<Byte>)
    requires |a91| >= MESSAGE_BYTES
    ensures RegBits(ExtractCrc(a91)) == Unpacked(a91)[PAYLOAD_BITS..MESSAGE_BITS]
    ensures ExtractCrc(a91) & 0xC000 == 0
  {
    hide RegBit, BitOf, Joined;
    JoinedIsMasked(a91[9], a91[10], a91[11]);
    forall k | 0 <= k < WIDTH
      ensures RegBits(ExtractCrc(a91))[k] == Unpacked(a91)[PAYLOAD_BITS + k]
    {
      JoinedBit(a91[9], a91[10], a91[11], k);
    }
  }

  lemma SameUnderMask(a: Byte, b: Byte, h: Byte, m: Byte)
    requires a & h == b & h && m & h == m
    ensures (a & m != 0) == (b & m != 0)
  {
  }

  lemma HighMask(k: nat)
    requires k < 8
    ensures k < 5 ==> Mask(k) & 0xF8 == Mask(k)
    ensures k >= 3 ==> Mask(k) & 0x1F == Mask(k)
    ensures k >= 5 ==> Mask(k) & 0x07 == Mask(k)
  {
  }

  lemma SameHighBits(a: Byte, b: Byte, k: nat)
    requires k < 5 && a & 0xF8 == b & 0xF8
    ensures BitOf(a, k) == BitOf(b, k)
  {
    hide Mask;
    HighMask(k);
    SameUnderMask(a, b, 0xF8, Mask(k));
  }

  lemma ClearBits(a: Byte, k: nat)
    requires k < 8
    ensures k >= 5 && a & 0x07 == 0 ==> !BitOf(a, k)
    ensures k >= 3 && a & 0x1F == 0 ==> !BitOf(a, k)
    ensures a == 0 ==> !BitOf(a, k)
  {
    hide Mask;
    HighMask(k);
    NoBits(a, Mask(k));
  }

  lemma NoBits(a: Byte, m: Byte)
    ensures m & 0x07 == m && a & 0x07 == 0 ==> a & m == 0
    ensures m & 0x1F == m && a & 0x1F == 0 ==> a & m == 0
    ensures a == 0 ==> a & m == 0
  {
  }

  /** The message with everything after the payload cleared up to bit 88. */
  function Cleared(a91: seq<Byte>): (a: seq<Byte>)
    requires |a91| >= MESSAGE_BYTES
    ensures |a| == |a91|
  {
    a91[9 := a91[9] & 0xF8][10 := 0]
  }

  lemma ClearedByte(b: Byte)
    ensures (b & 0xF8) & 0xF8 == b & 0xF8 && (b & 0xF8) & 0x07 == 0
  {
  }

  lemma ClearedBits(a91: seq<Byte>)
    requires |a91| >= MESSAGE_BYTES
    ensures Unpacked(Cleared(a91))[..82] == Unpacked(a91)[..PAYLOAD_BITS] + Zeros(5)
    ensures CleanTail(Cleared(a91), 82)
  {
    hide BitOf;
    var a := Cleared(a91);
    ClearedByte(a91[9]);
    forall i | 72 <= i < 88
      ensures PackedBit(a, i) == (i < PAYLOAD_BITS && PackedBit(a91, i))
    {
      if i < PAYLOAD_BITS {
        SameHighBits(a[9], a91[9], i % 8);
      } else {
        ClearBits(a[i / 8], i % 8);
      }
    }
  }

  /** The check stored in the fourteen bits after the payload. */
  function Appended(a: seq<Byte>, crc: bv16): (a91: seq<Byte>)
    requires |a| >= MESSAGE_BYTES
    ensures |a91| == |a|
  {
    a[9 := a[9] | ((crc >> 11) & 0xFF) as Byte][10 := MiddlePart(crc)][11 := LowPart(crc)]
  }

  lemma AppendedHigh(x: Byte, crc: bv16)
    requires crc & 0xC000 == 0 && x & 0x07 == 0
    ensures (x | ((crc >> 11) & 0xFF) as Byte) & 0xF8 == x & 0xF8
  {
  }

  lemma AppendedLow(crc: bv16)
    ensures LowPart(crc) & 0x1F == 0
  {
  }

  lemma AppendedJoins(x: Byte, crc: bv16)
    requires crc & 0xC000 == 0 && x & 0x07 == 0
    ensures Joined(x | ((crc >> 11) & 0xFF) as Byte, MiddlePart(crc), LowPart(crc)) == crc
  {
  }

  lemma AppendedBits(a: seq<Byte>, crc: bv16)
    requires |a| >= MESSAGE_BYTES && crc & 0xC000 == 0 && a[9] & 0x07 == 0
    ensures var u, u' := Unpacked(a), Unpacked(Appended(a, crc));
            && u'[..PAYLOAD_BITS] == u[..PAYLOAD_BITS]
            && u'[PAYLOAD_BITS..MESSAGE_BITS] == RegBits(crc)
            && u'[MESSAGE_BITS..96] == Zeros(5)
  {
    hide BitOf, Joined, MiddlePart, LowPart, RegBits, RegBit;
    var a91 := Appended(a, crc);
    AppendedJoins(a[9], crc);
    ExtractedBits(a91);
    AppendedHigh(a[9], crc);
    AppendedLow(crc);
    forall i | 72 <= i < PAYLOAD_BITS ensures PackedBit(a91, i) == PackedBit(a, i) {
      SameHighBits(a91[9], a[9], i % 8);
    }
    forall i | MESSAGE_BITS <= i < 96 ensures !PackedBit(a91, i) {
      ClearBits(a91[11], i % 8);
    }
  }

  /** Append the check to the first 77 bits of the payload. */
  method AddCrc(payload: seq<Byte>, a91: array<Byte>)
    requires |payload| >= 10 && a91.Length >= MESSAGE_BYTES
    modifies a91
    ensures PackedUpTo(a91[..], WithCrc(Unpacked(payload)[..PAYLOAD_BITS]), MESSAGE_BITS, MESSAGE_BYTES)
    ensures a91[MESSAGE_BYTES..] == old(a91[MESSAGE_BYTES..])
  {
    hide RegBits, Remainder, Unpacked, PackedUpTo, Cleared, Appended, CleanTail, WithCrc, ExtractCrc;
    var i := 0;
    while i < 10
      invariant 0 <= i <= 10 && a91[..i] == payload[..i]
      invariant a91[MESSAGE_BYTES..] == old(a91[MESSAGE_BYTES..])
    {
      a91[i] := payload[i];
      i := i + 1;
    }
    ghost var copied := a91[..];
    a91[9] := a91[9] & 0xF8;
    a91[10] := 0;
    ghost var cleared := a91[..];
    assert cleared == Cleared(copied) by { ClearedIs(copied); }
    ClearedBits(copied);
    var checksum := ComputeCrc(a91[..], 96 - 14);
    a91[9] := a91[9] | ((checksum >> 11) & 0xFF) as Byte;
    a91[10] := ((checksum >> 3) & 0xFF) as Byte;
    a91[11] := ((checksum << 5) & 0xFF) as Byte;
    assert a91[..] == Appended(cleared, checksum) by { AppendedIs(cleared, checksum); }
    CrcAdded(payload, copied, checksum);
  }

  lemma ClearedIs(a91: seq<Byte>)
    requires |a91| >= MESSAGE_BYTES
    ensures Cleared(a91) == a91[9 := a91[9] & 0xF8][10 := 0]
  {
  }

  lemma AppendedIs(a: seq<Byte>, crc: bv16)
    requires |a| >= MESSAGE_BYTES
    ensures Appended(a, crc)
         == a[9 := a[9] | ((crc >> 11) & 0xFF) as Byte][10 := ((crc >> 3) & 0xFF) as Byte][11 := ((crc << 5) & 0xFF) as Byte]
  {
  }

  lemma CrcAdded(payload: seq<Byte>, copied: seq<Byte>, crc: bv16)
    requires |payload| >= 10 && |copied| >= MESSAGE_BYTES && copied[..10] == payload[..10]
    requires crc & 0xC000 == 0 && RegBits(crc) == Remainder(Unpacked(Cleared(copied))[..82])
    ensures PackedUpTo(Appended(Cleared(copied), crc), WithCrc(Unpacked(payload)[..PAYLOAD_BITS]), MESSAGE_BITS, MESSAGE_BYTES)
  {
    hide RegBits, Remainder, BitOf, Appended;
    var p := Unpacked(payload)[..PAYLOAD_BITS];
    SamePrefix(payload, copied);
    ClearedBits(copied);
    ClearedByte(copied[9]);
    AppendedBits(Cleared(copied), crc);
    hide Cleared, Unpacked;
    var u := Unpacked(Appended(Cleared(copied), crc));
    assert u[..PAYLOAD_BITS] == p by {
      assert Unpacked(Cleared(copied))[..82][..PAYLOAD_BITS] == p;
    }
    assert u[..MESSAGE_BITS] == u[..PAYLOAD_BITS] + u[PAYLOAD_BITS..MESSAGE_BITS];
    assert u[..MESSAGE_BITS] == WithCrc(p);
    PackedFromBits(Appended(Cleared(copied), crc), WithCrc(p), MESSAGE_BITS, MESSAGE_BYTES);
  }

  lemma SamePrefix(s: seq<Byte>, t: seq<Byte>)
    requires |s| >= 10 && |t| >= 10 && s[..10] == t[..10]
    ensures Unpacked(s)[..PAYLOAD_BITS] == Unpacked(t)[..PAYLOAD_BITS]
  {
    hide BitOf;
    forall i | 0 <= i < PAYLOAD_BITS ensures PackedBit(s, i) == PackedBit(t, i) {
      assert s[..10][i / 8] == t[..10][i / 8];
    }
  }

  /** What the receiver does: extract the check, clear it, and recompute it. */
  method VerifyCrc(a91: array<Byte>) returns (extracted: bv16, calculated: bv16)
    requires a91.Length >= MESSAGE_BYTES
    modifies a91
    ensures a91[..] == Cleared(old(a91[..]))
    ensures extracted == calculated
        <==> Unpacked(old(a91[..]))[..MESSAGE_BITS] == WithCrc(Unpacked(old(a91[..]))[..PAYLOAD_BITS])
    ensures RegBits(calculated) == Remainder(Unpacked(old(a91[..]))[..PAYLOAD_BITS] + Zeros(5))
  {
    hide RegBits, Remainder, Unpacked, PackedUpTo, Cleared, Appended, CleanTail, WithCrc, ExtractCrc;
    ghost var before := a91[..];
    extracted := ExtractCrc(a91[..]);
    ExtractedBits(before);
    a91[9] := a91[9] & 0xF8;
    a91[10] := a91[10] & 0x00;
    assert a91[..] == Cleared(before) by { ClearedIs(before); NoPart(before[10]); }
    ClearedBits(before);
    calculated := ComputeCrc(a91[..], 96 - 14);
    CrcAgrees(before, extracted, calculated);
  }

  lemma CrcAgrees(a91: seq<Byte>, extracted: bv16, calculated: bv16)
    requires |a91| >= MESSAGE_BYTES
    requires extracted & 0xC000 == 0 && RegBits(extracted) == Unpacked(a91)[PAYLOAD_BITS..MESSAGE_BITS]
    requires calculated & 0xC000 == 0
    requires RegBits(calculated) == Remainder(Unpacked(a91)[..PAYLOAD_BITS] + Zeros(5))
    ensures extracted == calculated <==> Unpacked(a91)[..MESSAGE_BITS] == WithCrc(Unpacked(a91)[..PAYLOAD_BITS])
  {
    hide RegBits, Remainder, Unpacked;
    var u := Unpacked(a91);
    assert u[..MESSAGE_BITS] == u[..PAYLOAD_BITS] + u[PAYLOAD_BITS..MESSAGE_BITS];
    if u[..MESSAGE_BITS] == WithCrc(u[..PAYLOAD_BITS]) {
      assert u[..MESSAGE_BITS][PAYLOAD_BITS..] == u[PAYLOAD_BITS..MESSAGE_BITS];
      assert WithCrc(u[..PAYLOAD_BITS])[PAYLOAD_BITS..] == Remainder(u[..PAYLOAD_BITS] + Zeros(5));
      RegInjective(extracted, calculated);
    }
  }
}
