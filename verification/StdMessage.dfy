/** The standard 77-bit message: two 28-bit call fields with a suffix flag each, and
    a 16-bit report or grid field. Bytes are numbers below 256. */
module StdMessage {
  import opened Text
  import opened Options

  const NTOKENS := 2063592
  const MAX22 := 4194304
  const MAXGRID4 := 32400

  /** The character at i, or the terminator behind the end. */
  function At(s: string, i: nat): char {
    if i < |s| then s[i] else '\0'
  }

  // ---------- Base calls ----------

  function Padded(s: string): (c6: string)
    requires |s| <= 6
    ensures |c6| == 6
  {
    s + Spaces(6 - |s|)
  }

  /** The six-character form of a base call, its digit in the third place. */
  function C6(b: string): (c6: string)
    requires |b| > 2
    ensures |c6| == 6
  {
    if StartsWith(b, "3DA0") && 4 < |b| <= 7 then Padded("3D0" + b[4..])
    else if StartsWith(b, "3X") && IsLetter(b[2]) && |b| <= 7 then Padded("Q" + b[2..])
    else if IsDigit(b[2]) && |b| <= 6 then Padded(b)
    else if IsDigit(b[1]) && |b| <= 5 then Padded(" " + b)
    else Padded("")
  }

  /** The table of each place of the six-character form. */
  function PlaceTable(i: nat): Table {
    if i == 0 then AlphanumSpace else if i == 1 then Alphanum else if i == 2 then Numeric else LettersSpace
  }

  function Place(c6: string, i: nat): int
    requires i < |c6|
  {
    Nchar(c6[i], PlaceTable(i))
  }

  predicate Packable(c6: string) {
    |c6| == 6 && Place(c6, 0) >= 0 && Place(c6, 1) >= 0 && Place(c6, 2) >= 0
    && Place(c6, 3) >= 0 && Place(c6, 4) >= 0 && Place(c6, 5) >= 0
  }

  /** The base call as a number, or -1 when it is not a standard one. */
  function PackBasecall(b: string): (n: int)
    ensures -1 <= n < 37 * 36 * 10 * 27 * 27 * 27
  {
    if |b| > 2 && Packable(C6(b)) then
      PlaceBounds(C6(b));
      Number(C6(b))
    else -1
  }

  lemma PlaceBounds(c6: string)
    requires Packable(c6)
    ensures Place(c6, 0) < 37 && Place(c6, 1) < 36 && Place(c6, 2) < 10
    ensures Place(c6, 3) < 27 && Place(c6, 4) < 27 && Place(c6, 5) < 27
  {
    hide Nchar, Charn;
    TablesInverse(c6[0], AlphanumSpace);
    TablesInverse(c6[1], Alphanum);
    TablesInverse(c6[2], Numeric);
    TablesInverse(c6[3], LettersSpace);
    TablesInverse(c6[4], LettersSpace);
    TablesInverse(c6[5], LettersSpace);
  }

  function Number(c6: string): nat
    requires Packable(c6)
  {
    ((((Place(c6, 0) * 36 + Place(c6, 1)) * 10 + Place(c6, 2)) * 27 + Place(c6, 3)) * 27 + Place(c6, 4)) * 27 + Place(c6, 5)
  }

  /** The six characters of a base-call number. */
  function Unnumber(n: nat): (c6: string)
    ensures |c6| == 6
  {
    var n5 := n / 27;
    var n4 := n5 / 27;
    var n3 := n4 / 27;
    var n2 := n3 / 10;
    var n1 := n2 / 36;
    [Charn(n1 % 37, AlphanumSpace), Charn(n2 % 36, Alphanum), Charn(n3 % 10, Numeric),
     Charn(n4 % 27, LettersSpace), Charn(n5 % 27, LettersSpace), Charn(n % 27, LettersSpace)]
  }

  lemma MixedRadix(a: nat, b: nat, c: nat, d: nat, e: nat, f: nat)
    requires a < 37 && b < 36 && c < 10 && d < 27 && e < 27 && f < 27
    ensures var n := ((((a * 36 + b) * 10 + c) * 27 + d) * 27 + e) * 27 + f;
            && n % 27 == f && n / 27 % 27 == e && n / 27 / 27 % 27 == d && n / 27 / 27 / 27 % 10 == c
            && n / 27 / 27 / 27 / 10 % 36 == b && n / 27 / 27 / 27 / 10 / 36 % 37 == a
  {
    var n1 := a * 36 + b;
    var n2 := n1 * 10 + c;
    var n3 := n2 * 27 + d;
    var n4 := n3 * 27 + e;
    assert n1 / 36 == a && n2 / 10 == n1 && n3 / 27 == n2 && n4 / 27 == n3 && (n4 * 27 + f) / 27 == n4;
  }

  /** Packing six characters into a number loses nothing. */
  lemma UnnumberNumber(c6: string)
    requires Packable(c6)
    ensures Unnumber(Number(c6)) == c6
  {
    PlaceBounds(c6);
    MixedRadix(Place(c6, 0), Place(c6, 1), Place(c6, 2), Place(c6, 3), Place(c6, 4), Place(c6, 5));
    TablesInverse(c6[0], AlphanumSpace);
    TablesInverse(c6[1], Alphanum);
    TablesInverse(c6[2], Numeric);
    TablesInverse(c6[3], LettersSpace);
    TablesInverse(c6[4], LettersSpace);
    TablesInverse(c6[5], LettersSpace);
    hide Nchar, Charn;
    var r := Unnumber(Number(c6));
    assert r[0] == c6[0] && r[1] == c6[1] && r[2] == c6[2] && r[3] == c6[3] && r[4] == c6[4] && r[5] == c6[5];
  }

  /** The call that six characters stand for. */
  function BaseText(c6: string): string
    requires |c6| == 6
  {
    if StartsWith(c6, "3D0") && c6[3] != ' ' then "3DA0" + Trim(c6[3..])
    else if c6[0] == 'Q' && IsLetter(c6[1]) then "3X" + Trim(c6[1..])
    else Trim(c6)
  }

  predicate NoSpaces(s: string) {
    forall i :: 0 <= i < |s| ==> s[i] != ' '
  }

  /** Calls that share their six-character form with a call of Eswatini or Guinea. */
  predicate Alias(b: string) {
    |b| > 2 && IsDigit(b[2]) && ((|b| > 3 && StartsWith(b, "3D0")) || (b[0] == 'Q' && IsLetter(b[1])))
  }

  /** A base call comes back from its six characters exactly when it is not an alias. */
  lemma BaseRoundTrip(b: string)
    requires |b| > 2 && NoSpaces(b) && Packable(C6(b))
    ensures BaseText(C6(b)) == b <==> !Alias(b)
  {
    hide Packable, Trim;
    if StartsWith(b, "3DA0") && 4 < |b| <= 7 {
      EswatiniRoundTrip(b);
    } else if StartsWith(b, "3X") && IsLetter(b[2]) && |b| <= 7 {
      GuineaRoundTrip(b);
    } else if IsDigit(b[2]) && |b| <= 6 {
      PlainRoundTrip(b);
    } else if IsDigit(b[1]) && |b| <= 5 {
      ShortRoundTrip(b);
    } else {
      NothingPacked();
      assert false;
    }
  }

  /** Aliases are packed and come back as the calls they share their form with. */
  lemma AliasesFail()
    ensures Alias("QA0XYZ") && Packable(C6("QA0XYZ")) && BaseText(C6("QA0XYZ")) == "3XA0XYZ"
    ensures Alias("3D0XYZ") && Packable(C6("3D0XYZ")) && BaseText(C6("3D0XYZ")) == "3DA0XYZ"
  {
    AliasesPackable();
    assert C6("QA0XYZ") == Padded("Q" + "3XA0XYZ"[2..]);
    GuineaRoundTrip("3XA0XYZ");
    assert C6("3D0XYZ") == Padded("3D0" + "3DA0XYZ"[4..]);
    EswatiniRoundTrip("3DA0XYZ");
  }

  lemma AliasesPackable()
    ensures Packable("QA0XYZ") && Packable("3D0XYZ")
  {
  }

  lemma EswatiniRoundTrip(b: string)
    requires StartsWith(b, "3DA0") && 4 < |b| <= 7 && NoSpaces(b)
    ensures BaseText(Padded("3D0" + b[4..])) == b && !Alias(b)
  {
    hide Trim;
    var t, c6 := b[4..], Padded("3D0" + b[4..]);
    TrimPadding(t, 3 - |t|);
    assert b == "3DA0" + t && b[2] == 'A';
    assert c6[3..] == t + Spaces(3 - |t|) && c6[..3] == "3D0" && c6[3] == t[0];
    assert StartsWith(c6, "3D0") && c6[3] != ' ';
    assert BaseText(c6) == "3DA0" + Trim(c6[3..]);
  }

  lemma GuineaRoundTrip(b: string)
    requires |b| > 2 && StartsWith(b, "3X") && IsLetter(b[2]) && |b| <= 7 && NoSpaces(b)
    ensures BaseText(Padded("Q" + b[2..])) == b && !Alias(b)
  {
    hide Trim;
    var t, c6 := b[2..], Padded("Q" + b[2..]);
    TrimPadding(t, 5 - |t|);
    assert b == "3X" + t;
    assert c6[1..] == t + Spaces(5 - |t|) && c6[0] == 'Q' && c6[1] == t[0] == b[2];
  }

  lemma ShortRoundTrip(b: string)
    requires 3 <= |b| <= 5 && NoSpaces(b) && !IsDigit(b[2])
    ensures BaseText(Padded(" " + b)) == b && !Alias(b)
  {
    hide Trim;
    TrimPadding(b, 5 - |b|);
    var c6 := Padded(" " + b);
    assert c6 == " " + b + Spaces(5 - |b|) && c6[..3][0] == ' ' && c6[0] == ' ';
  }

  lemma PlainRoundTrip(b: string)
    requires 3 <= |b| <= 6 && NoSpaces(b) && IsDigit(b[2])
    ensures BaseText(Padded(b)) == b <==> !Alias(b)
  {
    hide Trim;
    var c6 := Padded(b);
    TrimPadding(b, 6 - |b|);
    if StartsWith(c6, "3D0") && c6[3] != ' ' {
      assert |b| > 3 && b[..3] == c6[..3];
      assert BaseText(c6)[2] == 'A';
    } else if c6[0] == 'Q' && IsLetter(c6[1]) {
      assert BaseText(c6)[0] == '3';
    } else if |b| > 3 {
      assert b[..3] == c6[..3];
    }
  }

  lemma NothingPacked()
    ensures !Packable(Padded(""))
  {
  }

  // ---------- Call fields ----------

  predicate InTable(s: string) {
    forall i :: 0 <= i < |s| ==> Nchar(s[i], AlphanumSpaceSlash) >= 0
  }

  /** The call as a base-38 number, padded with spaces to eleven characters. */
  function N58(s: string, i: nat): nat
    requires InTable(s) && i <= 11
  {
    if i == 0 then 0
    else 38 * N58(s, i - 1) + if i - 1 < |s| then Nchar(s[i - 1], AlphanumSpaceSlash) else 0
  }

  /** The 22-bit hash of a call: the upper bits of a 64-bit product. */
  function Hash22(s: string): (h: nat)
    requires InTable(s)
    ensures h < MAX22
  {
    47055833459 * N58(s, 11) % 0x1_0000_0000_0000_0000 / 0x400_0000_0000 % MAX22
  }

  datatype CallField = CallField(n28: nat, ip: nat)

  predicate Suffixed(call: string) {
    EndsWith(call, "/P") || EndsWith(call, "/R")
  }

  function BaseOf(call: string): string {
    if Suffixed(call) then call[..|call| - 2] else call
  }

  /** The characters that the hash looks at: at most eleven. */
  function Hashed(call: string): string {
    if |call| <= 11 then call else call[..11]
  }

  /** A token, a standard call with its suffix flag, or the hash of another call. */
  function Pack28(call: string): (r: Option<CallField>)
    ensures r.Some? ==> r.value.n28 < 0x1000_0000 && r.value.ip <= 1
  {
    if call == "DE" then Some(CallField(0, 0))
    else if call == "QRZ" then Some(CallField(1, 0))
    else if call == "CQ" then Some(CallField(2, 0))
    else if StartsWith(call, "CQ_") && |call| < 8 then None
    else
      var n := PackBasecall(BaseOf(call));
      if n >= 0 then
        if InTable(Hashed(call)) then Some(CallField(NTOKENS + MAX22 + n, if Suffixed(call) then 1 else 0)) else None
      else if 3 <= |call| <= 11 && InTable(call) then Some(CallField(NTOKENS + Hash22(call), 0))
      else None
  }

  /** Four letters or spaces. */
  function FourLetters(n: nat): (s: string)
    ensures |s| == 4
  {
    [Charn(n / 27 / 27 / 27 % 27, LettersSpace), Charn(n / 27 / 27 % 27, LettersSpace),
     Charn(n / 27 % 27, LettersSpace), Charn(n % 27, LettersSpace)]
  }

  /** The text of a call field; calls known only by hash come from the caller's table. */
  function Unpack28(n28: nat, ip: nat, i3: nat, lookup: nat -> string): Option<string> {
    if n28 == 0 then Some("DE")
    else if n28 == 1 then Some("QRZ")
    else if n28 == 2 then Some("CQ")
    else if n28 <= 1002 then Some("CQ " + DdText(n28 - 3, 3, false))
    else if n28 <= 532443 then Some("CQ " + TrimFront(FourLetters(n28 - 1003)))
    else if n28 < NTOKENS then None
    else if n28 - NTOKENS < MAX22 then Some(lookup(n28 - NTOKENS))
    else
      var base := BaseText(Unnumber(n28 - NTOKENS - MAX22));
      if |base| < 3 then None
      else if ip == 0 then Some(base)
      else if i3 == 1 then Some(base + "/R")
      else if i3 == 2 then Some(base + "/P")
      else None
  }

  /** A standard base call that is not an alias. */
  predicate StandardBase(b: string) {
    |b| > 2 && NoSpaces(b) && Packable(C6(b)) && !Alias(b)
  }

  /** A token, or a standard base call with or without a suffix. */
  predicate StandardCall(call: string) {
    call == "DE" || call == "QRZ" || call == "CQ" || StandardBase(BaseOf(call))
  }

  lemma LetterInTable(c: char)
    requires Nchar(c, AlphanumSpace) >= 0 || Nchar(c, Alphanum) >= 0 || Nchar(c, Numeric) >= 0 || Nchar(c, LettersSpace) >= 0
    ensures Nchar(c, AlphanumSpaceSlash) >= 0
  {
  }

  lemma PackableInTable(c6: string)
    requires Packable(c6)
    ensures InTable(c6)
  {
    hide Nchar;
    forall i | 0 <= i < 6 ensures Nchar(c6[i], AlphanumSpaceSlash) >= 0 {
      LetterInTable(c6[i]);
    }
  }

  /** Every character of a standard base call can be hashed. */
  lemma BaseInTable(b: string)
    requires |b| > 2 && Packable(C6(b))
    ensures InTable(b) && |b| <= 7
  {
    PackableInTable(C6(b));
    hide Packable;
    var c6 := C6(b);
    assert Nchar('3', AlphanumSpaceSlash) >= 0 && Nchar('D', AlphanumSpaceSlash) >= 0 && Nchar('A', AlphanumSpaceSlash) >= 0
        && Nchar('0', AlphanumSpaceSlash) >= 0 && Nchar('X', AlphanumSpaceSlash) >= 0;
    hide Nchar;
    if StartsWith(b, "3DA0") && 4 < |b| <= 7 {
      assert b == "3DA0" + b[4..];
      assert forall i :: 4 <= i < |b| ==> b[i] == c6[i - 1];
    } else if StartsWith(b, "3X") && IsLetter(b[2]) && |b| <= 7 {
      assert b == "3X" + b[2..];
      assert forall i :: 2 <= i < |b| ==> b[i] == c6[i - 1];
    } else if IsDigit(b[2]) && |b| <= 6 {
      assert forall i :: 0 <= i < |b| ==> b[i] == c6[i];
    } else if IsDigit(b[1]) && |b| <= 5 {
      assert forall i :: 0 <= i < |b| ==> b[i] == c6[i + 1];
    } else {
      BlankNotPackable(c6);
    }
  }

  lemma BlankNotPackable(c6: string)
    requires c6 == Padded("")
    ensures !Packable(c6)
  {
    NothingPacked();
  }

  lemma SuffixInTable(call: string)
    requires InTable(BaseOf(call))
    ensures InTable(call)
  {
    assert Nchar('/', AlphanumSpaceSlash) >= 0 && Nchar('P', AlphanumSpaceSlash) >= 0 && Nchar('R', AlphanumSpaceSlash) >= 0;
    hide Nchar;
    if Suffixed(call) {
      var s := call[|call| - 2..];
      assert call == BaseOf(call) + s;
      assert s == "/P" || s == "/R";
      assert s[0] == '/' && (s[1] == 'P' || s[1] == 'R');
    }
  }

  /** Every standard call has a field below 2^28, and comes back from it, suffix included. */
  lemma CallRoundTrip(call: string, i3: nat, lookup: nat -> string)
    requires StandardCall(call)
    requires EndsWith(call, "/R") ==> i3 == 1
    requires EndsWith(call, "/P") ==> i3 == 2
    ensures Pack28(call).Some?
    ensures var f := Pack28(call).value;
            f.n28 < 0x1000_0000 && Unpack28(f.n28, f.ip, i3, lookup) == Some(call)
  {
    hide Packable, C6, Unnumber, Number, BaseText, Trim, Nchar, Alias;
    if call != "DE" && call != "QRZ" && call != "CQ" {
      var b := BaseOf(call);
      BaseInTable(b);
      SuffixInTable(call);
      BaseRoundTrip(b);
      UnnumberNumber(C6(b));
      NotReserved(call);
      assert Suffixed(call) ==> call == b + call[|call| - 2..];
    }
  }

  lemma NotReserved(call: string)
    requires InTable(call)
    ensures !StartsWith(call, "CQ_")
  {
    assert Nchar('_', AlphanumSpaceSlash) < 0;
    if |call| > 2 {
      assert call[2] != '_';
      assert call[..3][2] == call[2];
    }
  }

  // ---------- The grid or report field ----------

  predicate IsGrid(s: string) {
    'A' <= At(s, 0) <= 'R' && 'A' <= At(s, 1) <= 'R' && IsDigit(At(s, 2)) && IsDigit(At(s, 3))
  }

  function U16(x: int): (u: nat)
    ensures u < 0x1_0000
  {
    x % 0x1_0000
  }

  function GridNumber(s: string): (g: nat)
    requires IsGrid(s)
    ensures g < MAXGRID4
  {
    (((s[0] as int - 'A' as int) * 18 + (s[1] as int - 'A' as int)) * 10 + (s[2] as int - '0' as int)) * 10
      + (s[3] as int - '0' as int)
  }

  /** Nothing, a closing word, a grid square, or a report; the top bit says that an R came first. */
  function PackGrid(extra: string): (g: nat)
    ensures g < 0x1_0000
  {
    if extra == "" then MAXGRID4 + 1
    else if extra == "RRR" then MAXGRID4 + 2
    else if extra == "RR73" then MAXGRID4 + 3
    else if extra == "73" then MAXGRID4 + 4
    else if IsGrid(extra) then GridNumber(extra)
    else if extra[0] == 'R' then
      var g := U16(MAXGRID4 + U16(35 + DdValue(extra[1..], 3)));
      if g >= 0x8000 then g else g + 0x8000
    else U16(MAXGRID4 + U16(35 + DdValue(extra, 3)))
  }

  function UnpackGrid(igrid4: nat, ir: nat): string {
    if igrid4 <= MAXGRID4 then
      (if ir > 0 then "R " else "")
        + [('A' as int + igrid4 / 10 / 10 / 18 % 18) as char, ('A' as int + igrid4 / 10 / 10 % 18) as char,
           DigitChar(igrid4 / 10 % 10), DigitChar(igrid4 % 10)]
    else
      var irpt := igrid4 - MAXGRID4;
      if irpt == 1 then ""
      else if irpt == 2 then "RRR"
      else if irpt == 3 then "RR73"
      else if irpt == 4 then "73"
      else (if ir > 0 then "R" else "") + DdText(irpt - 35, 2, true)
  }

  /** A report as it is sent: an optional R, a sign and two digits. */
  function ReportText(r: bool, dd: int): string {
    (if r then "R" else "") + DdText(dd, 2, true)
  }

  ghost predicate StandardExtra(extra: string) {
    extra == "" || extra == "RRR" || extra == "RR73" || extra == "73"
    || (|extra| == 4 && IsGrid(extra))
    || exists r: bool, dd: int :: -30 <= dd <= 99 && extra == ReportText(r, dd)
  }

  lemma GridSquareRoundTrip(s: string)
    requires |s| == 4 && IsGrid(s)
    ensures UnpackGrid(GridNumber(s), 0) == s
  {
    var a, b, c, d := s[0] as int - 'A' as int, s[1] as int - 'A' as int, s[2] as int - '0' as int, s[3] as int - '0' as int;
    var g := GridNumber(s);
    assert g / 10 == (a * 18 + b) * 10 + c && g / 10 / 10 == a * 18 + b;
    assert g % 10 == d && g / 10 % 10 == c && g / 10 / 10 % 18 == b && g / 10 / 10 / 18 % 18 == a;
    var r := UnpackGrid(g, 0);
    assert r[0] == s[0] && r[1] == s[1] && r[2] == s[2] && r[3] == s[3];
  }

  lemma ReportField(s: string, r: bool, dd: int)
    requires -30 <= dd <= 99 && s != "" && s != "RRR" && s != "RR73" && s != "73" && !IsGrid(s)
    requires r ==> s[0] == 'R' && DdValue(s[1..], 3) == dd
    requires !r ==> s[0] != 'R' && DdValue(s, 3) == dd
    ensures PackGrid(s) == (if r then 0x8000 else 0) + MAXGRID4 + 35 + dd
  {
    hide DdValue, IsGrid;
    assert U16(35 + dd) == 35 + dd && U16(MAXGRID4 + 35 + dd) == MAXGRID4 + 35 + dd;
  }

  lemma ReportPacks(r: bool, dd: int)
    requires -30 <= dd <= 99
    ensures PackGrid(ReportText(r, dd)) == (if r then 0x8000 else 0) + MAXGRID4 + 35 + dd
  {
    hide DdText, DdValue, PackGrid, IsGrid;
    DdRoundTrip(dd);
    var t, s := DdText(dd, 2, true), ReportText(r, dd);
    if r {
      assert s[0] == 'R' && s[1..] == t && s[1] == t[0];
    } else {
      assert s == t;
    }
    NotSpecial(s, if r then 1 else 0);
    ReportField(s, r, dd);
  }

  /** A sign in the first or second place tells a report from everything else. */
  lemma NotSpecial(s: string, i: nat)
    requires i < 2 && i < |s| && (s[i] == '+' || s[i] == '-')
    ensures s != "" && s != "RRR" && s != "RR73" && s != "73" && !IsGrid(s)
  {
  }

  lemma ReportUnpacks(r: bool, dd: int)
    requires -30 <= dd <= 99
    ensures UnpackGrid(MAXGRID4 + 35 + dd, if r then 1 else 0) == ReportText(r, dd)
  {
    hide DdText;
  }

  lemma ReportRoundTrip(r: bool, dd: int)
    requires -30 <= dd <= 99
    ensures var g := PackGrid(ReportText(r, dd)); UnpackGrid(g % 0x8000, g / 0x8000) == ReportText(r, dd)
  {
    hide PackGrid, UnpackGrid, ReportText;
    ReportPacks(r, dd);
    ReportUnpacks(r, dd);
    var v := MAXGRID4 + 35 + dd;
    assert v % 0x8000 == v && v / 0x8000 == 0;
    assert (0x8000 + v) % 0x8000 == v && (0x8000 + v) / 0x8000 == 1;
  }

  /** The third part of a standard message comes back from its field. */
  lemma GridRoundTrip(extra: string)
    requires StandardExtra(extra)
    ensures var g := PackGrid(extra); g < 0x1_0000 && UnpackGrid(g % 0x8000, g / 0x8000) == extra
  {
    hide PackGrid, UnpackGrid, ReportText, IsGrid;
    if extra == "" || extra == "RRR" || extra == "RR73" || extra == "73" {
      ClosingRoundTrip(extra);
    } else if |extra| == 4 && IsGrid(extra) {
      SquareRoundTrip(extra);
    } else {
      var r: bool, dd: int :| -30 <= dd <= 99 && extra == ReportText(r, dd);
      ReportRoundTrip(r, dd);
    }
  }

  lemma ClosingRoundTrip(extra: string)
    requires extra == "" || extra == "RRR" || extra == "RR73" || extra == "73"
    ensures var g := PackGrid(extra); UnpackGrid(g % 0x8000, g / 0x8000) == extra
  {
    hide IsGrid, DdText, DdValue;
  }

  lemma SquareRoundTrip(s: string)
    requires |s| == 4 && IsGrid(s) && s != "RR73"
    ensures var g := PackGrid(s); UnpackGrid(g % 0x8000, g / 0x8000) == s
  {
    GridSquareRoundTrip(s);
    hide UnpackGrid, IsGrid, DdValue, GridNumber;
    assert |s| == 4 && PackGrid(s) == GridNumber(s);
  }

  // ---------- The 77 bits ----------

  /** Two 29-bit call fields, the 16-bit report field and the 3-bit type. */
  datatype Fields = Fields(n29a: nat, n29b: nat, igrid4: nat, i3: nat) {
    predicate Valid() {
      n29a < 0x2000_0000 && n29b < 0x2000_0000 && igrid4 < 0x1_0000 && i3 < 8
    }
  }

  function Byte(x: nat): (b: nat)
    ensures b < 256
  {
    x % 256
  }

  /** The ten bytes that carry the fields; neighbouring fields share bytes without overlap. */
  function Bytes(f: Fields): (p: seq<nat>)
    requires f.Valid()
    ensures |p| == 10
  {
    [Byte(f.n29a / 0x20_0000), Byte(f.n29a / 0x2000), Byte(f.n29a / 0x20),
     Byte(f.n29a * 8) + Byte(f.n29b / 0x400_0000),
     Byte(f.n29b / 0x4_0000), Byte(f.n29b / 0x400), Byte(f.n29b / 4),
     Byte(f.n29b * 64) + Byte(f.igrid4 / 0x400),
     Byte(f.igrid4 / 4),
     Byte(f.igrid4 * 64) + Byte(f.i3 * 8)]
  }

  /** The fields that ten bytes carry; the report field's top bit is ir. */
  function FieldsOf(p: seq<nat>): Fields
    requires |p| == 10
  {
    Fields(p[0] * 0x20_0000 + p[1] * 0x2000 + p[2] * 0x20 + p[3] / 8,
           p[3] % 8 * 0x400_0000 + p[4] * 0x4_0000 + p[5] * 0x400 + p[6] * 4 + p[7] / 64,
           p[7] / 0x20 % 2 * 0x8000 + p[7] % 0x20 * 0x400 + p[8] * 4 + p[9] / 64,
           p[9] / 8 % 8)
  }

  /** Packing the fields into bytes loses nothing. */
  lemma BytesRoundTrip(f: Fields)
    requires f.Valid()
    ensures FieldsOf(Bytes(f)) == f
  {
    hide Byte;
    FirstCallBytes(f.n29a, f.n29b);
    SecondCallBytes(f.n29a, f.n29b, f.igrid4);
    GridBytes(f.n29b, f.igrid4, f.i3);
  }

  lemma FirstCallBytes(a: nat, b: nat)
    requires a < 0x2000_0000 && b < 0x2000_0000
    ensures Byte(a / 0x20_0000) * 0x20_0000 + Byte(a / 0x2000) * 0x2000 + Byte(a / 0x20) * 0x20
              + (Byte(a * 8) + Byte(b / 0x400_0000)) / 8 == a
  {
    SharedByte8(a, b / 0x400_0000);
    assert a / 0x2000 / 0x100 == a / 0x20_0000 && a / 0x20 / 0x100 == a / 0x2000;
  }

  /** A byte shared by the low five bits of one field and the high three of the next. */
  lemma SharedByte8(x: nat, high: nat)
    requires high < 8
    ensures var p := Byte(x * 8) + Byte(high);
            p / 8 == x % 32 && p % 8 == high
  {
    var q, r := x / 32, x % 32;
    assert x * 8 == 256 * q + 8 * r;
    assert Byte(x * 8) == 8 * r;
  }

  /** A byte shared by the low two bits of one field and the high six of the next. */
  lemma SharedByte64(x: nat, high: nat)
    requires high < 64
    ensures var p := Byte(x * 64) + Byte(high);
            p / 64 == x % 4 && p % 64 == high
  {
    var q, r := x / 4, x % 4;
    assert x * 64 == 256 * q + 64 * r;
    assert Byte(x * 64) == 64 * r;
  }

  lemma SecondCallBytes(a: nat, b: nat, g: nat)
    requires a < 0x2000_0000 && b < 0x2000_0000 && g < 0x1_0000
    ensures (Byte(a * 8) + Byte(b / 0x400_0000)) % 8 * 0x400_0000 + Byte(b / 0x4_0000) * 0x4_0000
              + Byte(b / 0x400) * 0x400 + Byte(b / 4) * 4 + (Byte(b * 64) + Byte(g / 0x400)) / 64 == b
  {
    SharedByte8(a, b / 0x400_0000);
    SharedByte64(b, g / 0x400);
    assert b / 0x4_0000 / 0x100 == b / 0x400_0000 && b / 0x400 / 0x100 == b / 0x4_0000 && b / 4 / 0x100 == b / 0x400;
  }

  lemma GridBytes(b: nat, g: nat, i3: nat)
    requires b < 0x2000_0000 && g < 0x1_0000 && i3 < 8
    ensures var p7, p9 := Byte(b * 64) + Byte(g / 0x400), Byte(g * 64) + Byte(i3 * 8);
            && p7 / 0x20 % 2 * 0x8000 + p7 % 0x20 * 0x400 + Byte(g / 4) * 4 + p9 / 64 == g
            && p9 / 8 % 8 == i3
  {
    SharedByte64(b, g / 0x400);
    SharedByte64(g, i3 * 8);
    var p7, p9 := Byte(b * 64) + Byte(g / 0x400), Byte(g * 64) + Byte(i3 * 8);
    LowSixBits(p7);
    LowSixBits(p9);
    hide Byte;
    assert g / 4 / 0x100 == g / 0x400 by { QuarterSteps(g); }
    assert Byte(g / 4) == g / 4 % 256 by { ByteIs(g / 4); }
  }

  lemma LowSixBits(p: nat)
    ensures p / 0x20 % 2 == p % 64 / 0x20 && p % 0x20 == p % 64 % 0x20 && p / 8 % 8 == p % 64 / 8
  {
    var q, r := p / 64, p % 64;
    assert p == 64 * q + r;
    assert p / 32 == 2 * q + r / 32;
    assert p / 8 == 8 * q + r / 8;
  }

  lemma QuarterSteps(g: nat)
    ensures g / 4 / 0x100 == g / 0x400
  {
  }

  lemma ByteIs(x: nat)
    ensures Byte(x) == x % 256
  {
  }

  // ---------- Whole messages ----------

  datatype Rc = Ok | ErrorCallsign1 | ErrorCallsign2 | ErrorSuffix | ErrorGrid

  /** The fields of a message, or why there are none. */
  datatype Packed = Packed(fields: Fields) | Refused(rc: Rc)

  function WithFlag(n28: nat, ip: nat, forced: bool): (n29: nat)
    requires n28 < 0x1000_0000 && ip <= 1
    ensures n29 < 0x2000_0000 && n29 / 2 == n28 && (n29 % 2 == 1 <==> ip == 1 || forced)
  {
    n28 * 2 + if forced then 1 else ip
  }

  function TypeOf(callTo: string, callDe: string): nat {
    if EndsWith(callTo, "/P") || EndsWith(callDe, "/P") then 2 else 1
  }

  function PackMessage(callTo: string, callDe: string, extra: string): (r: Packed)
    ensures r.Packed? ==> r.fields.Valid()
  {
    var a, b := Pack28(callTo), Pack28(callDe);
    if a.None? then Refused(ErrorCallsign1)
    else if b.None? then Refused(ErrorCallsign2)
    else if TypeOf(callTo, callDe) == 2 && (EndsWith(callTo, "/R") || EndsWith(callDe, "/R")) then Refused(ErrorSuffix)
    else Packed(Fields(WithFlag(a.value.n28, a.value.ip, Suffixed(callTo)), WithFlag(b.value.n28, b.value.ip, false),
                       PackGrid(extra), TypeOf(callTo, callDe)))
  }

  datatype Unpacked = Unpacked(callTo: string, callDe: string, extra: string) | Unreadable(rc: Rc)

  function UnpackMessage(f: Fields, lookup: nat -> string): Unpacked {
    var to, de := Unpack28(f.n29a / 2, f.n29a % 2, f.i3, lookup), Unpack28(f.n29b / 2, f.n29b % 2, f.i3, lookup);
    if to.None? then Unreadable(ErrorCallsign1)
    else if de.None? then Unreadable(ErrorCallsign2)
    else Unpacked(to.value, de.value, UnpackGrid(f.igrid4 % 0x8000, f.igrid4 / 0x8000))
  }

  /** Two standard calls that do not mix /P with /R, and a standard third part. */
  ghost predicate StandardMessage(callTo: string, callDe: string, extra: string) {
    && StandardCall(callTo) && StandardCall(callDe) && StandardExtra(extra)
    && !((EndsWith(callTo, "/P") || EndsWith(callDe, "/P")) && (EndsWith(callTo, "/R") || EndsWith(callDe, "/R")))
  }

  /** A standard message comes back from its fields as it was. */
  lemma MessageRoundTrip(callTo: string, callDe: string, extra: string, lookup: nat -> string)
    requires StandardMessage(callTo, callDe, extra)
    ensures var r := PackMessage(callTo, callDe, extra);
            && r.Packed? && r.fields.n29a / 2 < 0x1000_0000 && r.fields.n29b / 2 < 0x1000_0000
            && UnpackMessage(FieldsOf(Bytes(r.fields)), lookup) == Unpacked(callTo, callDe, extra)
  {
    hide StandardCall, StandardExtra, Unpack28, PackGrid, UnpackGrid, Bytes, FieldsOf, EndsWith;
    var i3 := TypeOf(callTo, callDe);
    CallRoundTrip(callTo, i3, lookup);
    CallRoundTrip(callDe, i3, lookup);
    FlagIsSuffix(callTo);
    GridRoundTrip(extra);
    BytesRoundTrip(PackMessage(callTo, callDe, extra).fields);
  }

  lemma FlagIsSuffix(call: string)
    requires StandardCall(call)
    ensures Pack28(call).Some? ==> (Pack28(call).value.ip == 1 <==> Suffixed(call))
  {
    hide Packable, C6, Number, Nchar, Alias;
    if call != "DE" && call != "QRZ" && call != "CQ" {
      assert PackBasecall(BaseOf(call)) >= 0;
    }
  }

  // ---------- The packer and the unpacker ----------

  /** The ten payload bytes of a message. */
  class Payload {
    var bytes: seq<nat>

    constructor ()
      ensures |bytes| == 10
    {
      bytes := seq(10, _ => 0);
    }
  }

  /** The number with its lowest bit set. */
  function SetLow(n: nat): nat {
    if n % 2 == 0 then n + 1 else n
  }

  lemma SetLowFlag(n28: nat, ip: nat)
    requires ip <= 1
    ensures SetLow(n28 * 2 + ip) == n28 * 2 + 1
  {
  }

  /** The payload carries this standard message. */
  ghost predicate Carries(p: seq<nat>, callTo: string, callDe: string, extra: string) {
    && StandardMessage(callTo, callDe, extra)
    && PackMessage(callTo, callDe, extra).Packed?
    && p == Bytes(PackMessage(callTo, callDe, extra).fields)
  }

  lemma CarriedComesBack(p: seq<nat>, callTo: string, callDe: string, extra: string, lookup: nat -> string)
    requires |p| == 10 && Carries(p, callTo, callDe, extra)
    ensures UnpackMessage(FieldsOf(p), lookup) == Unpacked(callTo, callDe, extra)
  {
    hide StandardMessage, PackMessage, UnpackMessage, FieldsOf, Bytes;
    MessageRoundTrip(callTo, callDe, extra, lookup);
  }

  /** Pack a standard message into the payload, or refuse it and leave the payload alone. */
  method EncodeStd(msg: Payload, callTo: string, callDe: string, extra: string) returns (rc: Rc)
    requires |msg.bytes| == 10
    modifies msg
    ensures PackMessage(callTo, callDe, extra).Packed?
        ==> rc == Ok && msg.bytes == Bytes(PackMessage(callTo, callDe, extra).fields)
    ensures PackMessage(callTo, callDe, extra).Refused?
        ==> rc == PackMessage(callTo, callDe, extra).rc && rc != Ok && msg.bytes == old(msg.bytes)
    ensures StandardMessage(callTo, callDe, extra) ==> rc == Ok && Carries(msg.bytes, callTo, callDe, extra)
  {
    if StandardMessage(callTo, callDe, extra) {
      MessageRoundTrip(callTo, callDe, extra, _ => "");
    }
    rc := PackInto(msg, callTo, callDe, extra);
  }

  method PackInto(msg: Payload, callTo: string, callDe: string, extra: string) returns (rc: Rc)
    requires |msg.bytes| == 10
    modifies msg
    ensures PackMessage(callTo, callDe, extra).Packed?
        ==> rc == Ok && msg.bytes == Bytes(PackMessage(callTo, callDe, extra).fields)
    ensures PackMessage(callTo, callDe, extra).Refused?
        ==> rc == PackMessage(callTo, callDe, extra).rc && rc != Ok && msg.bytes == old(msg.bytes)
  {
    hide Pack28, PackGrid, EndsWith;
    var a := Pack28(callTo);
    var b := Pack28(callDe);
    if a.None? {
      return ErrorCallsign1;
    }
    if b.None? {
      return ErrorCallsign2;
    }
    var i3 := 1;
    if EndsWith(callTo, "/P") || EndsWith(callDe, "/P") {
      i3 := 2;
      if EndsWith(callTo, "/R") || EndsWith(callDe, "/R") {
        return ErrorSuffix;
      }
    }
    var n29a, n29b, i3' := Flagged(callTo, a.value, b.value, i3);
    hide Bytes, WithFlag;
    WritePayload(msg, n29a, n29b, PackGrid(extra), i3');
    return Ok;
  }

  /** Shift in the suffix flags. */
  method Flagged(callTo: string, a: CallField, b: CallField, i3: nat) returns (n29a: nat, n29b: nat, i3': nat)
    requires a.n28 < 0x1000_0000 && a.ip <= 1 && b.n28 < 0x1000_0000 && b.ip <= 1
    ensures n29a == WithFlag(a.n28, a.ip, Suffixed(callTo)) && n29b == WithFlag(b.n28, b.ip, false)
    ensures i3' == if EndsWith(callTo, "/P") && !EndsWith(callTo, "/R") then 2 else i3
  {
    hide EndsWith, SetLow;
    SetLowFlag(a.n28, a.ip);
    n29a, n29b, i3' := a.n28 * 2 + a.ip, b.n28 * 2 + b.ip, i3;
    if EndsWith(callTo, "/R") {
      n29a := SetLow(n29a);
    } else if EndsWith(callTo, "/P") {
      n29a := SetLow(n29a);
      i3' := 2;
    }
  }

  method WritePayload(msg: Payload, n29a: nat, n29b: nat, igrid4: nat, i3: nat)
    requires |msg.bytes| == 10 && Fields(n29a, n29b, igrid4, i3).Valid()
    modifies msg
    ensures msg.bytes == Bytes(Fields(n29a, n29b, igrid4, i3))
  {
    hide Byte;
    msg.bytes := msg.bytes[0 := Byte(n29a / 0x20_0000)];
    msg.bytes := msg.bytes[1 := Byte(n29a / 0x2000)];
    msg.bytes := msg.bytes[2 := Byte(n29a / 0x20)];
    msg.bytes := msg.bytes[3 := Byte(n29a * 8) + Byte(n29b / 0x400_0000)];
    msg.bytes := msg.bytes[4 := Byte(n29b / 0x4_0000)];
    msg.bytes := msg.bytes[5 := Byte(n29b / 0x400)];
    msg.bytes := msg.bytes[6 := Byte(n29b / 4)];
    msg.bytes := msg.bytes[7 := Byte(n29b * 64) + Byte(igrid4 / 0x400)];
    msg.bytes := msg.bytes[8 := Byte(igrid4 / 4)];
    msg.bytes := msg.bytes[9 := Byte(igrid4 * 64) + Byte(i3 * 8)];
  }

  /** Four letters or spaces, filled in from the last. */
  method SpellFour(n: nat) returns (s: string)
    ensures s == FourLetters(n)
  {
    hide Charn;
    s := "    ";
    var v, i := n, 3;
    while true
      invariant 0 <= i <= 3 && |s| == 4
      invariant v == if i == 3 then n else if i == 2 then n / 27 else if i == 1 then n / 27 / 27 else n / 27 / 27 / 27
      invariant forall j :: i < j < 4 ==> s[j] == FourLetters(n)[j]
      decreases i
    {
      s := s[i := Charn(v % 27, LettersSpace)];
      if i == 0 {
        break;
      }
      v := v / 27;
      i := i - 1;
    }
    assert s[0] == FourLetters(n)[0];
  }

  /** The text of a base-call number. */
  method SpellBase(n: nat) returns (result: string)
    ensures result == BaseText(Unnumber(n))
  {
    hide Charn, Trim;
    var c6 := Unnumber(n);
    if StartsWith(c6, "3D0") && c6[3] != ' ' {
      var t := TrimCopy(c6[3..]);
      result := "3DA0" + t;
    } else if c6[0] == 'Q' && IsLetter(c6[1]) {
      var t := TrimCopy(c6[1..]);
      result := "3X" + t;
    } else {
      result := TrimCopy(c6);
    }
  }

  method UnpackCall(n28: nat, ip: nat, i3: nat, lookup: nat -> string) returns (r: Option<string>)
    ensures r == Unpack28(n28, ip, i3, lookup)
  {
    hide DdText, FourLetters, BaseText, Unnumber;
    if n28 < NTOKENS {
      if n28 <= 2 {
        return Some(if n28 == 0 then "DE" else if n28 == 1 then "QRZ" else "CQ");
      }
      if n28 <= 1002 {
        var t := IntToDd(n28 - 3, 3, false);
        return Some("CQ " + t);
      }
      if n28 <= 532443 {
        var t := SpellFour(n28 - 1003);
        return Some("CQ " + TrimFront(t));
      }
      return None;
    }
    var n := n28 - NTOKENS;
    if n < MAX22 {
      return Some(lookup(n));
    }
    var result := SpellBase(n - MAX22);
    if |result| < 3 {
      return None;
    }
    if ip != 0 {
      if i3 == 1 {
        result := result + "/R";
      } else if i3 == 2 {
        result := result + "/P";
      } else {
        return None;
      }
    }
    return Some(result);
  }

  /** Unpack the payload; a standard message that was packed into it comes out again. */
  method DecodeStd(msg: Payload, lookup: nat -> string) returns (u: Unpacked)
    requires |msg.bytes| == 10
    ensures u == UnpackMessage(FieldsOf(msg.bytes), lookup)
    ensures forall callTo: string, callDe: string, extra: string :: Carries(msg.bytes, callTo, callDe, extra)
              ==> u == Unpacked(callTo, callDe, extra)
  {
    hide Unpack28, UnpackGrid, Carries;
    forall callTo: string, callDe: string, extra: string | Carries(msg.bytes, callTo, callDe, extra)
      ensures UnpackMessage(FieldsOf(msg.bytes), lookup) == Unpacked(callTo, callDe, extra)
    {
      CarriedComesBack(msg.bytes, callTo, callDe, extra, lookup);
    }
    var f := FieldsOf(msg.bytes);
    hide FieldsOf;
    var to := UnpackCall(f.n29a / 2, f.n29a % 2, f.i3, lookup);
    if to.None? {
      return Unreadable(ErrorCallsign1);
    }
    var de := UnpackCall(f.n29b / 2, f.n29b % 2, f.i3, lookup);
    if de.None? {
      return Unreadable(ErrorCallsign2);
    }
    return Unpacked(to.value, de.value, UnpackGrid(f.igrid4 % 0x8000, f.igrid4 / 0x8000));
  }
}
