/** Characters, their tables, and the small text conversions of the message packer. */
module Text {

  predicate IsDigit(c: char) {
    '0' <= c <= '9'
  }

  predicate IsLetter(c: char) {
    'A' <= c <= 'Z' || 'a' <= c <= 'z'
  }

  predicate StartsWith(s: string, p: string) {
    |p| <= |s| && s[..|p|] == p
  }

  predicate EndsWith(s: string, p: string) {
    |p| <= |s| && s[|s| - |p|..] == p
  }

  // ---------- Character tables ----------

  datatype Table = Full | AlphanumSpaceSlash | AlphanumSpace | LettersSpace | Alphanum | Numeric {
    predicate HasSpace() {
      !Alphanum? && !Numeric?
    }

    predicate HasDigits() {
      !LettersSpace?
    }

    predicate HasLetters() {
      !Numeric?
    }

    function Size(): nat {
      match this
      case Full => 42
      case AlphanumSpaceSlash => 38
      case AlphanumSpace => 37
      case LettersSpace => 27
      case Alphanum => 36
      case Numeric => 10
    }
  }

  /** The character with this index in a table. */
  function Charn(index: nat, t: Table): char {
    if t.HasSpace() && index == 0 then ' '
    else
      var c := if t.HasSpace() then index - 1 else index;
      if t.HasDigits() && c < 10 then ('0' as int + c) as char
      else
        var d := if t.HasDigits() then c - 10 else c;
        if t.HasLetters() && d < 26 then ('A' as int + d) as char
        else
          var e := if t.HasLetters() then d - 26 else d;
          if t.Full? && e < 5 then "+-./?"[e]
          else if t.AlphanumSpaceSlash? && e == 0 then '/'
          else '_'
  }

  /** The index of a character in a table, or -1. */
  function Nchar(c: char, t: Table): int {
    if t.HasSpace() && c == ' ' then 0
    else
      var n := if t.HasSpace() then 1 else 0;
      if t.HasDigits() && IsDigit(c) then n + (c as int - '0' as int)
      else
        var m := if t.HasDigits() then n + 10 else n;
        if t.HasLetters() && 'A' <= c <= 'Z' then m + (c as int - 'A' as int)
        else
          var k := if t.HasLetters() then m + 26 else m;
          if t.Full? then
            if c == '+' then k else if c == '-' then k + 1 else if c == '.' then k + 2
            else if c == '/' then k + 3 else if c == '?' then k + 4 else -1
          else if t.AlphanumSpaceSlash? && c == '/' then k
          else -1
  }

  /** Index and character are inverse to each other, and the indices are 0..size-1. */
  lemma TablesInverse(c: char, t: Table)
    ensures Nchar(c, t) >= 0 ==> Nchar(c, t) < t.Size() && Charn(Nchar(c, t), t) == c
  {
  }

  lemma TablesOnto(n: nat, t: Table)
    requires n < t.Size()
    ensures Nchar(Charn(n, t), t) == n
  {
  }

  // ---------- Trimming ----------

  function TrimFront(s: string): (r: string)
    ensures |r| <= |s| && (r != "" ==> r[0] != ' ')
  {
    if s != "" && s[0] == ' ' then TrimFront(s[1..]) else s
  }

  function TrimBack(s: string): (r: string)
    ensures |r| <= |s| && (r != "" ==> r[|r| - 1] != ' ')
  {
    if s != "" && s[|s| - 1] == ' ' then TrimBack(s[..|s| - 1]) else s
  }

  function Trim(s: string): string {
    TrimBack(TrimFront(s))
  }

  method TrimCopy(s: string) returns (trimmed: string)
    ensures trimmed == Trim(s)
  {
    var i := 0;
    assert s[0..] == s;
    while i < |s| && s[i] == ' '
      invariant 0 <= i <= |s| && TrimFront(s) == TrimFront(s[i..])
    {
      assert s[i..][1..] == s[i + 1..];
      i := i + 1;
    }
    var str := s[i..];
    var len := |str| - 1;
    assert str[..|str|] == str;
    while len >= 0 && str[len] == ' '
      invariant -1 <= len < |str| && TrimBack(str) == TrimBack(str[..len + 1])
    {
      assert str[..len + 1][..len] == str[..len];
      len := len - 1;
    }
    trimmed := str[..len + 1];
  }

  function Spaces(n: nat): (s: string)
    ensures |s| == n && forall i :: 0 <= i < n ==> s[i] == ' '
  {
    seq(n, _ => ' ')
  }

  lemma {:induction false} TrimBackPadding(s: string, n: nat)
    requires s != "" && s[|s| - 1] != ' '
    ensures TrimBack(s + Spaces(n)) == s
  {
    if n == 0 {
      assert s + Spaces(0) == s;
    } else {
      assert (s + Spaces(n))[..|s| + n - 1] == s + Spaces(n - 1);
      TrimBackPadding(s, n - 1);
    }
  }

  /** Trimming undoes padding of a text that neither begins nor ends with a space. */
  lemma TrimPadding(s: string, n: nat)
    requires s != "" && s[0] != ' ' && s[|s| - 1] != ' '
    ensures Trim(s + Spaces(n)) == s && Trim(" " + s + Spaces(n)) == s
  {
    TrimBackPadding(s, n);
    assert (" " + s + Spaces(n))[1..] == s + Spaces(n);
  }

  // ---------- Signed decimal numbers of fixed width ----------

  function Pow10(k: nat): (p: nat)
    ensures p >= 1
  {
    if k == 0 then 1 else 10 * Pow10(k - 1)
  }

  /** One digit as an eight-bit character; a value above nine runs on past '9'. */
  function DigitChar(d: nat): char {
    (('0' as int + d) % 256) as char
  }

  function DigitValue(c: char): (d: nat)
    requires IsDigit(c)
    ensures d < 10
  {
    c as int - '0' as int
  }

  lemma DigitsInverse(d: nat)
    requires d < 10
    ensures IsDigit(DigitChar(d)) && DigitValue(DigitChar(d)) == d
  {
  }

  function Quotient(v: nat, p: nat): nat
    requires p > 0
  {
    v / p
  }

  function Remainder(v: nat, p: nat): nat
    requires p > 0
  {
    v % p
  }

  lemma Division(v: nat, p: nat)
    requires p > 0
    ensures v - Quotient(v, p) * p == Remainder(v, p)
  {
  }

  /** The digits of v, highest first; the first one takes whatever does not fit. */
  function Decimal(v: nat, width: nat): string {
    if width == 0 then ""
    else [DigitChar(Quotient(v, Pow10(width - 1)))] + Decimal(Remainder(v, Pow10(width - 1)), width - 1)
  }

  function DdText(value: int, width: nat, fullSign: bool): string {
    if value < 0 then "-" + Decimal(-value, width)
    else (if fullSign then "+" else "") + Decimal(value, width)
  }

  method PowerOfTen(k: nat) returns (divisor: nat)
    ensures divisor == Pow10(k)
  {
    divisor := 1;
    var i := 0;
    while i < k
      invariant 0 <= i <= k && divisor == Pow10(i)
    {
      divisor := divisor * 10;
      i := i + 1;
    }
  }

  method IntToDd(value: int, width: nat, fullSign: bool) returns (s: string)
    requires width > 0
    ensures s == DdText(value, width, fullSign)
  {
    hide Quotient, Remainder;
    s := "";
    var v := value;
    if v < 0 {
      s := "-";
      v := -v;
    } else if fullSign {
      s := "+";
    }
    var divisor := PowerOfTen(width - 1);
    ghost var left := width;
    while divisor >= 1
      invariant 0 <= left <= width && v >= 0 && divisor == if left > 0 then Pow10(left - 1) else 0
      invariant s + Decimal(v, left) == DdText(value, width, fullSign)
      decreases left
    {
      var digit := Quotient(v, divisor);
      Division(v, divisor);
      s := s + [DigitChar(digit)];
      v := v - digit * divisor;
      divisor := divisor / 10;
      left := left - 1;
    }
  }

  /** The number spelled from position i on, stopping at the first other character. */
  function ParseDigits(s: string, i: nat, length: nat, acc: nat): nat
    decreases length - i
  {
    if i < length && i < |s| && IsDigit(s[i])
    then ParseDigits(s, i + 1, length, acc * 10 + DigitValue(s[i]))
    else acc
  }

  function DdValue(s: string, length: nat): int {
    if s != "" && s[0] == '-' then 0 - ParseDigits(s, 1, length, 0)
    else ParseDigits(s, if s != "" && s[0] == '+' then 1 else 0, length, 0)
  }

  method DdToInt(s: string, length: nat) returns (r: int)
    ensures r == DdValue(s, length)
  {
    var negative, i := false, 0;
    if s != "" && s[0] == '-' {
      negative, i := true, 1;
    } else if s != "" && s[0] == '+' {
      i := 1;
    }
    var result: nat := 0;
    ghost var start := i;
    while i < length && i < |s| && IsDigit(s[i])
      invariant ParseDigits(s, i, length, result) == ParseDigits(s, start, length, 0)
    {
      result := result * 10 + DigitValue(s[i]);
      i := i + 1;
    }
    return if negative then 0 - result else result;
  }

  /** Two signed digits read back as the number they were written from. */
  lemma DdRoundTrip(v: int)
    requires -99 <= v <= 99
    ensures |DdText(v, 2, true)| == 3 && DdValue(DdText(v, 2, true), 3) == v
    ensures DdText(v, 2, true)[0] == '+' || DdText(v, 2, true)[0] == '-'
  {
    var a := if v < 0 then -v else v;
    var s := DdText(v, 2, true);
    TwoDigits(a);
    DigitsInverse(a / 10);
    DigitsInverse(a % 10);
    assert s[1] == DigitChar(a / 10) && s[2] == DigitChar(a % 10);
    hide Decimal, DigitChar, DigitValue;
    assert ParseDigits(s, 3, 3, a) == a;
    assert ParseDigits(s, 2, 3, a / 10) == a;
    assert ParseDigits(s, 1, 3, 0) == a;
  }

  lemma TwoDigits(a: nat)
    requires a < 100
    ensures Decimal(a, 2) == [DigitChar(a / 10), DigitChar(a % 10)]
  {
    assert Pow10(0) == 1 && Pow10(1) == 10;
    assert Decimal(a % 10, 1) == [DigitChar(a % 10)] + Decimal(0, 0);
  }
}
