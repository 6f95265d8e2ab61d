/** Recognising amateur call signs in decoded text. */
module CallSigns {
  import opened Text

  predicate IsUpper(c: char) {
    'A' <= c <= 'Z'
  }

  /** A letter, up to two more characters, the area digit, and one to four letters. */
  ghost predicate CallShape(s: string) {
    && |s| <= 8 && (forall i :: 0 <= i < |s| ==> IsUpper(s[i]) || IsDigit(s[i]))
    && exists d ::
         && 1 <= d <= 3 && d < |s| - 1 && |s| - 1 - d <= 4
         && IsUpper(s[0]) && IsDigit(s[d])
         && forall i :: d < i < |s| ==> IsUpper(s[i])
  }

  method LooksLikeCall(s: string) returns (r: bool)
    ensures r <==> CallShape(s)
  {
    var n := |s|;
    if n < 3 || n > 8 {
      return false;
    }
    var lastDigit := -1;
    var i := 0;
    while i < n
      invariant 0 <= i <= n && -1 <= lastDigit < i
      invariant forall j :: 0 <= j < i ==> IsUpper(s[j]) || IsDigit(s[j])
      invariant lastDigit >= 0 ==> IsDigit(s[lastDigit])
      invariant forall j :: lastDigit < j < i ==> !IsDigit(s[j])
    {
      var c := s[i];
      if !IsUpper(c) && !IsDigit(c) {
        return false;
      }
      if IsDigit(c) {
        lastDigit := i;
      }
      i := i + 1;
    }
    if lastDigit < 1 || lastDigit > 3 {
      return false;
    }
    if !IsUpper(s[0]) {
      return false;
    }
    var suffix := n - 1 - lastDigit;
    if suffix < 1 || suffix > 4 {
      return false;
    }
    i := lastDigit + 1;
    while i < n
      invariant lastDigit < i <= n && forall j :: lastDigit < j < i ==> IsUpper(s[j])
    {
      if !IsUpper(s[i]) {
        return false;
      }
      i := i + 1;
    }
    return true;
  }

  /** The procedural prefixes that the decoder may run into a call. */
  const PREFIXES: seq<string> := ["CQ", "QRZ", "TEST", "DX"]

  /** Stripping prefix k leaves a call. */
  ghost predicate Strips(tok: string, k: nat)
    requires k < |PREFIXES|
  {
    |tok| > |PREFIXES[k]| && StartsWith(tok, PREFIXES[k]) && CallShape(tok[|PREFIXES[k]|..])
  }

  /** What a token yields: a stripped call before the token itself, and only ever a call or nothing. */
  ghost predicate Yields(tok: string, call: string) {
    if exists k :: 0 <= k < |PREFIXES| && Strips(tok, k)
    then exists k :: 0 <= k < |PREFIXES| && Strips(tok, k) && call == tok[|PREFIXES[k]|..]
                       && forall j :: 0 <= j < k ==> !Strips(tok, j)
    else call == if CallShape(tok) then tok else ""
  }

  method ExtractCall(tok: string) returns (call: string)
    ensures Yields(tok, call)
    ensures call != "" ==> CallShape(call)
  {
    hide CallShape;
    var k := 0;
    while k < |PREFIXES|
      invariant 0 <= k <= |PREFIXES| && forall j :: 0 <= j < k ==> !Strips(tok, j)
    {
      var p := PREFIXES[k];
      if |tok| > |p| && StartsWith(tok, p) {
        var rest := tok[|p|..];
        var valid := LooksLikeCall(rest);
        if valid {
          assert Strips(tok, k);
          return rest;
        }
      }
      k := k + 1;
    }
    var valid := LooksLikeCall(tok);
    return if valid then tok else "";
  }

  // ---------- Tokens ----------

  /** The maximal runs of characters other than the space. */
  function Tokens(txt: string): (ts: seq<string>)
    ensures forall t :: t in ts ==> t != "" && ' ' !in t
  {
    if txt == "" then []
    else
      var q := FindSpace(txt);
      var rest := if q == |txt| then [] else Tokens(txt[q + 1..]);
      if q > 0 then [txt[..q]] + rest else rest
  }

  function FindSpace(txt: string): (q: nat)
    ensures q <= |txt| && ' ' !in txt[..q] && (q < |txt| ==> txt[q] == ' ')
  {
    if txt == "" || txt[0] == ' ' then 0
    else
      assert txt[..1 + FindSpace(txt[1..])] == [txt[0]] + txt[1..][..FindSpace(txt[1..])];
      1 + FindSpace(txt[1..])
  }

  function Joined(ts: seq<string>): string {
    if ts == [] then "" else ts[0] + Joined(ts[1..])
  }

  function WithoutSpaces(txt: string): string {
    if txt == "" then "" else (if txt[0] == ' ' then "" else [txt[0]]) + WithoutSpaces(txt[1..])
  }

  lemma {:induction false} WithoutSpacesPrefix(txt: string, q: nat)
    requires q <= |txt| && ' ' !in txt[..q]
    ensures WithoutSpaces(txt) == txt[..q] + WithoutSpaces(txt[q..])
  {
    if q > 0 {
      assert txt[..q][0] == txt[0] && txt[..q][1..] == txt[1..][..q - 1] && txt[1..][q - 1..] == txt[q..];
      assert forall c :: c in txt[1..][..q - 1] ==> c in txt[..q];
      WithoutSpacesPrefix(txt[1..], q - 1);
      assert txt[..q] == [txt[0]] + txt[1..][..q - 1];
    } else {
      assert txt[0..] == txt;
    }
  }

  /** The first token, and the text after the space that ends it. */
  lemma TokensStep(txt: string, q: nat)
    requires q <= |txt| && ' ' !in txt[..q] && (q < |txt| ==> txt[q] == ' ')
    ensures Tokens(txt)
         == (if q > 0 then [txt[..q]] else []) + (if q < |txt| then Tokens(txt[q + 1..]) else [])
  {
    SpaceFound(txt, q);
  }

  lemma {:induction false} SpaceFound(txt: string, q: nat)
    requires q <= |txt| && ' ' !in txt[..q] && (q < |txt| ==> txt[q] == ' ')
    ensures FindSpace(txt) == q
  {
    if q > 0 {
      assert txt[..q] == [txt[0]] + txt[1..][..q - 1];
      SpaceFound(txt[1..], q - 1);
    }
  }

  lemma JoinedStep(t: string, ts: seq<string>)
    ensures Joined([t] + ts) == t + Joined(ts)
  {
    assert ([t] + ts)[1..] == ts;
  }

  /** Splitting loses nothing but the spaces. */
  lemma {:induction false} TokensKeepText(txt: string)
    ensures Joined(Tokens(txt)) == WithoutSpaces(txt)
  {
    if txt != "" {
      hide Tokens, FindSpace, Joined;
      var q := FindSpace(txt);
      TokensStep(txt, q);
      WithoutSpacesPrefix(txt, q);
      var rest := if q < |txt| then Tokens(txt[q + 1..]) else [];
      if q < |txt| {
        TokensKeepText(txt[q + 1..]);
        assert txt[q..][1..] == txt[q + 1..];
        assert WithoutSpaces(txt[q..]) == WithoutSpaces(txt[q + 1..]);
      } else {
        JoinedNothing();
      }
      assert Joined(rest) == WithoutSpaces(txt[q..]);
      if q > 0 {
        JoinedStep(txt[..q], rest);
      } else {
        assert [] + rest == rest && txt[0..] == txt;
      }
    }
  }

  lemma JoinedNothing()
    ensures Joined([]) == "" && WithoutSpaces("") == ""
  {
  }

  /** The next space at or after p, or the end. */
  method FindFrom(txt: string, p: nat) returns (end: nat)
    requires p <= |txt|
    ensures p <= end <= |txt| && ' ' !in txt[p..end] && (end < |txt| ==> txt[end] == ' ')
  {
    end := p;
    while end < |txt| && txt[end] != ' '
      invariant p <= end <= |txt| && ' ' !in txt[p..end]
    {
      assert txt[p..end + 1] == txt[p..end] + [txt[end]];
      end := end + 1;
    }
  }

  method Split(txt: string) returns (out: seq<string>)
    ensures out == Tokens(txt)
  {
    hide Tokens;
    out := [];
    var p := 0;
    assert txt[0..] == txt;
    while p < |txt|
      invariant 0 <= p <= |txt| && out + Tokens(txt[p..]) == Tokens(txt)
    {
      var end := FindFrom(txt, p);
      assert txt[p..][..end - p] == txt[p..end];
      assert end < |txt| ==> txt[p..][end - p + 1..] == txt[end + 1..];
      TokensStep(txt[p..], end - p);
      if end == |txt| {
        NoTokens();
        assert txt[|txt|..] == "";
      }
      if end > p {
        out := out + [txt[p..end]];
      }
      p := if end == |txt| then |txt| else end + 1;
    }
    NoTokens();
    assert txt[p..] == "";
  }

  lemma NoTokens()
    ensures Tokens("") == []
  {
  }
}
