/** The (s,c)-dense word code of JS8: base-9 continuation groups, a terminal group
    and a separator bit per word; and its decompressor. */
module Jsc {

  const S := 7
  const C := 9

  // ---------- The code ----------

  function Pow9(k: nat): (p: nat)
    ensures p >= 1
  {
    if k == 0 then 1 else C * Pow9(k - 1)
  }

  /** The first word index that needs k continuation groups. */
  function Base(k: nat): nat {
    if k == 0 then 0 else Base(k - 1) + S * Pow9(k - 1)
  }

  lemma {:induction false} BaseMonotone(k: nat, l: nat)
    requires k <= l
    ensures Base(k) <= Base(l)
    decreases l
  {
    if k < l {
      BaseMonotone(k, l - 1);
    }
  }

  /** The number of continuation groups of word x. */
  function Depth(x: nat): (k: nat)
    ensures Base(k) <= x < Base(k + 1)
  {
    DepthFrom(x, 0)
  }

  function DepthFrom(x: nat, k: nat): (d: nat)
    requires Base(k) <= x
    ensures Base(d) <= x < Base(d + 1)
    decreases x + 1 - Base(k)
  {
    if x < Base(k + 1) then k else DepthFrom(x, k + 1)
  }

  /** The k digits of j in base 9, highest first. */
  function Digits(j: nat, k: nat): (ds: seq<nat>)
    ensures |ds| == k && forall i :: 0 <= i < k ==> ds[i] < C
  {
    if k == 0 then [] else Digits(j / C, k - 1) + [j % C]
  }

  function Horner(ds: seq<nat>): nat {
    if ds == [] then 0 else Horner(ds[..|ds| - 1]) * C + ds[|ds| - 1]
  }

  lemma {:induction false} HornerDigits(j: nat, k: nat)
    requires j < Pow9(k)
    ensures Horner(Digits(j, k)) == j
  {
    if k > 0 {
      HornerDigits(j / C, k - 1);
      assert Digits(j, k)[..k - 1] == Digits(j / C, k - 1);
    }
  }

  lemma {:induction false} HornerPrefix(ds: seq<nat>, n: nat)
    requires n <= |ds|
    ensures Horner(ds[..n]) <= Horner(ds)
  {
    if n == |ds| {
      assert ds[..n] == ds;
    } else {
      HornerPrefix(ds[..|ds| - 1], n);
      assert ds[..|ds| - 1][..n] == ds[..n];
    }
  }

  /** One encoded word: its index in the dictionary, and whether a space follows. */
  datatype Word = Word(index: nat, space: bool)

  /** A group of four bits; a terminal group is followed by its separator bit. */
  datatype Group = Group(value: nat, sep: bool)

  /** Continuation digits of word x, and its terminal value. */
  function Continuation(x: nat): (ds: seq<nat>)
    ensures |ds| == Depth(x) && forall i :: 0 <= i < |ds| ==> ds[i] < C
  {
    Digits((x - Base(Depth(x))) / S, Depth(x))
  }

  function Terminal(x: nat): (t: nat)
    ensures t < S
  {
    (x - Base(Depth(x))) % S
  }

  function WordGroups(w: Word): (g: seq<Group>)
    ensures |g| == Depth(w.index) + 1
    ensures forall i :: 0 <= i < Depth(w.index) ==> g[i] == Group(Continuation(w.index)[i] + S, false)
    ensures g[Depth(w.index)] == Group(Terminal(w.index), w.space)
  {
    seq(Depth(w.index), i requires 0 <= i < Depth(w.index) => Group(Continuation(w.index)[i] + S, false))
      + [Group(Terminal(w.index), w.space)]
  }

  /** The value of a word's groups: where its depth starts, plus its place there. */
  lemma WordValue(x: nat)
    ensures x == Base(Depth(x)) + Horner(Continuation(x)) * S + Terminal(x)
  {
    HornerDigits((x - Base(Depth(x))) / S, Depth(x));
  }

  function Groups(ws: seq<Word>): seq<Group> {
    if ws == [] then [] else WordGroups(ws[0]) + Groups(ws[1..])
  }

  predicate ValidGroups(gs: seq<Group>) {
    forall i :: 0 <= i < |gs| ==> gs[i].value < 16 && (gs[i].sep ==> gs[i].value < S)
  }

  lemma {:induction false} GroupsValid(ws: seq<Word>)
    ensures ValidGroups(Groups(ws))
  {
    if ws != [] {
      GroupsValid(ws[1..]);
    }
  }

  function FourBits(g: nat): (b: seq<bool>)
    requires g < 16
    ensures |b| == 4
  {
    [g / 8 % 2 == 1, g / 4 % 2 == 1, g / 2 % 2 == 1, g % 2 == 1]
  }

  function GroupBits(g: Group): (b: seq<bool>)
    requires g.value < 16
    ensures |b| == if g.value < S then 5 else 4
    ensures b[..4] == FourBits(g.value)
  {
    FourBits(g.value) + if g.value < S then [g.sep] else []
  }

  function Bits(gs: seq<Group>): seq<bool>
    requires ValidGroups(gs)
  {
    if gs == [] then [] else GroupBits(gs[0]) + Bits(gs[1..])
  }

  /** The code of a list of words. */
  function Encode(ws: seq<Word>): seq<bool> {
    GroupsValid(ws);
    Bits(Groups(ws))
  }

  /** What a list of words says. */
  function Text(ws: seq<Word>, dict: seq<string>): string
    requires InDictionary(ws, dict)
  {
    if ws == [] then ""
    else
      var w := ws[|ws| - 1];
      Text(ws[..|ws| - 1], dict) + dict[w.index] + if w.space then " " else ""
  }

  predicate InDictionary(ws: seq<Word>, dict: seq<string>) {
    forall i :: 0 <= i < |ws| ==> ws[i].index < |dict|
  }

  // ---------- Distinct lists have distinct codes ----------

  lemma FourBitsInjective(g: nat, h: nat)
    requires g < 16 && h < 16 && FourBits(g) == FourBits(h)
    ensures g == h
  {
    var a, b := FourBits(g), FourBits(h);
    assert a[0] == b[0] && a[1] == b[1] && a[2] == b[2] && a[3] == b[3];
  }

  lemma {:induction false} BitsInjective(gs: seq<Group>, hs: seq<Group>)
    requires ValidGroups(gs) && ValidGroups(hs) && Bits(gs) == Bits(hs)
    ensures gs == hs
  {
    if gs != [] && hs != [] {
      var a, b := GroupBits(gs[0]), GroupBits(hs[0]);
      assert a[..4] == Bits(gs)[..4] == Bits(hs)[..4] == b[..4];
      FourBitsInjective(gs[0].value, hs[0].value);
      assert a == Bits(gs)[..|a|] == b;
      assert gs[0].value < S ==> a[4] == gs[0].sep && b[4] == hs[0].sep;
      assert Bits(gs[1..]) == Bits(gs)[|a|..] == Bits(hs[1..]);
      BitsInjective(gs[1..], hs[1..]);
    }
  }

  lemma TerminalPlace(w: Word, gs: seq<Group>)
    ensures var r := WordGroups(w) + gs;
            r[Depth(w.index)].value < S && forall i :: 0 <= i < Depth(w.index) ==> r[i].value >= S
  {
  }

  /** The terminal group ends a word, so the first word can be read off. */
  lemma FirstWord(w: Word, v: Word, gs: seq<Group>, hs: seq<Group>)
    requires WordGroups(w) + gs == WordGroups(v) + hs
    ensures w == v && gs == hs
  {
    var a, b := WordGroups(w), WordGroups(v);
    var k, l := Depth(w.index), Depth(v.index);
    TerminalPlace(w, gs);
    TerminalPlace(v, hs);
    if k < l {
      assert false;
    }
    if l < k {
      assert false;
    }
    assert a == (a + gs)[..k + 1] == b;
    assert gs == (a + gs)[k + 1..] == hs;
    forall i | 0 <= i < k ensures Continuation(w.index)[i] == Continuation(v.index)[i] {
      assert a[i] == b[i];
    }
    assert Continuation(w.index) == Continuation(v.index);
    WordValue(w.index);
    WordValue(v.index);
  }

  lemma {:induction false} GroupsInjective(ws: seq<Word>, vs: seq<Word>)
    requires Groups(ws) == Groups(vs)
    ensures ws == vs
  {
    if ws != [] && vs != [] {
      FirstWord(ws[0], vs[0], Groups(ws[1..]), Groups(vs[1..]));
      GroupsInjective(ws[1..], vs[1..]);
    }
  }

  /** The code is uniquely decodable. */
  lemma EncodeInjective(ws: seq<Word>, vs: seq<Word>)
    requires Encode(ws) == Encode(vs)
    ensures ws == vs
  {
    GroupsValid(ws);
    GroupsValid(vs);
    BitsInjective(Groups(ws), Groups(vs));
    GroupsInjective(ws, vs);
  }

  // ---------- The decompressor ----------

  /** The positions, among the first n groups, of those with a separator. */
  function Separators(gs: seq<Group>, n: nat): (seps: seq<nat>)
    requires n <= |gs|
    ensures |seps| <= n && forall i :: 0 <= i < |seps| ==> seps[i] < n
  {
    if n == 0 then [] else Separators(gs, n - 1) + if gs[n - 1].sep then [n - 1] else []
  }

  function Values(gs: seq<Group>): (v: seq<nat>)
    ensures |v| == |gs| && forall i :: 0 <= i < |gs| ==> v[i] == gs[i].value
  {
    seq(|gs|, i requires 0 <= i < |gs| => gs[i].value)
  }

  /** The groups that the bits from i on encode begin with group n. */
  lemma NextGroup(bits: seq<bool>, i: nat, gs: seq<Group>, n: nat)
    requires ValidGroups(gs) && i <= |bits| && n <= |gs| && bits[i..] == Bits(gs[n..])
    ensures i + 4 <= |bits| <==> n < |gs|
    ensures n < |gs| ==> bits[i..i + 4] == FourBits(gs[n].value)
    ensures n < |gs| && gs[n].value >= S ==> bits[i + 4..] == Bits(gs[n + 1..])
    ensures n < |gs| && gs[n].value < S ==> i + 5 <= |bits| && bits[i + 4] == gs[n].sep && bits[i + 5..] == Bits(gs[n + 1..])
  {
    if n < |gs| {
      var b := GroupBits(gs[n]);
      assert gs[n..][1..] == gs[n + 1..];
      assert bits[i..] == b + Bits(gs[n + 1..]);
      assert bits[i..i + 4] == bits[i..][..4] == b[..4];
      assert bits[i + |b|..] == bits[i..][|b|..] == Bits(gs[n + 1..]);
      assert gs[n].value < S ==> bits[i + 4] == bits[i..][4] == b[4];
    }
  }

  lemma GroupValue(b: seq<bool>, g: nat)
    requires g < 16 && |b| == 4 && b == FourBits(g)
    ensures g == (if b[0] then 8 else 0) + (if b[1] then 4 else 0) + (if b[2] then 2 else 0) + (if b[3] then 1 else 0)
  {
    assert b[0] == (g / 8 % 2 == 1) && b[1] == (g / 4 % 2 == 1) && b[2] == (g / 2 % 2 == 1) && b[3] == (g % 2 == 1);
  }

  /** Pass 1: cut the bits into groups and record where separators follow.  The
      ghost groups are any that the bits might encode. */
  method SplitGroups(bits: seq<bool>, ghost gs: seq<Group>) returns (grps: seq<nat>, seps: seq<nat>)
    requires ValidGroups(gs)
    ensures bits == Bits(gs) ==> grps == Values(gs) && seps == Separators(gs, |gs|)
    ensures forall i :: 0 <= i < |grps| ==> grps[i] < 16
  {
    hide Bits, GroupBits, FourBits;
    grps, seps := [], [];
    var i := 0;
    ghost var coded := bits == Bits(gs);
    assert bits[0..] == bits && gs[0..] == gs;
    while i + 4 <= |bits|
      invariant 0 <= i && (coded ==> i <= |bits| && |grps| <= |gs| && bits[i..] == Bits(gs[|grps|..]))
      invariant coded ==> grps == Values(gs)[..|grps|] && seps == Separators(gs, |grps|)
      invariant forall j :: 0 <= j < |grps| ==> grps[j] < 16
    {
      ghost var n := |grps|;
      if coded {
        NextGroup(bits, i, gs, n);
        GroupValue(bits[i..i + 4], gs[n].value);
      }
      var g := (if bits[i] then 8 else 0) + (if bits[i + 1] then 4 else 0) + (if bits[i + 2] then 2 else 0)
             + (if bits[i + 3] then 1 else 0);
      grps := grps + [g];
      i := i + 4;
      if g < S {
        if i < |bits| && bits[i] {
          seps := seps + [|grps| - 1];
        }
        i := i + 1;
      }
    }
    if coded {
      NextGroup(bits, i, gs, |grps|);
    }
  }

  /** The base offsets of the codeword depths. */
  method BaseOffsets() returns (base: seq<nat>)
    ensures |base| == 8 && forall k :: 0 <= k < 8 ==> base[k] == Base(k)
  {
    base := [0, S];
    var cpow := 1;
    assert Pow9(0) == 1;
    var k := 2;
    while k < 8
      invariant 2 <= k <= 8 && |base| == k && cpow == Pow9(k - 2)
      invariant forall j :: 0 <= j < k ==> base[j] == Base(j)
    {
      cpow := cpow * C;
      base := base + [base[k - 1] + S * cpow];
      k := k + 1;
    }
  }

  /** A valid word never meets the early exit: at every depth its prefix stays
      inside the dictionary. */
  lemma PrefixInside(x: nat, k: nat, size: nat)
    requires x < size <= Base(7) && k <= Depth(x)
    ensures Base(k) + Horner(Continuation(x)[..k]) * S <= x < size && Depth(x) < 7
  {
    WordValue(x);
    BaseMonotone(k, Depth(x));
    HornerPrefix(Continuation(x), k);
    if Depth(x) >= 7 {
      BaseMonotone(7, Depth(x));
    }
  }

  lemma {:induction false} SeparatorsPrefix(gs: seq<Group>, n: nat, m: nat)
    requires n <= m <= |gs|
    ensures |Separators(gs, n)| <= |Separators(gs, m)|
    ensures Separators(gs, m)[..|Separators(gs, n)|] == Separators(gs, n)
    ensures forall i :: |Separators(gs, n)| <= i < |Separators(gs, m)| ==> Separators(gs, m)[i] >= n
    ensures (forall i :: n <= i < m ==> !gs[i].sep) ==> Separators(gs, m) == Separators(gs, n)
    decreases m
  {
    if n < m {
      SeparatorsPrefix(gs, n, m - 1);
    }
  }

  /** Behind the separators before a word comes that word's, or a later one's. */
  lemma NextSeparator(gs: seq<Group>, start: nat, t: nat)
    requires start <= t < |gs| && forall i :: start <= i < t ==> !gs[i].sep
    ensures var seps, n := Separators(gs, |gs|), |Separators(gs, start)|;
            && (n < |seps| && seps[n] == t <==> gs[t].sep)
            && |Separators(gs, t + 1)| == n + if gs[t].sep then 1 else 0
  {
    SeparatorsPrefix(gs, start, t);
    SeparatorsPrefix(gs, t + 1, |gs|);
    var first, all := Separators(gs, t + 1), Separators(gs, |gs|);
    if gs[t].sep {
      assert all[|first| - 1] == all[..|first|][|first| - 1];
    }
  }

  /** Walk the continuation groups from start: the depth and the digits read. The
      ghost word is any that might begin there. */
  method WalkWord(grps: seq<nat>, start: nat, base: seq<nat>, size: nat, ghost x: nat) returns (k: nat, j: nat)
    requires start < |grps| && |base| == 8 && forall i :: 0 <= i < 8 ==> base[i] == Base(i)
    ensures start + k <= |grps| && k < 8
    ensures BeginsWith(grps, start, x) && x < size <= Base(7) ==> k == Depth(x) && j == Horner(Continuation(x))
  {
    hide BeginsWith;
    ghost var coded := BeginsWith(grps, start, x) && x < size <= Base(7);
    if coded {
      Beginning(grps, start, x);
      PrefixInside(x, 0, size);
    }
    k, j := 0, 0;
    assert Horner([]) == 0;
    while start + k < |grps| && grps[start + k] >= S
      invariant start + k <= |grps| && k < 7
      invariant coded ==> k <= Depth(x) && j == Horner(Continuation(x)[..k])
      decreases |grps| - k
    {
      if coded {
        assert k < Depth(x);
        DigitRead(x, k);
        PrefixInside(x, k + 1, size);
      }
      j := j * C + (grps[start + k] - S);
      k := k + 1;
      if k >= 7 || base[k] + j * S >= size {
        break;
      }
    }
    assert coded ==> Continuation(x)[..Depth(x)] == Continuation(x);
  }

  /** The groups from start on begin with those of word x. */
  ghost predicate BeginsWith(grps: seq<nat>, start: nat, x: nat) {
    && start + Depth(x) < |grps|
    && (forall i :: 0 <= i < Depth(x) ==> grps[start + i] == Continuation(x)[i] + S)
    && grps[start + Depth(x)] == Terminal(x)
  }

  lemma Beginning(grps: seq<nat>, start: nat, x: nat)
    requires BeginsWith(grps, start, x)
    ensures start + Depth(x) < |grps| && grps[start + Depth(x)] == Terminal(x)
    ensures forall i :: start <= i < start + Depth(x) ==> grps[i] == Continuation(x)[i - start] + S
  {
    forall i | start <= i < start + Depth(x) ensures grps[i] == Continuation(x)[i - start] + S {
      assert grps[start + (i - start)] == Continuation(x)[i - start] + S;
    }
  }

  lemma DigitRead(x: nat, k: nat)
    requires k < Depth(x)
    ensures Horner(Continuation(x)[..k + 1]) == Horner(Continuation(x)[..k]) * C + Continuation(x)[k]
  {
    assert Continuation(x)[..k + 1][..k] == Continuation(x)[..k];
  }

  /** The state between words: n words have been read, the groups from start on are
      those of the rest, and nseps separators lie behind. */
  ghost predicate AtWord(ws: seq<Word>, dict: seq<string>, gs: seq<Group>, n: nat, start: nat, nseps: nat, out: string) {
    && InDictionary(ws, dict) && n <= |ws| && start <= |gs|
    && gs[start..] == Groups(ws[n..])
    && nseps == |Separators(gs, start)|
    && out == Text(ws[..n], dict)
  }

  lemma WordBegins(ws: seq<Word>, dict: seq<string>, gs: seq<Group>, n: nat, start: nat, nseps: nat, out: string)
    requires AtWord(ws, dict, gs, n, start, nseps, out)
    ensures start < |gs| <==> n < |ws|
    ensures n < |ws| ==>
      && BeginsWith(Values(gs), start, ws[n].index)
      && gs[start + Depth(ws[n].index)].sep == ws[n].space
      && (forall i :: start <= i < start + Depth(ws[n].index) ==> !gs[i].sep)
      && gs[start + Depth(ws[n].index) + 1..] == Groups(ws[n + 1..])
  {
    if n < |ws| {
      var w := ws[n];
      var r := WordGroups(w);
      assert ws[n..][1..] == ws[n + 1..];
      assert gs[start..] == r + Groups(ws[n + 1..]);
      forall i | 0 <= i < |r| ensures gs[start + i] == r[i] {
        assert gs[start..][i] == gs[start + i];
      }
      forall i | start <= i < start + Depth(w.index) ensures !gs[i].sep {
        assert gs[start + (i - start)] == r[i - start];
      }
      assert gs[start + |r|..] == gs[start..][|r|..] == Groups(ws[n + 1..]);
    }
  }

  function Piece(w: Word, dict: seq<string>): string
    requires w.index < |dict|
  {
    dict[w.index] + if w.space then " " else ""
  }

  lemma TextStep(ws: seq<Word>, dict: seq<string>, n: nat)
    requires InDictionary(ws, dict) && n < |ws|
    ensures Text(ws[..n + 1], dict) == Text(ws[..n], dict) + Piece(ws[n], dict)
  {
    assert ws[..n + 1][..n] == ws[..n];
    assert Text(ws[..n], dict) + dict[ws[n].index] + (if ws[n].space then " " else "")
        == Text(ws[..n], dict) + Piece(ws[n], dict);
  }

  /** The first separator from start on is that of the word that begins there, if it has one. */
  predicate SeparatorHere(seps: seq<nat>, nseps: nat, t: nat) {
    nseps < |seps| && seps[nseps] == t
  }

  lemma WordDone(ws: seq<Word>, dict: seq<string>, gs: seq<Group>, n: nat, start: nat, nseps: nat, out: string)
    requires AtWord(ws, dict, gs, n, start, nseps, out) && n < |ws|
    ensures ws[n].index < |dict| && start + Depth(ws[n].index) < |gs|
    ensures SeparatorHere(Separators(gs, |gs|), nseps, start + Depth(ws[n].index)) == ws[n].space
    ensures AtWord(ws, dict, gs, n + 1, start + Depth(ws[n].index) + 1, nseps + if ws[n].space then 1 else 0,
                   out + Piece(ws[n], dict))
  {
    hide Groups, Separators, Piece, Text, BeginsWith;
    WordBegins(ws, dict, gs, n, start, nseps, out);
    var t := start + Depth(ws[n].index);
    GroupAt(gs, ws, n, start);
    NextSeparator(gs, start, t);
    TextStep(ws, dict, n);
  }

  lemma GroupAt(gs: seq<Group>, ws: seq<Word>, n: nat, start: nat)
    requires n < |ws| && start <= |gs| && BeginsWith(Values(gs), start, ws[n].index)
    ensures start + Depth(ws[n].index) < |gs|
  {
  }

  /** Read one word from start on, if there is one inside the dictionary. */
  method ReadWord(grps: seq<nat>, seps: seq<nat>, start: nat, nseps: nat, base: seq<nat>, dict: seq<string>, ghost w: Word)
    returns (found: bool, k: nat, piece: string, nseps': nat)
    requires start < |grps| && |base| == 8 && forall i :: 0 <= i < 8 ==> base[i] == Base(i)
    ensures BeginsWith(grps, start, w.index) && w.index < |dict| <= Base(7)
              && SeparatorHere(seps, nseps, start + Depth(w.index)) == w.space
            ==> found && k == Depth(w.index) && piece == Piece(w, dict) && nseps' == nseps + if w.space then 1 else 0
  {
    hide BeginsWith, Base, Horner, Continuation, Terminal, Depth;
    ghost var coded := BeginsWith(grps, start, w.index) && w.index < |dict| <= Base(7);
    if coded {
      Beginning(grps, start, w.index);
      WordValue(w.index);
    }
    found, piece, nseps' := false, "", nseps;
    var j;
    k, j := WalkWord(grps, start, base, |dict|, w.index);
    if start + k >= |grps| {
      return;
    }
    j := j * S + grps[start + k] + base[k];
    if j >= |dict| {
      return;
    }
    found, piece := true, dict[j];
    if nseps < |seps| && seps[nseps] == start + k {
      piece := piece + " ";
      nseps' := nseps + 1;
    }
    assert coded ==> j == w.index;
    assert dict[j] + "" == dict[j];
  }

  /** Decompress: for any list of words of a dictionary of at most base[7] entries,
      what comes out of its code is what it says. */
  method Decompress(bits: seq<bool>, dict: seq<string>, ghost ws: seq<Word>) returns (out: string)
    ensures InDictionary(ws, dict) && |dict| <= Base(7) && bits == Encode(ws) ==> out == Text(ws, dict)
  {
    hide Encode, AtWord, Groups, Separators, Text, BeginsWith, InDictionary, Piece, SeparatorHere, Base;
    ghost var gs := Groups(ws);
    GroupsValid(ws);
    ghost var coded := InDictionary(ws, dict) && |dict| <= Base(7) && bits == Encode(ws);
    EncodeIsBits(ws);
    var base := BaseOffsets();
    var grps, seps := SplitGroups(bits, gs);
    out := "";
    var start, nseps := 0, 0;
    ghost var n := 0;
    if coded {
      FirstWordAhead(ws, dict, gs);
    }
    while start < |grps|
      invariant 0 <= start && (coded ==> n <= |ws| && AtWord(ws, dict, gs, n, start, nseps, out))
      decreases |grps| - start
    {
      if coded {
        WordBegins(ws, dict, gs, n, start, nseps, out);
        WordDone(ws, dict, gs, n, start, nseps, out);
      }
      var found, k, piece;
      found, k, piece, nseps := ReadWord(grps, seps, start, nseps, base, dict, if n < |ws| then ws[n] else Word(0, false));
      if !found {
        break;
      }
      out := out + piece;
      start := start + k + 1;
      n := n + 1;
    }
    if coded {
      AllWords(ws, dict, gs, n, start, nseps, out);
    }
  }

  lemma EncodeIsBits(ws: seq<Word>)
    requires ValidGroups(Groups(ws))
    ensures Encode(ws) == Bits(Groups(ws))
  {
  }

  lemma FirstWordAhead(ws: seq<Word>, dict: seq<string>, gs: seq<Group>)
    requires InDictionary(ws, dict) && gs == Groups(ws)
    ensures AtWord(ws, dict, gs, 0, 0, 0, "")
  {
    assert gs[0..] == gs && ws[0..] == ws && ws[..0] == [];
  }

  lemma AllWords(ws: seq<Word>, dict: seq<string>, gs: seq<Group>, n: nat, start: nat, nseps: nat, out: string)
    requires AtWord(ws, dict, gs, n, start, nseps, out) && start >= |gs|
    ensures InDictionary(ws, dict) && out == Text(ws, dict)
  {
    WordBegins(ws, dict, gs, n, start, nseps, out);
    assert ws[..n] == ws;
  }
}
