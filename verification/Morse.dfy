/** The offline Morse decoder: de-glitching a list of key runs, and replaying them
    through the element and gap classifier. */
module Morse {

  /** A stretch of key-down or key-up, in milliseconds. */
  datatype Run = Run(mark: bool, ms: real)

  // ---------- De-glitching ----------

  predicate Alternating(runs: seq<Run>) {
    forall i :: 0 <= i < |runs| - 1 ==> runs[i].mark != runs[i + 1].mark
  }

  predicate AllLong(runs: seq<Run>, glitch: real) {
    forall i :: 0 <= i < |runs| ==> runs[i].ms >= glitch
  }

  function Total(runs: seq<Run>): real {
    if runs == [] then 0.0 else Total(runs[..|runs| - 1]) + runs[|runs| - 1].ms
  }

  lemma {:induction false} TotalSplit(a: seq<Run>, b: seq<Run>)
    ensures Total(a + b) == Total(a) + Total(b)
  {
    if b == [] {
      assert a + b == a;
    } else {
      assert (a + b)[..|a + b| - 1] == a + b[..|b| - 1];
      TotalSplit(a, b[..|b| - 1]);
    }
  }

  lemma TotalOne(r: Run)
    ensures Total([r]) == r.ms
  {
    assert [r][..0] == [];
  }

  lemma TotalTail(runs: seq<Run>)
    requires runs != []
    ensures Total(runs) == runs[0].ms + Total(runs[1..])
  {
    assert runs == [runs[0]] + runs[1..];
    TotalSplit([runs[0]], runs[1..]);
    TotalOne(runs[0]);
  }

  predicate NonNegative(runs: seq<Run>) {
    forall i :: 0 <= i < |runs| ==> runs[i].ms >= 0.0
  }

  // ---------- What becomes of the runs ----------

  /** Runs a to b - 1 become one: the first is long, and every second one after it is short. */
  predicate Group(runs: seq<Run>, glitch: real, a: nat, b: nat) {
    && a < b <= |runs| && (b - a) % 2 == 1 && runs[a].ms >= glitch
    && forall k :: a < k < b && (k - a) % 2 == 1 ==> runs[k].ms < glitch
  }

  predicate Groups(runs: seq<Run>, glitch: real, cuts: seq<nat>) {
    forall i :: 0 <= i < |cuts| - 1 ==> Group(runs, glitch, cuts[i], cuts[i + 1])
  }

  /** The cuts between the groups. Before the first stand only short runs, and at
      most one run, a short one, stands after the last. */
  predicate Grouping(runs: seq<Run>, glitch: real, cuts: seq<nat>) {
    && cuts != [] && cuts[0] <= |runs| && Groups(runs, glitch, cuts)
    && (forall k :: 0 <= k < cuts[0] ==> runs[k].ms < glitch)
    && (cuts[0] < |runs| ==> runs[cuts[0]].ms >= glitch)
    && (Last(cuts) == |runs| || (Last(cuts) == |runs| - 1 && runs[|runs| - 1].ms < glitch))
  }

  function Last(cuts: seq<nat>): nat
    requires cuts != []
  {
    cuts[|cuts| - 1]
  }

  /** A group as one run: the polarity of its first run, and the time of all. */
  predicate IsBlock(r: Run, runs: seq<Run>, a: nat, b: nat) {
    a < b <= |runs| && r == Run(runs[a].mark, Total(runs[a..b]))
  }

  predicate Blocks(out: seq<Run>, runs: seq<Run>, cuts: seq<nat>) {
    |cuts| <= |out| + 1 && forall i :: 0 <= i < |cuts| - 1 ==> IsBlock(out[i], runs, cuts[i], cuts[i + 1])
  }

  /** Runs and glitch length leave only one way to cut. */
  lemma {:induction false} SameCuts(runs: seq<Run>, glitch: real, c: seq<nat>, d: seq<nat>, i: nat)
    requires Grouping(runs, glitch, c) && Grouping(runs, glitch, d) && i < |c|
    ensures i < |d| && c[i] == d[i]
  {
    if i > 0 {
      SameCuts(runs, glitch, c, d, i - 1);
      assert Group(runs, glitch, c[i - 1], c[i - 1 + 1]);
      if i == |d| {
        assert false;
      }
      assert Group(runs, glitch, d[i - 1], d[i - 1 + 1]);
      SameNext(runs, glitch, c, d, i);
      SameNext(runs, glitch, d, c, i);
    }
  }

  lemma SameNext(runs: seq<Run>, glitch: real, c: seq<nat>, d: seq<nat>, i: nat)
    requires Grouping(runs, glitch, c) && Grouping(runs, glitch, d) && 0 < i < |c| && i < |d| && c[i - 1] == d[i - 1]
    ensures c[i] >= d[i]
  {
    assert Group(runs, glitch, c[i - 1], c[i - 1 + 1]) && Group(runs, glitch, d[i - 1], d[i - 1 + 1]);
    if i < |c| - 1 {
      assert Group(runs, glitch, c[i], c[i + 1]);
    }
  }

  /** So what de-glitching may return is determined by its contract. */
  lemma GroupingUnique(runs: seq<Run>, glitch: real, c: seq<nat>, d: seq<nat>)
    requires Grouping(runs, glitch, c) && Grouping(runs, glitch, d)
    ensures c == d
  {
    SameCuts(runs, glitch, c, d, |c| - 1);
    SameCuts(runs, glitch, d, c, |d| - 1);
    forall i | 0 <= i < |c| ensures c[i] == d[i] {
      SameCuts(runs, glitch, c, d, i);
    }
  }

  // ---------- The three loops ----------

  /** Drop short runs from the front. */
  method DropFront(runs: seq<Run>, glitch: real) returns (rest: seq<Run>, ghost n: nat)
    ensures n <= |runs| && rest == runs[n..] && (rest != [] ==> rest[0].ms >= glitch)
    ensures forall k :: 0 <= k < n ==> runs[k].ms < glitch
  {
    rest, n := runs, 0;
    while rest != [] && rest[0].ms < glitch
      invariant n <= |runs| && rest == runs[n..]
      invariant forall k :: 0 <= k < n ==> runs[k].ms < glitch
      decreases |rest|
    {
      n := n + 1;
      rest := rest[1..];
    }
  }

  /** Drop short runs from the back. */
  method DropBack(runs: seq<Run>, glitch: real) returns (rest: seq<Run>)
    requires forall i :: 0 <= i < |runs| - 1 ==> runs[i].ms >= glitch
    ensures rest == if runs != [] && runs[|runs| - 1].ms < glitch then runs[..|runs| - 1] else runs
  {
    rest := runs;
    while rest != [] && rest[|rest| - 1].ms < glitch
      invariant rest == runs || (runs != [] && runs[|runs| - 1].ms < glitch && rest == runs[..|runs| - 1])
      decreases |rest|
    {
      rest := rest[..|rest| - 1];
    }
  }

  /** Run i and its successor absorbed into run i - 1. */
  function Absorbed(runs: seq<Run>, i: nat): (r: seq<Run>)
    requires 0 < i < |runs| - 1
    ensures |r| == |runs| - 2
  {
    runs[..i - 1] + [Run(runs[i - 1].mark, runs[i - 1].ms + runs[i].ms + runs[i + 1].ms)] + runs[i + 2..]
  }

  /** Absorbing keeps the total time. */
  lemma AbsorbedTotal(runs: seq<Run>, i: nat)
    requires 0 < i < |runs| - 1
    ensures Total(Absorbed(runs, i)) == Total(runs)
  {
    hide Total, Absorbed;
    var a, mid, b := runs[..i - 1], runs[i - 1..i + 2], runs[i + 2..];
    var m := Run(mid[0].mark, mid[0].ms + mid[1].ms + mid[2].ms);
    CutInThree(runs, i - 1, i + 2);
    AbsorbedShape(runs, i);
    TotalAround(a, mid, b);
    TotalAround(a, [m], b);
    assert mid == [mid[0], mid[1], mid[2]];
    TotalTriple(mid[0], mid[1], mid[2]);
    TotalOne(m);
  }

  lemma CutInThree(runs: seq<Run>, i: nat, j: nat)
    requires i <= j <= |runs|
    ensures runs == runs[..i] + runs[i..j] + runs[j..]
  {
  }

  lemma AbsorbedShape(runs: seq<Run>, i: nat)
    requires 0 < i < |runs| - 1
    ensures var mid := runs[i - 1..i + 2];
            Absorbed(runs, i) == runs[..i - 1] + [Run(mid[0].mark, mid[0].ms + mid[1].ms + mid[2].ms)] + runs[i + 2..]
  {
  }

  lemma TotalAround(a: seq<Run>, m: seq<Run>, b: seq<Run>)
    ensures Total(a + m + b) == Total(a) + Total(m) + Total(b)
  {
    hide Total;
    TotalSplit(a + m, b);
    TotalSplit(a, m);
  }

  lemma TotalTriple(x: Run, y: Run, z: Run)
    ensures Total([x, y, z]) == x.ms + y.ms + z.ms
  {
    TotalTail([x, y, z]);
    TotalTail([y, z]);
    assert [x, y, z][1..] == [y, z] && [y, z][1..] == [z];
    TotalOne(z);
  }

  lemma TotalExtended(runs: seq<Run>, a: nat, b: nat)
    requires a < b && b + 1 < |runs|
    ensures Total(runs[a..b + 2]) == Total(runs[a..b]) + runs[b].ms + runs[b + 1].ms
  {
    assert runs[a..b + 2] == runs[a..b + 1] + [runs[b + 1]];
    assert runs[a..b + 1] == runs[a..b] + [runs[b]];
    TotalSplit(runs[a..b + 1], [runs[b + 1]]);
    TotalSplit(runs[a..b], [runs[b]]);
    TotalOne(runs[b]);
    TotalOne(runs[b + 1]);
  }

  /** The runs before place i of the list are groups, the others are as they were. */
  predicate Absorbing(runs: seq<Run>, glitch: real, merged: seq<Run>, cuts: seq<nat>) {
    && cuts != [] && Groups(runs, glitch, cuts) && Blocks(merged, runs, cuts)
    && Last(cuts) <= |runs| && merged[|cuts| - 1..] == runs[Last(cuts)..]
  }

  lemma Whole(runs: seq<Run>, glitch: real, n: nat)
    requires n <= |runs|
    ensures Absorbing(runs, glitch, runs[n..], [n])
  {
    assert runs[n..][0..] == runs[n..];
  }

  lemma GroupExtends(runs: seq<Run>, glitch: real, r: Run, a: nat, b: nat)
    requires Group(runs, glitch, a, b) && IsBlock(r, runs, a, b) && b + 1 < |runs| && runs[b].ms < glitch
    ensures Group(runs, glitch, a, b + 2)
    ensures IsBlock(Run(r.mark, r.ms + runs[b].ms + runs[b + 1].ms), runs, a, b + 2)
  {
    TotalExtended(runs, a, b);
  }

  /** The two runs absorbed, and what follows them. */
  lemma NextTwo(runs: seq<Run>, glitch: real, merged: seq<Run>, cuts: seq<nat>)
    requires Absorbing(runs, glitch, merged, cuts) && 1 < |cuts| < |merged|
    ensures var i, b := |cuts| - 1, Last(cuts);
            && b + 1 < |runs| && merged[i] == runs[b] && merged[i + 1] == runs[b + 1]
            && Absorbed(merged, i)[i..] == runs[b + 2..]
  {
    var i, b := |cuts| - 1, Last(cuts);
    var r := Absorbed(merged, i);
    assert |merged[i..]| == |runs[b..]|;
    assert merged[i] == merged[i..][0] == runs[b..][0];
    assert merged[i + 1] == merged[i..][1] == runs[b..][1];
    assert r[i..] == merged[i + 2..] == merged[i..][2..] == runs[b..][2..] == runs[b + 2..];
  }

  /** Absorbing a short run extends the last group by two. */
  lemma GroupGrows(runs: seq<Run>, glitch: real, merged: seq<Run>, cuts: seq<nat>)
    requires Absorbing(runs, glitch, merged, cuts) && 1 < |cuts| < |merged| && merged[|cuts| - 1].ms < glitch
    ensures Absorbing(runs, glitch, Absorbed(merged, |cuts| - 1), cuts[|cuts| - 1 := Last(cuts) + 2])
  {
    hide Total, Group, IsBlock;
    var i, b := |cuts| - 1, Last(cuts);
    var cuts', r := cuts[i := b + 2], Absorbed(merged, i);
    NextTwo(runs, glitch, merged, cuts);
    assert Group(runs, glitch, cuts[i - 1], cuts[i - 1 + 1]) && IsBlock(merged[i - 1], runs, cuts[i - 1], cuts[i - 1 + 1]);
    GroupExtends(runs, glitch, merged[i - 1], cuts[i - 1], b);
    forall k | 0 <= k < i ensures Group(runs, glitch, cuts'[k], cuts'[k + 1]) && IsBlock(r[k], runs, cuts'[k], cuts'[k + 1]) {
      assert Group(runs, glitch, cuts[k], cuts[k + 1]) && IsBlock(merged[k], runs, cuts[k], cuts[k + 1]);
    }
  }

  /** A long run starts a group of its own. */
  lemma GroupStarts(runs: seq<Run>, glitch: real, merged: seq<Run>, cuts: seq<nat>)
    requires Absorbing(runs, glitch, merged, cuts) && |cuts| <= |merged| && merged[|cuts| - 1].ms >= glitch
    ensures Absorbing(runs, glitch, merged, cuts + [Last(cuts) + 1])
  {
    var i, b := |cuts| - 1, Last(cuts);
    var cuts' := cuts + [b + 1];
    assert merged[i] == merged[i..][0] == runs[b..][0] == runs[b];
    assert runs[b..b + 1] == [runs[b]];
    TotalOne(runs[b]);
    hide Total;
    forall k | 0 <= k < |cuts'| - 1 ensures Group(runs, glitch, cuts'[k], cuts'[k + 1]) && IsBlock(merged[k], runs, cuts'[k], cuts'[k + 1]) {
      if k < i {
        assert Group(runs, glitch, cuts[k], cuts[k + 1]) && IsBlock(merged[k], runs, cuts[k], cuts[k + 1]);
      }
    }
    assert merged[i + 1..] == merged[i..][1..] == runs[b..][1..] == runs[b + 1..];
  }

  /** Absorb every short run in the middle into its neighbours. */
  method AbsorbMiddle(rest: seq<Run>, glitch: real, ghost runs: seq<Run>, ghost n: nat) returns (merged: seq<Run>, ghost cuts: seq<nat>)
    requires n <= |runs| && rest == runs[n..] && (rest != [] ==> rest[0].ms >= glitch)
    ensures Total(merged) == Total(rest)
    ensures cuts != [] && Absorbing(runs, glitch, merged, cuts) && cuts[0] == n && |cuts| - 1 <= |merged| <= |cuts|
  {
    hide Total, Absorbing, Absorbed, Last;
    merged, cuts := rest, [n];
    Whole(runs, glitch, n);
    if rest != [] {
      GroupStarts(runs, glitch, merged, cuts);
      cuts := cuts + [n + 1];
    }
    var i := 1;
    while i + 1 < |merged|
      invariant 1 <= i && Total(merged) == Total(rest)
      invariant cuts != [] && Absorbing(runs, glitch, merged, cuts) && cuts[0] == n
      invariant if merged == [] then |cuts| == 1 else |cuts| == i + 1 && i <= |merged|
      decreases |merged| - i
    {
      if merged[i].ms < glitch {
        AbsorbedTotal(merged, i);
        GroupGrows(runs, glitch, merged, cuts);
        cuts := cuts[i := Last(cuts) + 2];
        merged := Absorbed(merged, i);
      } else {
        GroupStarts(runs, glitch, merged, cuts);
        cuts := cuts + [Last(cuts) + 1];
        i := i + 1;
      }
    }
  }

  // ---------- What the groups promise ----------

  /** In an alternating list, polarity is parity. */
  lemma {:induction false} Parity(runs: seq<Run>, a: nat, b: nat)
    requires Alternating(runs) && a <= b < |runs|
    ensures runs[a].mark == runs[b].mark <==> (b - a) % 2 == 0
  {
    if a < b {
      Parity(runs, a, b - 1);
      assert runs[b - 1].mark != runs[b - 1 + 1].mark;
    }
  }

  lemma BlocksAlternate(runs: seq<Run>, glitch: real, cuts: seq<nat>, out: seq<Run>)
    requires Alternating(runs) && Groups(runs, glitch, cuts) && Blocks(out, runs, cuts) && |out| == |cuts| - 1
    ensures Alternating(out)
  {
    forall i | 0 <= i < |out| - 1 ensures out[i].mark != out[i + 1].mark {
      assert Group(runs, glitch, cuts[i], cuts[i + 1]) && IsBlock(out[i], runs, cuts[i], cuts[i + 1]);
      assert Group(runs, glitch, cuts[i + 1], cuts[i + 1 + 1]) && IsBlock(out[i + 1], runs, cuts[i + 1], cuts[i + 1 + 1]);
      Parity(runs, cuts[i], cuts[i + 1]);
    }
  }

  lemma {:induction false} TotalNotLess(runs: seq<Run>, a: nat, b: nat)
    requires NonNegative(runs) && a < b <= |runs|
    ensures Total(runs[a..b]) >= runs[a].ms
  {
    assert runs[a..b][..b - a - 1] == runs[a..b - 1];
    if a + 1 < b {
      TotalNotLess(runs, a, b - 1);
    }
  }

  lemma BlockLong(r: Run, runs: seq<Run>, glitch: real, a: nat, b: nat)
    requires NonNegative(runs) && Group(runs, glitch, a, b) && IsBlock(r, runs, a, b)
    ensures r.ms >= glitch
  {
    TotalNotLess(runs, a, b);
  }

  lemma BlocksLong(runs: seq<Run>, glitch: real, cuts: seq<nat>, out: seq<Run>)
    requires NonNegative(runs) && cuts != [] && Groups(runs, glitch, cuts) && Blocks(out, runs, cuts)
    ensures forall i :: 0 <= i < |cuts| - 1 ==> out[i].ms >= glitch
  {
    forall i | 0 <= i < |cuts| - 1 ensures out[i].ms >= glitch {
      assert Group(runs, glitch, cuts[i], cuts[i + 1]) && IsBlock(out[i], runs, cuts[i], cuts[i + 1]);
      BlockLong(out[i], runs, glitch, cuts[i], cuts[i + 1]);
    }
  }

  lemma LongAt(runs: seq<Run>, glitch: real, k: nat)
    requires AllLong(runs, glitch) && k < |runs|
    ensures runs[k].ms >= glitch
  {
  }

  /** Among long runs each is a group of its own. */
  lemma {:induction false} CutsOfLong(runs: seq<Run>, glitch: real, cuts: seq<nat>, i: nat)
    requires AllLong(runs, glitch) && Grouping(runs, glitch, cuts) && i < |cuts|
    ensures cuts[i] == i
  {
    if i == 0 {
      if 0 < |runs| {
        LongAt(runs, glitch, 0);
      }
    } else {
      CutsOfLong(runs, glitch, cuts, i - 1);
      assert Group(runs, glitch, cuts[i - 1], cuts[i - 1 + 1]);
      if i < |runs| {
        LongAt(runs, glitch, i);
      }
    }
  }

  lemma LongUnchanged(runs: seq<Run>, glitch: real, cuts: seq<nat>, out: seq<Run>)
    requires AllLong(runs, glitch) && Grouping(runs, glitch, cuts) && Blocks(out, runs, cuts) && |out| == |cuts| - 1
    ensures out == runs
  {
    CutsOfLong(runs, glitch, cuts, |cuts| - 1);
    forall i | 0 <= i < |out| ensures out[i] == runs[i] {
      CutsOfLong(runs, glitch, cuts, i);
      CutsOfLong(runs, glitch, cuts, i + 1);
      assert IsBlock(out[i], runs, cuts[i], cuts[i + 1]);
      assert runs[i..i + 1] == [runs[i]];
      TotalOne(runs[i]);
    }
  }

  /** What the last loop cuts off, when the first cut leaves a long run or nothing. */
  lemma Ends(runs: seq<Run>, glitch: real, merged: seq<Run>, cuts: seq<nat>)
    requires Absorbing(runs, glitch, merged, cuts) && |cuts| - 1 <= |merged| <= |cuts|
    requires |merged| == |cuts| ==> merged[|cuts| - 1].ms < glitch
    requires cuts[0] <= |runs| && (forall k :: 0 <= k < cuts[0] ==> runs[k].ms < glitch)
    requires cuts[0] < |runs| ==> runs[cuts[0]].ms >= glitch
    ensures Grouping(runs, glitch, cuts)
    ensures Groups(runs, glitch, cuts) && Blocks(merged, runs, cuts) && Blocks(merged[..|cuts| - 1], runs, cuts)
    ensures Total(merged) == Total(merged[..|cuts| - 1]) + Total(runs[Last(cuts)..])
  {
    var i := |cuts| - 1;
    assert |merged[i..]| == |runs[Last(cuts)..]|;
    if |merged| == |cuts| {
      assert merged[i] == merged[i..][0] == runs[Last(cuts)..][0];
    }
    assert merged == merged[..i] + runs[Last(cuts)..];
    TotalSplit(merged[..i], runs[Last(cuts)..]);
  }

  /** De-glitch: every run of the result is a group of consecutive runs, in order, with
      the polarity of its first; what is dropped is the short runs before the first
      group and at most one short run after the last. The result alternates and has
      no short run; runs that are all long come out unchanged. */
  method DeGlitch(runs: seq<Run>, glitch: real) returns (out: seq<Run>, ghost cuts: seq<nat>)
    requires Alternating(runs) && NonNegative(runs)
    ensures Grouping(runs, glitch, cuts) && |out| == |cuts| - 1 && Blocks(out, runs, cuts)
    ensures Alternating(out) && AllLong(out, glitch)
    ensures Total(runs[..cuts[0]]) + Total(out) + Total(runs[Last(cuts)..]) == Total(runs)
    ensures AllLong(runs, glitch) ==> out == runs
  {
    hide Total, Alternating, NonNegative, Grouping, Groups, Blocks, Absorbing;
    ghost var n;
    out, n := DropFront(runs, glitch);
    assert runs == runs[..n] + runs[n..];
    TotalSplit(runs[..n], runs[n..]);
    out, cuts := AbsorbMiddle(out, glitch, runs, n);
    if |out| == |cuts| && out[|out| - 1].ms >= glitch {
      GroupStarts(runs, glitch, out, cuts);
      cuts := cuts + [Last(cuts) + 1];
    }
    Ends(runs, glitch, out, cuts);
    BlocksLong(runs, glitch, cuts, out);
    assert |out| == |cuts| - 1 ==> out == out[..|cuts| - 1];
    out := DropBack(out, glitch);
    BlocksAlternate(runs, glitch, cuts, out);
    BlocksLong(runs, glitch, cuts, out);
    if AllLong(runs, glitch) {
      LongUnchanged(runs, glitch, cuts, out);
    }
  }

  // ---------- The table ----------

  const LETTERS: map<string, char> := map[
    ".-" := 'A', "-..." := 'B', "-.-." := 'C', "-.." := 'D', "." := 'E', "..-." := 'F', "--." := 'G', "...." := 'H',
    ".." := 'I', ".---" := 'J', "-.-" := 'K', ".-.." := 'L', "--" := 'M', "-." := 'N', "---" := 'O', ".--." := 'P',
    "--.-" := 'Q', ".-." := 'R', "..." := 'S', "-" := 'T', "..-" := 'U', "...-" := 'V', ".--" := 'W', "-..-" := 'X',
    "-.--" := 'Y', "--.." := 'Z']

  const FIGURES: map<string, char> := map[
    "-----" := '0', ".----" := '1', "..---" := '2', "...--" := '3', "....-" := '4',
    "....." := '5', "-...." := '6', "--..." := '7', "---.." := '8', "----." := '9']

  const SIGNS: map<string, char> := map[
    "-..-." := '/', "-...-" := '=', ".-.-." := '+', "-....-" := '-', ".-.-.-" := '.', "--..--" := ',', "..--.." := '?']

  const TABLE: map<string, char> := LETTERS + FIGURES + SIGNS

  predicate IsCode(code: string) {
    code != "" && forall j :: 0 <= j < |code| ==> code[j] == '.' || code[j] == '-'
  }

  /** Every entry of the table is a nonempty string of dits and dahs. */
  lemma TableCodes(code: string)
    requires code in TABLE
    ensures IsCode(code)
  {
    hide LETTERS, FIGURES, SIGNS;
    if code in LETTERS {
      LetterCodes(code);
    } else if code in FIGURES {
      FigureCodes(code);
    } else {
      SignCodes(code);
    }
  }

  lemma LetterCodes(code: string)
    requires code in LETTERS
    ensures IsCode(code)
  {
  }

  lemma FigureCodes(code: string)
    requires code in FIGURES
    ensures IsCode(code)
  {
  }

  lemma SignCodes(code: string)
    requires code in SIGNS
    ensures IsCode(code)
  {
  }

  // ---------- Keying ----------

  /** One letter to be keyed, and whether a word gap follows it. */
  datatype Letter = Letter(code: string, word: bool)

  predicate Sendable(table: map<string, char>, letters: seq<Letter>) {
    forall i :: 0 <= i < |letters| ==> letters[i].code in table && IsCode(letters[i].code)
  }

  /** The text of the first n letters, each with the space that follows it. */
  function Spelled(table: map<string, char>, letters: seq<Letter>, n: nat): string
    requires Sendable(table, letters) && n <= |letters|
  {
    if n == 0 then ""
    else Spelled(table, letters, n - 1) + [table[letters[n - 1].code]] + if letters[n - 1].word then " " else ""
  }

  /** The text of all letters; nothing follows the last one. */
  function TextOf(table: map<string, char>, letters: seq<Letter>): string
    requires Sendable(table, letters) && letters != []
  {
    Spelled(table, letters, |letters| - 1) + [table[letters[|letters| - 1].code]]
  }

  /** Dits below the split, dahs at or above it. */
  predicate KeysMark(r: Run, element: char, split: real) {
    r.mark && (if element == '.' then r.ms < split else r.ms >= split)
  }

  /** Gaps inside their class: below 1.73 dits in a letter, below 4.58 between letters. */
  predicate KeysGap(r: Run, inLetter: bool, word: bool, dit: real) {
    !r.mark && if inLetter then r.ms < 1.73 * dit else if word then r.ms >= 4.58 * dit && r.ms >= 1.73 * dit
               else 1.73 * dit <= r.ms < 4.58 * dit
  }

  /** The runs of one letter: its marks with element gaps between them. */
  predicate KeysLetter(runs: seq<Run>, code: string, dit: real, split: real) {
    && |runs| >= 2 * |code| - 1
    && (forall j :: 0 <= j < |code| ==> KeysMark(runs[2 * j], code[j], split))
    && (forall j :: 0 <= j < |code| - 1 ==> KeysGap(runs[2 * j + 1], true, false, dit))
  }

  /** The runs key exactly these letters. */
  predicate Keys(runs: seq<Run>, letters: seq<Letter>, dit: real, split: real)
    decreases |letters|
  {
    letters != [] && letters[0].code != "" &&
    var code, width := letters[0].code, 2 * |letters[0].code|;
    && KeysLetter(runs, code, dit, split)
    && if |letters| == 1 then |runs| == width - 1
       else |runs| > width && KeysGap(runs[width - 1], false, letters[0].word, dit) && Keys(runs[width..], letters[1..], dit, split)
  }

  /** The runs key some letters that spell the text. */
  ghost predicate KeysText(table: map<string, char>, runs: seq<Run>, text: string, dit: real, split: real) {
    exists letters :: Sendable(table, letters) && Keys(runs, letters, dit, split) && letters != [] && TextOf(table, letters) == text
  }

  /** A mark below the split adds a dit to the symbol, any other a dah. */
  function WithElement(symbol: string, r: Run, split: real): string {
    symbol + if r.ms < split then "." else "-"
  }

  // ---------- The replay ----------

  /** The decoder's element buffer, its text, and its dit length. */
  class Decoder {
    const table: map<string, char>
    var symbol: string
    var text: string
    var ditMs: real

    constructor (ditMs: real, table: map<string, char>)
      ensures symbol == "" && text == "" && this.ditMs == ditMs && this.table == table
    {
      this.table := table;
      symbol, text := "", "";
      this.ditMs := ditMs;
    }

    /** The character of a symbol, if it is in the table. */
    function Letters(s: string): string
      reads this
    {
      if s in table then [table[s]] else ""
    }

    method FlushSymbol(addWordSpace: bool)
      modifies this`symbol, this`text
      ensures symbol == "" && text == old(text) + old(Letters(symbol)) + if addWordSpace then " " else ""
    {
      if symbol in table {
        text := text + [table[symbol]];
      } else {
        assert text + "" == text;
      }
      symbol := "";
      if addWordSpace {
        text := text + " ";
      } else {
        assert text + "" == text;
      }
    }

    method OnSpace(ms: real)
      modifies this`symbol, this`text
      ensures old(symbol) == "" || ms < 1.73 * ditMs ==> symbol == old(symbol) && text == old(text)
      ensures old(symbol) != "" && ms >= 1.73 * ditMs
          ==> symbol == "" && text == old(text) + old(Letters(symbol)) + if ms >= 4.58 * ditMs then " " else ""
    {
      if symbol == "" {
        return;
      }
      if ms < 1.73 * ditMs {
        return;
      }
      if ms < 4.58 * ditMs {
        FlushSymbol(false);
      } else {
        FlushSymbol(true);
      }
    }

    /** Replay the runs with a fixed dit: if the runs key the text sent, it comes out. */
    method Replay(runs: seq<Run>, markSplit: real, ghost sent: string) returns (out: string)
      requires symbol == "" && text == ""
      modifies this`symbol, this`text
      ensures KeysText(table, runs, sent, ditMs, markSplit) ==> out == sent
      ensures symbol == "" && text == ""
    {
      hide Keys, Sendable, Spelled, Replaying, TextOf;
      ghost var keyed := KeysText(table, runs, sent, ditMs, markSplit);
      ghost var letters: seq<Letter> := [];
      ghost var n: nat, base: nat := 0, 0;
      if keyed {
        letters :| Sendable(table, letters) && Keys(runs, letters, ditMs, markSplit) && letters != [] && TextOf(table, letters) == sent;
        Begin(table, runs, letters, ditMs, markSplit);
      }
      var first, i := true, 0;
      while i < |runs|
        invariant 0 <= i <= |runs|
        invariant keyed ==> Replaying(table, runs, letters, ditMs, markSplit, n, base, i, symbol, text)
        invariant keyed && i > 0 ==> !first
      {
        var r := runs[i];
        if keyed {
          LetterStands(table, runs, letters, ditMs, markSplit, n, base, i, symbol, text);
          if (i - base) % 2 == 0 {
            NextMark(table, runs, letters, ditMs, markSplit, n, base, i, symbol, text);
          } else if i - base < 2 * |letters[n].code| - 1 {
            NextGap(table, runs, letters, ditMs, markSplit, n, base, i, symbol, text);
          } else {
            NextLetter(table, runs, letters, ditMs, markSplit, n, base, i, symbol, text);
          }
        }
        if first && !r.mark {
          i := i + 1;
          continue;
        }
        first := false;
        if r.mark {
          symbol := WithElement(symbol, r, markSplit);
        } else {
          if keyed && i - base == 2 * |letters[n].code| - 1 {
            base := base + 2 * |letters[n].code|;
            n := n + 1;
          }
          OnSpace(r.ms);
        }
        i := i + 1;
      }
      if keyed {
        Finish(table, runs, letters, ditMs, markSplit, n, base, symbol, text);
      }
      FlushSymbol(false);
      out := text;
      text := "";
    }
  }

  /** The replay stands before run i, in letter n whose runs start at base: the symbol
      holds the elements of the letter so far, the text the letters before it. */
  ghost predicate Replaying(table: map<string, char>, runs: seq<Run>, letters: seq<Letter>, dit: real, split: real,
                            n: nat, base: nat, i: nat, symbol: string, text: string)
  {
    && Sendable(table, letters) && n < |letters| && base <= i <= |runs|
    && Keys(runs[base..], letters[n..], dit, split)
    && i - base < 2 * |letters[n].code|
    && symbol == letters[n].code[..(i - base + 1) / 2]
    && text == Spelled(table, letters, n)
  }

  lemma LetterStands(table: map<string, char>, runs: seq<Run>, letters: seq<Letter>, dit: real, split: real,
                     n: nat, base: nat, i: nat, symbol: string, text: string)
    requires Replaying(table, runs, letters, dit, split, n, base, i, symbol, text)
    ensures n < |letters| && base <= i < base + 2 * |letters[n].code|
  {
  }

  lemma Begin(table: map<string, char>, runs: seq<Run>, letters: seq<Letter>, dit: real, split: real)
    requires Sendable(table, letters) && Keys(runs, letters, dit, split)
    ensures Replaying(table, runs, letters, dit, split, 0, 0, 0, "", "")
  {
    assert runs[0..] == runs && letters[0..] == letters;
  }

  /** The runs of the current letter, as far as they are needed to go on. */
  lemma CurrentLetter(table: map<string, char>, runs: seq<Run>, letters: seq<Letter>, dit: real, split: real,
                      n: nat, base: nat)
    requires Sendable(table, letters) && n < |letters| && base <= |runs| && Keys(runs[base..], letters[n..], dit, split)
    ensures var code, width := letters[n].code, 2 * |letters[n].code|;
            && code != "" && code in table
            && (forall j :: 0 <= j < |code| ==> code[j] == '.' || code[j] == '-')
            && KeysLetter(runs[base..], code, dit, split)
            && (n == |letters| - 1 ==> |runs| == base + width - 1)
            && (n < |letters| - 1 ==> |runs| > base + width && KeysGap(runs[base + width - 1], false, letters[n].word, dit)
                                      && Keys(runs[base + width..], letters[n + 1..], dit, split))
  {
    assert letters[n..][0] == letters[n] && letters[n..][1..] == letters[n + 1..];
    var width := 2 * |letters[n].code|;
    if n < |letters| - 1 {
      assert runs[base..][width..] == runs[base + width..];
      assert runs[base..][width - 1] == runs[base + width - 1];
    }
  }

  lemma CodeNonempty(table: map<string, char>, letters: seq<Letter>, n: nat)
    requires Sendable(table, letters) && n < |letters|
    ensures |letters[n].code| > 0
  {
  }

  /** At an even distance from the letter's start stands a mark: the next element. */
  lemma NextMark(table: map<string, char>, runs: seq<Run>, letters: seq<Letter>, dit: real, split: real,
                 n: nat, base: nat, i: nat, symbol: string, text: string)
    requires Replaying(table, runs, letters, dit, split, n, base, i, symbol, text) && i < |runs|
    requires (i - base) % 2 == 0
    ensures runs[i].mark
    ensures Replaying(table, runs, letters, dit, split, n, base, i + 1, WithElement(symbol, runs[i], split), text)
  {
    CurrentLetter(table, runs, letters, dit, split, n, base);
    hide Keys, Spelled, Sendable;
    var j, code := (i - base) / 2, letters[n].code;
    assert runs[base..][2 * j] == runs[i] && KeysMark(runs[i], code[j], split);
    assert code[..j + 1] == code[..j] + [code[j]];
  }

  /** Inside a letter the gaps are element gaps. */
  lemma NextGap(table: map<string, char>, runs: seq<Run>, letters: seq<Letter>, dit: real, split: real,
                n: nat, base: nat, i: nat, symbol: string, text: string)
    requires Replaying(table, runs, letters, dit, split, n, base, i, symbol, text) && i < |runs|
    requires (i - base) % 2 == 1 && i - base < 2 * |letters[n].code| - 1
    ensures !runs[i].mark && symbol != "" && runs[i].ms < 1.73 * dit
    ensures Replaying(table, runs, letters, dit, split, n, base, i + 1, symbol, text)
  {
    CurrentLetter(table, runs, letters, dit, split, n, base);
    hide Keys, Spelled, Sendable;
    var j, code := (i - base) / 2, letters[n].code;
    assert runs[base..][2 * j + 1] == runs[i] && KeysGap(runs[i], true, false, dit);
    assert symbol == code[..j + 1];
  }

  /** After the last element comes the gap that ends the letter, and maybe the word. */
  lemma NextLetter(table: map<string, char>, runs: seq<Run>, letters: seq<Letter>, dit: real, split: real,
                   n: nat, base: nat, i: nat, symbol: string, text: string)
    requires Replaying(table, runs, letters, dit, split, n, base, i, symbol, text) && i < |runs|
    requires i - base == 2 * |letters[n].code| - 1
    ensures !runs[i].mark && symbol == letters[n].code && symbol != "" && symbol in table && runs[i].ms >= 1.73 * dit
    ensures Replaying(table, runs, letters, dit, split, n + 1, base + 2 * |letters[n].code|, i + 1, "",
                      text + [table[symbol]] + if runs[i].ms >= 4.58 * dit then " " else "")
  {
    hide Keys, Spelled, Sendable, KeysLetter;
    CurrentLetter(table, runs, letters, dit, split, n, base);
    SpelledNext(table, letters, n);
    var code := letters[n].code;
    assert code[..|code|] == code;
    CodeNonempty(table, letters, n + 1);
  }

  lemma SpelledNext(table: map<string, char>, letters: seq<Letter>, n: nat)
    requires Sendable(table, letters) && n < |letters|
    ensures letters[n].code in table
    ensures Spelled(table, letters, n + 1)
         == Spelled(table, letters, n) + [table[letters[n].code]] + if letters[n].word then " " else ""
  {
  }

  lemma Finish(table: map<string, char>, runs: seq<Run>, letters: seq<Letter>, dit: real, split: real,
               n: nat, base: nat, symbol: string, text: string)
    requires Replaying(table, runs, letters, dit, split, n, base, |runs|, symbol, text)
    ensures Sendable(table, letters) && letters != [] && symbol in table
    ensures text + [table[symbol]] == TextOf(table, letters)
  {
    CurrentLetter(table, runs, letters, dit, split, n, base);
    var code := letters[n].code;
    assert code[..|code|] == code;
  }

  // ---------- Every text can be sent ----------

  /** Words of characters that have a code, with single spaces between them. */
  predicate Plain(table: map<string, char>, text: string) {
    && text != "" && text[0] != ' ' && text[|text| - 1] != ' '
    && (forall i :: 0 <= i < |text| ==> text[i] == ' ' || text[i] in table.Values)
    && (forall i :: 0 <= i < |text| - 1 ==> text[i] != ' ' || text[i + 1] != ' ')
  }

  lemma {:induction false} SpelledPrefix(table: map<string, char>, a: seq<Letter>, b: seq<Letter>, n: nat)
    requires Sendable(table, a) && Sendable(table, b) && n <= |a| && n <= |b| && a[..n] == b[..n]
    ensures Spelled(table, a, n) == Spelled(table, b, n)
  {
    if n > 0 {
      assert a[..n][n - 1] == b[..n][n - 1];
      assert a[..n][..n - 1] == a[..n - 1] && b[..n][..n - 1] == b[..n - 1];
      SpelledPrefix(table, a, b, n - 1);
    }
  }

  /** One more letter after a text, with or without a space before it. */
  lemma AppendLetter(table: map<string, char>, letters: seq<Letter>, space: bool, code: string) returns (longer: seq<Letter>)
    requires Sendable(table, letters) && letters != [] && code in table && IsCode(code)
    ensures Sendable(table, longer) && longer != []
    ensures TextOf(table, longer) == TextOf(table, letters) + (if space then " " else "") + [table[code]]
  {
    var n := |letters| - 1;
    longer := letters[..n] + [Letter(letters[n].code, space), Letter(code, false)];
    SpelledPrefix(table, longer, letters, n);
    assert Spelled(table, longer, n + 1) == Spelled(table, longer, n) + [table[letters[n].code]] + if space then " " else "";
  }

  /** Every plain text is the text of some letters. */
  lemma {:induction false} Spell(table: map<string, char>, text: string) returns (letters: seq<Letter>)
    requires Plain(table, text) && forall code :: code in table ==> IsCode(code)
    ensures Sendable(table, letters) && letters != [] && TextOf(table, letters) == text
  {
    var n := |text| - 1;
    var code :| code in table && table[code] == text[n];
    if n == 0 {
      letters := [Letter(code, false)];
    } else {
      var space := text[n - 1] == ' ';
      var m := if space then n - 1 else n;
      letters := Spell(table, text[..m]);
      letters := AppendLetter(table, letters, space, code);
      assert text == text[..m] + (if space then " " else "") + [text[n]];
    }
  }

  /** The nominal element: a dah is three dits long. */
  function Element(element: char, dit: real): Run {
    Run(true, if element == '.' then dit else 3.0 * dit)
  }

  /** A letter with one dit between its elements. */
  function KeyedLetter(code: string, dit: real): seq<Run> {
    if code == "" then []
    else seq(2 * |code| - 1, k requires 0 <= k < 2 * |code| - 1 => if k % 2 == 0 then Element(code[k / 2], dit) else Run(false, dit))
  }

  /** The nominal keying: three dits between letters, seven between words. */
  function Keyed(letters: seq<Letter>, dit: real): seq<Run> {
    if letters == [] then []
    else if |letters| == 1 then KeyedLetter(letters[0].code, dit)
    else KeyedLetter(letters[0].code, dit) + [Run(false, if letters[0].word then 7.0 * dit else 3.0 * dit)] + Keyed(letters[1..], dit)
  }

  lemma KeyedLetterKeys(runs: seq<Run>, code: string, dit: real, split: real)
    requires IsCode(code) && 0.0 < dit < split <= 3.0 * dit
    requires KeyedLetter(code, dit) <= runs
    ensures KeysLetter(runs, code, dit, split)
  {
    hide KeyedLetter;
    LetterLength(code, dit);
    forall j | 0 <= j < |code| ensures KeysMark(runs[2 * j], code[j], split) {
      LetterAt(runs, code, dit, 2 * j);
    }
    forall j | 0 <= j < |code| - 1 ensures KeysGap(runs[2 * j + 1], true, false, dit) {
      LetterAt(runs, code, dit, 2 * j + 1);
    }
  }

  lemma LetterAt(runs: seq<Run>, code: string, dit: real, k: nat)
    requires code != "" && k < 2 * |code| - 1 && KeyedLetter(code, dit) <= runs
    ensures |runs| > k && runs[k] == if k % 2 == 0 then Element(code[k / 2], dit) else Run(false, dit)
  {
    assert runs[k] == KeyedLetter(code, dit)[k];
  }

  lemma {:induction false} KeyedKeys(letters: seq<Letter>, dit: real, split: real)
    requires letters != [] && forall i :: 0 <= i < |letters| ==> IsCode(letters[i].code)
    requires 0.0 < dit < split <= 3.0 * dit
    ensures Keys(Keyed(letters, dit), letters, dit, split)
  {
    hide KeysLetter, KeyedLetter;
    var code, runs, rest := letters[0].code, Keyed(letters, dit), Keyed(letters[1..], dit);
    LetterLength(code, dit);
    KeyedLetterKeys(runs, code, dit, split);
    if |letters| > 1 {
      assert runs[2 * |code|..] == rest;
      KeyedKeys(letters[1..], dit, split);
      LetterLength(letters[1].code, dit);
      assert rest != [];
    }
  }

  lemma LetterLength(code: string, dit: real)
    requires code != ""
    ensures |KeyedLetter(code, dit)| == 2 * |code| - 1
  {
  }

  /** Every text of words over the characters of the table, with single spaces, has a
      nominal keying, and so comes back from its replay. */
  lemma EveryTextKeyed(text: string, dit: real, split: real) returns (letters: seq<Letter>)
    requires Plain(TABLE, text) && 0.0 < dit < split <= 3.0 * dit
    ensures Sendable(TABLE, letters) && letters != [] && TextOf(TABLE, letters) == text
    ensures KeysText(TABLE, Keyed(letters, dit), text, dit, split)
  {
    hide LETTERS, FIGURES, SIGNS, Keys, TextOf, Spelled, Keyed;
    forall code | code in TABLE ensures IsCode(code) {
      TableCodes(code);
    }
    letters := Spell(TABLE, text);
    KeyedKeys(letters, dit, split);
  }
}
