/** The carrier tracker of the CW skimmer: peaks are associated with tracks window
    by window, and a call is spotted once the same carrier has shown it often enough. */
module CwTracker {
  import opened EditDistance
  import opened CallSigns
  import opened Text

  datatype Config = Config(snrThresh: real, adaptK: real, driftBins: int, mergeBins: int, confirm: int, ttlSlots: nat)

  datatype CallStat = CallStat(count: nat, lastWi: nat, cq: bool)

  datatype Track = Track(bin: int, snrEma: real, bornWi: nat, lastWi: nat,
                         callCnt: map<string, CallStat>, emitted: set<string>)

  datatype Peak = Peak(bin: int, s: real)

  datatype CwSpot = CwSpot(hz: real, wpm: real, snr: real, call: string, cq: bool)

  /** What happened on one track: the windows in which each call was decoded, and
      the calls spotted, in order. */
  datatype History = History(heard: map<string, set<nat>>, spotted: seq<string>)

  function Distance(a: int, b: int): (d: nat)
    ensures d == 0 <==> a == b
  {
    if a >= b then a - b else b - a
  }

  // ---------- Peaks ----------

  /** A local maximum over two bins on either side, at or above the gate. */
  predicate IsPeak(snr: seq<real>, gate: real, bin: int) {
    && 2 <= bin < |snr| - 2 && snr[bin] >= gate
    && snr[bin] >= snr[bin - 1] && snr[bin] >= snr[bin + 1] && snr[bin] >= snr[bin - 2] && snr[bin] >= snr[bin + 2]
  }

  predicate DistinctBins(peaks: seq<Peak>) {
    forall i, j :: 0 <= i < j < |peaks| ==> peaks[i].bin != peaks[j].bin
  }

  predicate StrongestFirst(peaks: seq<Peak>) {
    forall i, j :: 0 <= i < j < |peaks| ==> peaks[i].s >= peaks[j].s
  }

  method FindPeaks(snr: seq<real>, gate: real) returns (peaks: seq<Peak>)
    ensures DistinctBins(peaks)
    ensures forall p :: p in peaks <==> IsPeak(snr, gate, p.bin) && p.s == snr[p.bin]
  {
    peaks := [];
    var bin := 2;
    while bin < |snr| - 2
      invariant 2 <= bin && (bin > 2 ==> bin <= |snr| - 2)
      invariant DistinctBins(peaks) && forall p :: p in peaks <==> p.bin < bin && IsPeak(snr, gate, p.bin) && p.s == snr[p.bin]
    {
      var s := snr[bin];
      if !(s < gate) && !(s < snr[bin - 1] || s < snr[bin + 1] || s < snr[bin - 2] || s < snr[bin + 2]) {
        assert forall p :: p in peaks ==> p.bin != bin;
        peaks := peaks + [Peak(bin, s)];
      }
      bin := bin + 1;
    }
  }

  method SortPeaks(peaks: seq<Peak>) returns (sorted: seq<Peak>)
    requires DistinctBins(peaks)
    ensures |sorted| == |peaks| && DistinctBins(sorted) && StrongestFirst(sorted)
    ensures forall p :: p in sorted <==> p in peaks
  {
    sorted := [];
    var i := 0;
    while i < |peaks|
      invariant 0 <= i <= |peaks| == |peaks| && |sorted| == i && DistinctBins(sorted) && StrongestFirst(sorted)
      invariant forall p :: p in sorted <==> p in peaks[..i]
    {
      var k := 0;
      while k < |sorted| && sorted[k].s >= peaks[i].s
        invariant 0 <= k <= |sorted| && forall j :: 0 <= j < k ==> sorted[j].s >= peaks[i].s
      {
        k := k + 1;
      }
      NewBin(sorted, peaks, i);
      InsertedOrdered(sorted, k, peaks[i]);
      InsertedMembers(sorted, k, peaks[i]);
      assert peaks[..i + 1] == peaks[..i] + [peaks[i]];
      sorted := InsertAt(sorted, k, peaks[i]);
      i := i + 1;
    }
    assert peaks[..|peaks|] == peaks;
  }

  function InsertAt(sorted: seq<Peak>, k: nat, p: Peak): (r: seq<Peak>)
    requires k <= |sorted|
    ensures |r| == |sorted| + 1
    ensures forall j :: 0 <= j < |r| ==> r[j] == if j < k then sorted[j] else if j == k then p else sorted[j - 1]
  {
    sorted[..k] + [p] + sorted[k..]
  }

  lemma NewBin(sorted: seq<Peak>, peaks: seq<Peak>, i: nat)
    requires i < |peaks| && DistinctBins(peaks) && forall p :: p in sorted ==> p in peaks[..i]
    ensures forall j :: 0 <= j < |sorted| ==> sorted[j].bin != peaks[i].bin
  {
    forall j | 0 <= j < |sorted| ensures sorted[j].bin != peaks[i].bin {
      assert sorted[j] in peaks[..i];
    }
  }

  lemma InsertedOrdered(sorted: seq<Peak>, k: nat, p: Peak)
    requires k <= |sorted| && DistinctBins(sorted) && StrongestFirst(sorted)
    requires forall j :: 0 <= j < |sorted| ==> sorted[j].bin != p.bin
    requires forall j :: 0 <= j < k ==> sorted[j].s >= p.s
    requires k < |sorted| ==> sorted[k].s < p.s
    ensures DistinctBins(InsertAt(sorted, k, p)) && StrongestFirst(InsertAt(sorted, k, p))
  {
    assert forall j :: k <= j < |sorted| ==> sorted[j].s <= sorted[k].s;
    var r := InsertAt(sorted, k, p);
    forall i, j | 0 <= i < j < |r| ensures r[i].bin != r[j].bin && r[i].s >= r[j].s {
      assert i != k ==> r[i] == sorted[if i < k then i else i - 1];
      assert j != k ==> r[j] == sorted[if j < k then j else j - 1];
    }
  }

  lemma InsertedMembers(sorted: seq<Peak>, k: nat, p: Peak)
    requires k <= |sorted|
    ensures forall q :: q in InsertAt(sorted, k, p) <==> q in sorted || q == p
  {
    assert sorted == sorted[..k] + sorted[k..];
  }

  /** m stands in the middle of the bins when they are put in descending order. */
  ghost predicate IsMedian(snr: seq<real>, m: real) {
    exists order: seq<Peak> ::
      && |order| == |snr| > 0 && DistinctBins(order) && StrongestFirst(order)
      && (forall p :: p in order <==> 0 <= p.bin < |snr| && p.s == snr[p.bin])
      && order[|order| - 1 - |order| / 2].s == m
  }

  method Median(snr: seq<real>) returns (m: real)
    requires |snr| > 0
    ensures IsMedian(snr, m)
  {
    var all := seq(|snr|, i requires 0 <= i < |snr| => Peak(i, snr[i]));
    forall p ensures p in all <==> 0 <= p.bin < |snr| && p.s == snr[p.bin] {
      if 0 <= p.bin < |snr| && p.s == snr[p.bin] {
        assert all[p.bin] == p;
      }
    }
    var order := SortPeaks(all);
    m := order[|order| - 1 - |order| / 2].s;
  }

  /** The absolute floor, or a multiple of the median when that is higher. */
  method EffectiveGate(cfg: Config, snr: seq<real>) returns (gate: real)
    ensures gate >= cfg.snrThresh
    ensures cfg.adaptK <= 0.0 || |snr| <= 8 ==> gate == cfg.snrThresh
    ensures cfg.adaptK > 0.0 && |snr| > 8
        ==> exists m :: IsMedian(snr, m) && gate >= cfg.adaptK * m && (gate == cfg.snrThresh || gate == cfg.adaptK * m)
  {
    hide IsMedian;
    gate := cfg.snrThresh;
    if cfg.adaptK > 0.0 && |snr| > 8 {
      var m := Median(snr);
      var floated := cfg.adaptK * m;
      gate := if floated > gate then floated else gate;
    }
  }

  // ---------- Association ----------

  /** The unclaimed track nearest to a bin, if one is within drift range. */
  method Nearest(cfg: Config, tracks: seq<Track>, claimed: seq<bool>, bin: int) returns (best: int)
    requires |claimed| == |tracks|
    ensures -1 <= best < |tracks|
    ensures best == -1 ==> forall t :: 0 <= t < |tracks| && !claimed[t] ==> Distance(tracks[t].bin, bin) > cfg.driftBins
    ensures best >= 0 ==> !claimed[best] && Distance(tracks[best].bin, bin) <= cfg.driftBins
    ensures best >= 0
        ==> forall t :: 0 <= t < |tracks| && !claimed[t] ==> Distance(tracks[best].bin, bin) <= Distance(tracks[t].bin, bin)
  {
    best := -1;
    var bestD := cfg.driftBins + 1;
    var t := 0;
    while t < |tracks|
      invariant 0 <= t <= |tracks| && -1 <= best < t
      invariant best == -1 ==> bestD == cfg.driftBins + 1
      invariant best >= 0 ==> !claimed[best] && bestD == Distance(tracks[best].bin, bin) <= cfg.driftBins
      invariant forall u :: 0 <= u < t && !claimed[u] ==> Distance(tracks[u].bin, bin) >= bestD
    {
      if !claimed[t] {
        var d := Distance(tracks[t].bin, bin);
        if d <= cfg.driftBins && d < bestD {
          best, bestD := t, d;
        }
      }
      t := t + 1;
    }
  }

  /** Same carrier, same record: only the position, the level and the time may have moved. */
  predicate SameRecord(t: Track, u: Track) {
    t.bornWi == u.bornWi && t.callCnt == u.callCnt && t.emitted == u.emitted
  }

  predicate AtPeak(bin: int, peaks: seq<Peak>, k: nat)
    requires k <= |peaks|
  {
    exists j :: 0 <= j < k && peaks[j].bin == bin
  }

  /** The state of the association after k peaks: tracks are claimed by distinct
      peaks, unclaimed ones are as they were, and new ones are blank. */
  ghost predicate Associating(cfg: Config, before: seq<Track>, tracks: seq<Track>, claimed: seq<bool>,
                              peaks: seq<Peak>, k: nat, wi: nat)
  {
    && k <= |peaks| && |before| <= |tracks| == |claimed|
    && (forall t :: 0 <= t < |tracks| ==> (claimed[t] <==> tracks[t].lastWi == wi))
    && (forall t :: 0 <= t < |tracks| && claimed[t] ==> AtPeak(tracks[t].bin, peaks, k))
    && (forall t, u :: 0 <= t < u < |tracks| && claimed[t] && claimed[u] ==> tracks[t].bin != tracks[u].bin)
    && (forall t :: 0 <= t < |before| ==> SameRecord(tracks[t], before[t]))
    && (forall t :: 0 <= t < |before| && claimed[t] ==> Distance(tracks[t].bin, before[t].bin) <= cfg.driftBins)
    && (forall t :: 0 <= t < |before| && !claimed[t] ==> tracks[t] == before[t])
    && (forall t :: |before| <= t < |tracks|
          ==> claimed[t] && tracks[t].bornWi == wi && tracks[t].callCnt == map[] && tracks[t].emitted == {})
  }

  lemma Claimed(cfg: Config, before: seq<Track>, tracks: seq<Track>, claimed: seq<bool>, peaks: seq<Peak>, k: nat,
                wi: nat, best: nat, t: Track)
    requires Associating(cfg, before, tracks, claimed, peaks, k, wi) && k < |peaks| && DistinctBins(peaks)
    requires best < |tracks| && !claimed[best] && Distance(tracks[best].bin, peaks[k].bin) <= cfg.driftBins
    requires t.bin == peaks[k].bin && t.lastWi == wi && SameRecord(t, tracks[best])
    ensures Associating(cfg, before, tracks[best := t], claimed[best := true], peaks, k + 1, wi)
  {
    FreshBin(tracks, claimed, peaks, k);
    var tracks', claimed' := tracks[best := t], claimed[best := true];
    forall u | 0 <= u < |tracks'| && claimed'[u] ensures AtPeak(tracks'[u].bin, peaks, k + 1) {
      LaterPeak(tracks'[u].bin, peaks, k);
    }
  }

  lemma Born(cfg: Config, before: seq<Track>, tracks: seq<Track>, claimed: seq<bool>, peaks: seq<Peak>, k: nat,
             wi: nat, s: real)
    requires Associating(cfg, before, tracks, claimed, peaks, k, wi) && k < |peaks| && DistinctBins(peaks)
    ensures Associating(cfg, before, tracks + [Track(peaks[k].bin, s, wi, wi, map[], {})], claimed + [true], peaks, k + 1, wi)
  {
    FreshBin(tracks, claimed, peaks, k);
    var tracks' := tracks + [Track(peaks[k].bin, s, wi, wi, map[], {})];
    var claimed' := claimed + [true];
    forall u | 0 <= u < |tracks'| && claimed'[u] ensures AtPeak(tracks'[u].bin, peaks, k + 1) {
      LaterPeak(tracks'[u].bin, peaks, k);
    }
  }

  lemma Shadowed(cfg: Config, before: seq<Track>, tracks: seq<Track>, claimed: seq<bool>, peaks: seq<Peak>, k: nat,
                 wi: nat)
    requires Associating(cfg, before, tracks, claimed, peaks, k, wi) && k < |peaks|
    ensures Associating(cfg, before, tracks, claimed, peaks, k + 1, wi)
  {
    forall u | 0 <= u < |tracks| && claimed[u] ensures AtPeak(tracks[u].bin, peaks, k + 1) {
      LaterPeak(tracks[u].bin, peaks, k);
    }
  }

  lemma LaterPeak(bin: int, peaks: seq<Peak>, k: nat)
    requires k < |peaks|
    ensures AtPeak(bin, peaks, k) || bin == peaks[k].bin ==> AtPeak(bin, peaks, k + 1)
  {
  }

  /** No claimed track sits on the next peak's bin. */
  lemma FreshBin(tracks: seq<Track>, claimed: seq<bool>, peaks: seq<Peak>, k: nat)
    requires |tracks| == |claimed| && k < |peaks| && DistinctBins(peaks)
    requires forall t :: 0 <= t < |tracks| && claimed[t] ==> AtPeak(tracks[t].bin, peaks, k)
    ensures forall t :: 0 <= t < |tracks| && claimed[t] ==> tracks[t].bin != peaks[k].bin
  {
  }

  /** Follow the carriers: each peak claims the nearest free track in range, or
      starts a track unless it is the shoulder of one. */
  method Associate(cfg: Config, before: seq<Track>, peaks: seq<Peak>, wi: nat)
    returns (tracks: seq<Track>, claimed: seq<bool>)
    requires DistinctBins(peaks) && forall t :: 0 <= t < |before| ==> before[t].lastWi < wi
    ensures Associating(cfg, before, tracks, claimed, peaks, |peaks|, wi)
  {
    hide Associating, DistinctBins;
    tracks, claimed := before, seq(|before|, _ => false);
    NothingClaimed(cfg, before, claimed, peaks, wi);
    var k := 0;
    while k < |peaks|
      invariant 0 <= k <= |peaks| && |claimed| == |tracks|
      invariant Associating(cfg, before, tracks, claimed, peaks, k, wi)
    {
      var p := peaks[k];
      var best := Nearest(cfg, tracks, claimed, p.bin);
      if best >= 0 {
        var t := tracks[best];
        var t' := t.(bin := p.bin, snrEma := 0.7 * t.snrEma + 0.3 * p.s, lastWi := wi);
        Claimed(cfg, before, tracks, claimed, peaks, k, wi, best, t');
        tracks, claimed := tracks[best := t'], claimed[best := true];
      } else {
        var shadowed := IsShadowed(cfg, tracks, p.bin);
        if shadowed {
          Shadowed(cfg, before, tracks, claimed, peaks, k, wi);
        } else {
          Born(cfg, before, tracks, claimed, peaks, k, wi, p.s);
          tracks := tracks + [Track(p.bin, p.s, wi, wi, map[], {})];
          claimed := claimed + [true];
        }
      }
      k := k + 1;
    }
  }

  lemma NothingClaimed(cfg: Config, before: seq<Track>, claimed: seq<bool>, peaks: seq<Peak>, wi: nat)
    requires |claimed| == |before| && forall t :: 0 <= t < |before| ==> before[t].lastWi < wi && !claimed[t]
    ensures Associating(cfg, before, before, claimed, peaks, 0, wi)
  {
  }

  method IsShadowed(cfg: Config, tracks: seq<Track>, bin: int) returns (r: bool)
    ensures r <==> exists t :: 0 <= t < |tracks| && Distance(tracks[t].bin, bin) <= cfg.mergeBins
  {
    var t := 0;
    while t < |tracks|
      invariant 0 <= t <= |tracks| && forall u :: 0 <= u < t ==> Distance(tracks[u].bin, bin) > cfg.mergeBins
    {
      if Distance(tracks[t].bin, bin) <= cfg.mergeBins {
        return true;
      }
      t := t + 1;
    }
    return false;
  }

  // ---------- Expiry ----------

  /** kept lists exactly the tracks that are not idle for too long, in order. */
  ghost predicate Survivors(tracks: seq<Track>, kept: seq<Track>, origin: seq<nat>, wi: nat, ttl: nat, n: nat) {
    && n <= |tracks| && |origin| == |kept|
    && (forall i :: 0 <= i < |kept| ==> origin[i] < n && kept[i] == tracks[origin[i]])
    && (forall i, j :: 0 <= i < j < |kept| ==> origin[i] < origin[j])
    && (forall t :: 0 <= t < n ==> (t in origin <==> wi - tracks[t].lastWi <= ttl))
  }

  method Expire(tracks: seq<Track>, wi: nat, ttl: nat) returns (kept: seq<Track>, ghost origin: seq<nat>)
    ensures Survivors(tracks, kept, origin, wi, ttl, |tracks|)
  {
    kept, origin := [], [];
    var t := 0;
    while t < |tracks|
      invariant 0 <= t <= |tracks| && Survivors(tracks, kept, origin, wi, ttl, t)
    {
      if !(wi - tracks[t].lastWi > ttl) {
        kept, origin := kept + [tracks[t]], origin + [t];
      }
      t := t + 1;
    }
  }

  // ---------- What one window shows on one track ----------

  predicate IsCqWord(tok: string) {
    tok == "CQ" || tok == "QRZ"
  }

  /** The window's text yields this call. */
  ghost predicate Sighted(txt: string, call: string) {
    call != "" && exists i :: 0 <= i < |Tokens(txt)| && !IsCqWord(Tokens(txt)[i]) && Yields(Tokens(txt)[i], call)
  }

  ghost predicate YieldedTo(toks: seq<string>, n: nat, call: string)
    requires n <= |toks|
  {
    exists j :: 0 <= j < n && !IsCqWord(toks[j]) && Yields(toks[j], call)
  }

  lemma YieldsUnique(tok: string, a: string, b: string)
    requires Yields(tok, a) && Yields(tok, b)
    ensures a == b
  {
    hide StartsWith, CallShape;
    if exists k :: 0 <= k < |PREFIXES| && Strips(tok, k) {
      var k :| 0 <= k < |PREFIXES| && Strips(tok, k) && a == tok[|PREFIXES[k]|..] && forall j :: 0 <= j < k ==> !Strips(tok, j);
      var l :| 0 <= l < |PREFIXES| && Strips(tok, l) && b == tok[|PREFIXES[l]|..] && forall j :: 0 <= j < l ==> !Strips(tok, j);
      assert k == l;
    }
  }

  /** The unique calls of one window's text, and whether a general call was heard in it. */
  method Sightings(txt: string) returns (seen: set<string>, windowCq: bool)
    ensures forall c :: c in seen <==> Sighted(txt, c)
    ensures (exists t :: t in Tokens(txt) && IsCqWord(t)) ==> windowCq
    ensures windowCq ==> exists t :: t in Tokens(txt) && (StartsWith(t, "CQ") || StartsWith(t, "QRZ"))
  {
    hide Yields, Tokens;
    var toks := Split(txt);
    seen, windowCq := {}, false;
    var i := 0;
    while i < |toks|
      invariant 0 <= i <= |toks|
      invariant forall c :: c in seen <==> c != "" && YieldedTo(toks, i, c)
      invariant (exists t :: t in toks[..i] && IsCqWord(t)) ==> windowCq
      invariant windowCq ==> exists t :: t in toks && (StartsWith(t, "CQ") || StartsWith(t, "QRZ"))
    {
      var tok := toks[i];
      assert toks[..i + 1] == toks[..i] + [tok];
      if tok == "CQ" || tok == "QRZ" {
        assert tok in toks && (StartsWith(tok, "CQ") || StartsWith(tok, "QRZ"));
        windowCq := true;
      } else {
        var call := ExtractCall(tok);
        forall c | Yields(tok, c) ensures c == call {
          YieldsUnique(tok, c, call);
        }
        if call != "" {
          if call != tok && (StartsWith(tok, "CQ") || StartsWith(tok, "QRZ")) {
            assert tok in toks;
            windowCq := true;
          }
          seen := seen + {call};
        }
      }
      i := i + 1;
    }
    assert toks[..|toks|] == toks;
  }

  // ---------- Counting ----------

  /** A window's sightings added to what was heard before. */
  function HeardAlso(heard: map<string, set<nat>>, seen: set<string>, wi: nat): (h: map<string, set<nat>>)
    ensures h.Keys == heard.Keys + seen
    ensures forall c :: c in seen ==> h[c] == (if c in heard then heard[c] else {}) + {wi}
    ensures forall c :: c in heard && c !in seen ==> h[c] == heard[c]
  {
    map c | c in heard.Keys + seen ::
      if c in seen then (if c in heard then heard[c] else {}) + {wi} else heard[c]
  }

  /** The count is the number of windows, of which the last is recorded. */
  ghost predicate CountsOne(cs: CallStat, windows: set<nat>, bound: nat) {
    cs.count == |windows| && cs.lastWi in windows && forall w :: w in windows ==> w <= cs.lastWi < bound
  }

  ghost predicate Counts(callCnt: map<string, CallStat>, heard: map<string, set<nat>>, bound: nat) {
    callCnt.Keys == heard.Keys && forall c :: c in heard ==> CountsOne(callCnt[c], heard[c], bound)
  }

  lemma OneMoreWindow(cs: CallStat, windows: set<nat>, wi: nat, cq: bool)
    requires CountsOne(cs, windows, wi) || (cs.count == 0 && windows == {})
    ensures CountsOne(CallStat(cs.count + 1, wi, cq), windows + {wi}, wi + 1)
  {
    assert wi !in windows;
    assert |windows + {wi}| == |windows| + 1;
  }

  function Windows(heard: map<string, set<nat>>, call: string): set<nat> {
    if call in heard then heard[call] else {}
  }

  /** The sightings in done have been counted, the others not yet. */
  ghost predicate CountedTo(callCnt: map<string, CallStat>, counted: map<string, CallStat>,
                            heard: map<string, set<nat>>, done: set<string>, wi: nat)
  {
    && counted.Keys == callCnt.Keys + done
    && forall c :: c in counted ==>
         if c in done then CountsOne(counted[c], Windows(heard, c) + {wi}, wi + 1) && counted[c].lastWi == wi
         else c in callCnt && counted[c] == callCnt[c]
  }

  lemma CountedOne(callCnt: map<string, CallStat>, counted: map<string, CallStat>, heard: map<string, set<nat>>,
                   done: set<string>, wi: nat, call: string, cs: CallStat, cq: bool)
    requires Counts(callCnt, heard, wi) && CountedTo(callCnt, counted, heard, done, wi) && call !in done
    requires cs == if call in counted then counted[call] else CallStat(0, 0, false)
    ensures CountedTo(callCnt, counted[call := CallStat(cs.count + 1, wi, cq)], heard, done + {call}, wi)
  {
    hide CountsOne;
    OneMoreWindow(cs, Windows(heard, call), wi, cq);
  }

  lemma CountedAll(callCnt: map<string, CallStat>, counted: map<string, CallStat>, heard: map<string, set<nat>>,
                   seen: set<string>, wi: nat)
    requires Counts(callCnt, heard, wi) && CountedTo(callCnt, counted, heard, seen, wi)
    ensures Counts(counted, HeardAlso(heard, seen, wi), wi + 1)
    ensures forall c :: c in seen ==> c in counted && counted[c].lastWi == wi
  {
    hide CountsOne, HeardAlso;
    var h := HeardAlso(heard, seen, wi);
    forall c | c in h ensures CountsOne(counted[c], h[c], wi + 1) {
      if c !in seen {
        CountsLater(callCnt[c], heard[c], wi, wi + 1);
      }
    }
  }

  method CountSightings(callCnt: map<string, CallStat>, seen: set<string>, wi: nat, windowCq: bool,
                        ghost heard: map<string, set<nat>>) returns (counted: map<string, CallStat>)
    requires Counts(callCnt, heard, wi)
    ensures Counts(counted, HeardAlso(heard, seen, wi), wi + 1)
    ensures forall c :: c in seen ==> c in counted && counted[c].lastWi == wi
  {
    hide HeardAlso, CountedTo, Counts;
    counted := callCnt;
    var remaining := seen;
    ghost var done := {};
    NothingCounted(callCnt, heard, wi);
    while remaining != {}
      invariant done + remaining == seen && done !! remaining
      invariant CountedTo(callCnt, counted, heard, done, wi)
      decreases |remaining|
    {
      var call :| call in remaining;
      var cs := if call in counted then counted[call] else CallStat(0, 0, false);
      CountedOne(callCnt, counted, heard, done, wi, call, cs, cs.cq || windowCq);
      counted := counted[call := CallStat(cs.count + 1, wi, cs.cq || windowCq)];
      remaining, done := remaining - {call}, done + {call};
    }
    assert done == seen;
    CountedAll(callCnt, counted, heard, seen, wi);
  }

  lemma NothingCounted(callCnt: map<string, CallStat>, heard: map<string, set<nat>>, wi: nat)
    ensures CountedTo(callCnt, callCnt, heard, {}, wi)
  {
  }

  lemma CountsLater(cs: CallStat, windows: set<nat>, bound: nat, bound': nat)
    requires CountsOne(cs, windows, bound) && bound <= bound'
    ensures CountsOne(cs, windows, bound')
  {
  }

  // ---------- Spotting ----------

  /** call is a fragment of e or a respelling of it at distance at most one. */
  ghost predicate Variant(e: string, call: string) {
    (|e| > |call| && e[..|call|] == call) || Levenshtein(e, call) <= 1
  }

  method IsVariant(emitted: set<string>, call: string) returns (r: bool)
    ensures r <==> exists e :: e in emitted && Variant(e, call)
  {
    var remaining := emitted;
    while remaining != {}
      invariant remaining <= emitted && forall e :: e in emitted - remaining ==> !Variant(e, call)
      decreases |remaining|
    {
      var e :| e in remaining;
      var near := EditDistLE1(e, call);
      if (|e| > |call| && e[..|call|] == call) || near {
        return true;
      }
      remaining := remaining - {e};
    }
    return false;
  }

  /** Decoded at least half as often as every call heard recently on this carrier. */
  predicate Dominant(callCnt: map<string, CallStat>, mine: int, wi: nat, recent: nat) {
    forall c :: c in callCnt && wi - callCnt[c].lastWi <= recent ==> callCnt[c].count <= 2 * mine
  }

  method RecentBest(callCnt: map<string, CallStat>, wi: nat, recent: nat) returns (best: nat)
    ensures forall mine: int :: mine >= 0 ==> (2 * mine >= best <==> Dominant(callCnt, mine, wi, recent))
  {
    best := 0;
    ghost var top := "";
    var remaining := callCnt.Keys;
    while remaining != {}
      invariant remaining <= callCnt.Keys
      invariant forall c :: c in callCnt && c !in remaining && wi - callCnt[c].lastWi <= recent ==> callCnt[c].count <= best
      invariant best > 0 ==> top in callCnt && wi - callCnt[top].lastWi <= recent && callCnt[top].count == best
      decreases |remaining|
    {
      var c :| c in remaining;
      if wi - callCnt[c].lastWi <= recent && callCnt[c].count > best {
        best, top := callCnt[c].count, c;
      }
      remaining := remaining - {c};
    }
  }

  /** No spotted call is a variant of one spotted before it. */
  ghost predicate Apart(spotted: seq<string>) {
    forall i, j :: 0 <= i < j < |spotted| ==> !Variant(spotted[i], spotted[j])
  }

  /** A call that nothing spotted makes a variant keeps the list apart. */
  lemma ApartAppend(spotted: seq<string>, call: string)
    requires Apart(spotted) && forall e :: e in spotted ==> !Variant(e, call)
    ensures Apart(spotted + [call])
  {
  }

  /** Calls on one track are spotted once, and respellings are never both spotted. */
  lemma ApartMeans(spotted: seq<string>, i: nat, j: nat)
    requires Apart(spotted) && i < j < |spotted|
    ensures spotted[i] != spotted[j] && Levenshtein(spotted[i], spotted[j]) > 1
  {
    DistanceZero(spotted[i], spotted[j]);
    assert !Variant(spotted[i], spotted[j]);
  }

  /** The call has been heard often enough and is not swamped by another one. */
  predicate Confirmed(cfg: Config, callCnt: map<string, CallStat>, call: string, wi: nat) {
    call in callCnt && callCnt[call].count >= cfg.confirm
    && Dominant(callCnt, callCnt[call].count, wi, cfg.ttlSlots / 4)
  }

  /** The call is spotted, or a variant of one that is. */
  ghost predicate Covered(emitted: set<string>, call: string) {
    call in emitted || exists e :: e in emitted && Variant(e, call)
  }

  /** Spot the newly confirmed calls, in whatever order the set yields them. */
  method SpotCalls(cfg: Config, callCnt: map<string, CallStat>, emitted: set<string>, seen: set<string>, wi: nat,
                   ghost spotted: seq<string>)
    returns (emitted': set<string>, newly: seq<string>)
    requires forall c :: c in seen ==> c in callCnt
    requires Apart(spotted) && forall c :: c in emitted <==> c in spotted
    ensures Apart(spotted + newly) && forall c :: c in emitted' <==> c in spotted + newly
    ensures forall c :: c in newly ==> c in seen && Confirmed(cfg, callCnt, c, wi)
    ensures forall c :: c in seen && Confirmed(cfg, callCnt, c, wi) ==> Covered(emitted', c)
  {
    hide Variant, Apart, Dominant;
    emitted', newly := emitted, [];
    assert spotted + [] == spotted;
    var remaining := seen;
    while remaining != {}
      invariant remaining <= seen
      invariant Apart(spotted + newly) && forall c :: c in emitted' <==> c in spotted + newly
      invariant forall c :: c in newly ==> c in seen && Confirmed(cfg, callCnt, c, wi)
      invariant forall c :: c in seen && c !in remaining && Confirmed(cfg, callCnt, c, wi) ==> Covered(emitted', c)
      decreases |remaining|
    {
      var call :| call in remaining;
      remaining := remaining - {call};
      var mine := callCnt[call].count;
      if mine >= cfg.confirm && call !in emitted' {
        var best := RecentBest(callCnt, wi, cfg.ttlSlots / 4);
        if !(mine * 2 < best) {
          var variant := IsVariant(emitted', call);
          if !variant {
            ApartAppend(spotted + newly, call);
            assert spotted + (newly + [call]) == spotted + newly + [call];
            emitted', newly := emitted' + {call}, newly + [call];
          }
        }
      }
    }
  }

  // ---------- One track, one window ----------

  /** A track agrees with its history: counts are numbers of windows, what was
      spotted had been heard in enough windows, and spotted calls are apart. */
  ghost predicate Consistent(cfg: Config, t: Track, h: History, bound: nat) {
    && Counts(t.callCnt, h.heard, bound)
    && (forall c :: c in t.emitted <==> c in h.spotted)
    && (forall c :: c in h.spotted ==> c in h.heard && |h.heard[c]| >= cfg.confirm)
    && Apart(h.spotted)
  }

  /** The window's sightings and spots are exactly what the history gained. Only
      confirmed calls are spotted, and of those sighted every one is spotted or a
      variant of one that is. */
  ghost predicate Gained(cfg: Config, t': Track, h: History, h': History, txt: string, wi: nat, newly: seq<string>) {
    && h'.spotted == h.spotted + newly
    && (forall c :: c in h'.heard <==> c in h.heard || Sighted(txt, c))
    && (forall c :: c in h'.heard ==> h'.heard[c] == Windows(h.heard, c) + if Sighted(txt, c) then {wi} else {})
    && (forall c :: c in newly ==> Sighted(txt, c) && Confirmed(cfg, t'.callCnt, c, wi))
    && (forall c :: Sighted(txt, c) && Confirmed(cfg, t'.callCnt, c, wi) ==> Covered(t'.emitted, c))
  }

  /** What a spot tells: a frequency and a call. */
  function Notices(spots: seq<CwSpot>): (c: seq<(real, string)>)
    ensures |c| == |spots| && forall i :: 0 <= i < |spots| ==> c[i] == (spots[i].hz, spots[i].call)
  {
    seq(|spots|, i requires 0 <= i < |spots| => (spots[i].hz, spots[i].call))
  }

  function AtFrequency(hz: real, calls: seq<string>): (c: seq<(real, string)>)
    ensures |c| == |calls| && forall i :: 0 <= i < |calls| ==> c[i] == (hz, calls[i])
  {
    seq(|calls|, i requires 0 <= i < |calls| => (hz, calls[i]))
  }

  method DecodeTrack(cfg: Config, t: Track, ghost h: History, wi: nat, hz: real, wpm: real, txt: string)
    returns (t': Track, ghost h': History, spots: seq<CwSpot>, ghost newly: seq<string>)
    requires Consistent(cfg, t, h, wi)
    ensures Consistent(cfg, t', h', wi + 1) && Gained(cfg, t', h, h', txt, wi, newly)
    ensures t'.bin == t.bin && t'.lastWi == t.lastWi && t'.bornWi == t.bornWi
    ensures Notices(spots) == AtFrequency(hz, newly)
  {
    hide Counts, Apart, Sighted, Covered, Confirmed, HeardAlso;
    var seen, windowCq := Sightings(txt);
    var counted := CountSightings(t.callCnt, seen, wi, windowCq, h.heard);
    var emitted', calls := SpotCalls(cfg, counted, t.emitted, seen, wi, h.spotted);
    newly := calls;
    t' := t.(callCnt := counted, emitted := emitted');
    h' := History(HeardAlso(h.heard, seen, wi), h.spotted + calls);
    spots := [];
    var i := 0;
    while i < |calls|
      invariant 0 <= i <= |calls| && |spots| == i
      invariant forall j :: 0 <= j < i ==> spots[j].call == calls[j] && spots[j].hz == hz
    {
      CallCounted(cfg, counted, h'.heard, calls[i], wi);
      spots := spots + [CwSpot(hz, wpm, t.snrEma, calls[i], counted[calls[i]].cq)];
      i := i + 1;
    }
    SpottedWereHeard(cfg, h, h', counted, seen, calls, wi);
  }

  lemma CallCounted(cfg: Config, counted: map<string, CallStat>, heard: map<string, set<nat>>, call: string, wi: nat)
    requires Counts(counted, heard, wi + 1) && Confirmed(cfg, counted, call, wi)
    ensures call in counted && call in heard && |heard[call]| >= cfg.confirm
  {
  }

  lemma SpottedWereHeard(cfg: Config, h: History, h': History, counted: map<string, CallStat>, seen: set<string>,
                         calls: seq<string>, wi: nat)
    requires h' == History(HeardAlso(h.heard, seen, wi), h.spotted + calls) && Counts(counted, h'.heard, wi + 1)
    requires forall c :: c in calls ==> Confirmed(cfg, counted, c, wi)
    requires forall c :: c in h.spotted ==> c in h.heard && |h.heard[c]| >= cfg.confirm
    ensures forall c :: c in h'.spotted ==> c in h'.heard && |h'.heard[c]| >= cfg.confirm
  {
    hide Confirmed, Counts, HeardAlso;
    forall c | c in h'.spotted ensures c in h'.heard && |h'.heard[c]| >= cfg.confirm {
      if c in calls {
        CallCounted(cfg, counted, h'.heard, c, wi);
      } else {
        assert c in h.spotted;
        if c in seen {
          Grows(h.heard[c], wi);
        }
      }
    }
  }

  lemma Grows(s: set<nat>, w: nat)
    ensures |s + {w}| >= |s|
  {
    if w in s {
      assert s + {w} == s;
    } else {
      assert |s + {w}| == |s| + 1;
    }
  }

  // ---------- All tracks, one window ----------

  const BLANK := History(map[], [])

  /** Every track agrees with its history, and was last matched before bound. */
  ghost predicate Sound(cfg: Config, tracks: seq<Track>, log: seq<History>, bound: nat) {
    |log| == |tracks| && forall i :: 0 <= i < |tracks| ==> Consistent(cfg, tracks[i], log[i], bound)
  }

  /** The tracks matched in this window sit on distinct peaks. */
  ghost predicate OnDistinctPeaks(tracks: seq<Track>, snr: seq<real>, gate: real, wi: nat) {
    && (forall i :: 0 <= i < |tracks| && tracks[i].lastWi == wi ==> IsPeak(snr, gate, tracks[i].bin))
    && (forall i, j :: 0 <= i < j < |tracks| && tracks[i].lastWi == wi == tracks[j].lastWi
          ==> tracks[i].bin != tracks[j].bin)
  }

  /** The calls of each track, at the frequency the track is on. */
  function Announced(tracks: seq<Track>, newly: seq<seq<string>>, binToHz: int -> real): seq<(real, string)>
    requires |tracks| == |newly|
  {
    if newly == [] then []
    else
      var n := |newly| - 1;
      Announced(tracks[..n], newly[..n], binToHz) + AtFrequency(binToHz(tracks[n].bin), newly[n])
  }

  /** A track that is matched in this window, and in band, gains what its text shows; others stay. */
  ghost predicate Continues(cfg: Config, t: Track, h: History, h': History, wi: nat, decode: int -> string,
                            binToHz: int -> real, newly: seq<string>)
  {
    if t.lastWi == wi && binToHz(t.bin) > 0.0 then Gained(cfg, t, h, h', decode(t.bin), wi, newly)
    else h' == h && newly == []
  }

  lemma ConsistentLater(cfg: Config, t: Track, h: History, bound: nat, bound': nat)
    requires Consistent(cfg, t, h, bound) && bound <= bound'
    ensures Consistent(cfg, t, h, bound')
  {
    forall c | c in h.heard ensures CountsOne(t.callCnt[c], h.heard[c], bound') {
      CountsLater(t.callCnt[c], h.heard[c], bound, bound');
    }
  }

  /** The state after decoding the first n tracks. */
  ghost predicate Decoded(cfg: Config, before: seq<Track>, log: seq<History>, tracks: seq<Track>, log': seq<History>,
                          n: nat, wi: nat, decode: int -> string, binToHz: int -> real, newly: seq<seq<string>>)
  {
    && n == |tracks| == |log'| == |newly| && n <= |before| == |log|
    && forall i :: 0 <= i < n ==>
         && tracks[i].bin == before[i].bin && tracks[i].lastWi == before[i].lastWi && tracks[i].bornWi == before[i].bornWi
         && Consistent(cfg, tracks[i], log'[i], wi + 1)
         && Continues(cfg, tracks[i], log[i], log'[i], wi, decode, binToHz, newly[i])
  }

  lemma NoneAnnounced(binToHz: int -> real)
    ensures Notices([]) == Announced([], [], binToHz)
  {
  }

  lemma NoNotice(hz: real)
    ensures Notices([]) == AtFrequency(hz, [])
  {
  }

  lemma OneMoreAnnounced(tracks: seq<Track>, newly: seq<seq<string>>, binToHz: int -> real, spots: seq<CwSpot>,
                         more: seq<CwSpot>, t: Track, gained: seq<string>)
    requires |tracks| == |newly| && Notices(spots) == Announced(tracks, newly, binToHz)
    requires Notices(more) == AtFrequency(binToHz(t.bin), gained)
    ensures Notices(spots + more) == Announced(tracks + [t], newly + [gained], binToHz)
  {
    assert (newly + [gained])[..|newly|] == newly && (tracks + [t])[..|tracks|] == tracks;
    assert Notices(spots + more) == Notices(spots) + Notices(more);
  }

  method DecodeAll(cfg: Config, before: seq<Track>, ghost log: seq<History>, wi: nat, decode: int -> string,
                   wpm: int -> real, binToHz: int -> real)
    returns (tracks: seq<Track>, ghost log': seq<History>, spots: seq<CwSpot>, ghost newly: seq<seq<string>>)
    requires Sound(cfg, before, log, wi)
    ensures Decoded(cfg, before, log, tracks, log', |before|, wi, decode, binToHz, newly)
    ensures Notices(spots) == Announced(tracks, newly, binToHz)
  {
    hide Consistent, Gained, Announced, Notices, AtFrequency;
    NoneAnnounced(binToHz);
    tracks, log', spots, newly := [], [], [], [];
    var i := 0;
    while i < |before|
      invariant 0 <= i <= |before|
      invariant Decoded(cfg, before, log, tracks, log', i, wi, decode, binToHz, newly)
      invariant Notices(spots) == Announced(tracks, newly, binToHz)
    {
      var t := before[i];
      ghost var h', gained := log[i], [];
      var more: seq<CwSpot> := [];
      NoNotice(binToHz(t.bin));
      ConsistentLater(cfg, t, log[i], wi, wi + 1);
      if t.lastWi == wi {
        var hz := binToHz(t.bin);
        if !(hz <= 0.0) {
          t, h', more, gained := DecodeTrack(cfg, t, log[i], wi, hz, wpm(t.bin), decode(t.bin));
        }
      }
      OneMoreAnnounced(tracks, newly, binToHz, spots, more, t, gained);
      tracks, log', spots, newly := tracks + [t], log' + [h'], spots + more, newly + [gained];
      i := i + 1;
    }
  }

  /** After the association every track, old or new, still agrees with its history. */
  lemma AssociatedSound(cfg: Config, before: seq<Track>, log: seq<History>, tracks: seq<Track>, claimed: seq<bool>,
                        peaks: seq<Peak>, wi: nat, bound: nat)
    requires Sound(cfg, before, log, bound) && bound <= wi
    requires Associating(cfg, before, tracks, claimed, peaks, |peaks|, wi)
    ensures Sound(cfg, tracks, log + seq(|tracks| - |before|, _ => BLANK), wi)
  {
    var log' := log + seq(|tracks| - |before|, _ => BLANK);
    forall i | 0 <= i < |tracks| ensures Consistent(cfg, tracks[i], log'[i], wi) {
      if i < |before| {
        assert SameRecord(tracks[i], before[i]);
        ConsistentLater(cfg, before[i], log[i], bound, wi);
      }
    }
  }

  lemma AssociatedDistinct(cfg: Config, before: seq<Track>, tracks: seq<Track>, claimed: seq<bool>, peaks: seq<Peak>,
                           wi: nat, snr: seq<real>, gate: real)
    requires Associating(cfg, before, tracks, claimed, peaks, |peaks|, wi)
    requires forall p :: p in peaks ==> IsPeak(snr, gate, p.bin)
    ensures OnDistinctPeaks(tracks, snr, gate, wi)
  {
    hide IsPeak;
    forall i | 0 <= i < |tracks| && tracks[i].lastWi == wi ensures IsPeak(snr, gate, tracks[i].bin) {
      var j :| 0 <= j < |peaks| && peaks[j].bin == tracks[i].bin;
      assert peaks[j] in peaks;
    }
  }

  /** A track from before is matched within drift range, or stays where it was. */
  predicate Followed(cfg: Config, t: Track, t': Track, wi: nat) {
    && t'.bornWi == t.bornWi
    && if t'.lastWi == wi then Distance(t'.bin, t.bin) <= cfg.driftBins else t'.bin == t.bin && t'.lastWi == t.lastWi
  }

  /** What one window does to the tracks and their histories. */
  ghost predicate Advances(cfg: Config, before: seq<Track>, log: seq<History>, tracks: seq<Track>, log': seq<History>,
                           origin: seq<nat>, wi: nat, decode: int -> string, binToHz: int -> real,
                           newly: seq<seq<string>>)
  {
    && |log| == |before| && |tracks| == |log'| == |origin| == |newly|
    && (forall i :: 0 <= i < |tracks| ==> wi - tracks[i].lastWi <= cfg.ttlSlots)
    && (forall i :: 0 <= i < |tracks| && origin[i] >= |before| ==> tracks[i].bornWi == wi == tracks[i].lastWi)
    && (forall i :: 0 <= i < |tracks| && origin[i] < |before| ==> Followed(cfg, before[origin[i]], tracks[i], wi))
    && (forall i, j :: 0 <= i < j < |tracks| ==> origin[i] < origin[j])
    && (forall t :: 0 <= t < |before| && t !in origin ==> wi - before[t].lastWi > cfg.ttlSlots)
    && (forall i :: 0 <= i < |tracks| ==>
          Continues(cfg, tracks[i], if origin[i] < |before| then log[origin[i]] else BLANK, log'[i], wi, decode, binToHz, newly[i]))
  }

  lemma WindowAdvances(cfg: Config, before: seq<Track>, log: seq<History>, matched: seq<Track>, claimed: seq<bool>,
                       peaks: seq<Peak>, kept: seq<Track>, origin: seq<nat>, keptLog: seq<History>,
                       tracks: seq<Track>, log': seq<History>, wi: nat, decode: int -> string, binToHz: int -> real,
                       newly: seq<seq<string>>)
    requires |log| == |before| && Associating(cfg, before, matched, claimed, peaks, |peaks|, wi)
    requires forall t :: 0 <= t < |before| ==> before[t].lastWi < wi
    requires Survivors(matched, kept, origin, wi, cfg.ttlSlots, |matched|)
    requires |keptLog| == |kept| && forall i :: 0 <= i < |kept| ==>
               keptLog[i] == if origin[i] < |before| then log[origin[i]] else BLANK
    requires Decoded(cfg, kept, keptLog, tracks, log', |kept|, wi, decode, binToHz, newly)
    ensures Advances(cfg, before, log, tracks, log', origin, wi, decode, binToHz, newly)
  {
    hide Consistent, Gained;
    forall i | 0 <= i < |tracks| ensures wi - tracks[i].lastWi <= cfg.ttlSlots {
      assert origin[i] in origin && kept[i] == matched[origin[i]];
    }
    forall i | 0 <= i < |tracks| && origin[i] < |before| ensures Followed(cfg, before[origin[i]], tracks[i], wi) {
      assert SameRecord(matched[origin[i]], before[origin[i]]) && kept[i] == matched[origin[i]];
    }
    forall t | 0 <= t < |before| && t !in origin ensures wi - before[t].lastWi > cfg.ttlSlots {
      assert wi - matched[t].lastWi > cfg.ttlSlots;
    }
  }

  lemma KeptDistinct(matched: seq<Track>, kept: seq<Track>, origin: seq<nat>, tracks: seq<Track>, snr: seq<real>,
                     gate: real, wi: nat, ttl: nat)
    requires OnDistinctPeaks(matched, snr, gate, wi) && Survivors(matched, kept, origin, wi, ttl, |matched|)
    requires |tracks| == |kept|
    requires forall i :: 0 <= i < |kept| ==> tracks[i].bin == kept[i].bin && tracks[i].lastWi == kept[i].lastWi
    ensures OnDistinctPeaks(tracks, snr, gate, wi)
  {
    hide IsPeak;
    forall i, j | 0 <= i < j < |tracks| && tracks[i].lastWi == wi == tracks[j].lastWi
      ensures tracks[i].bin != tracks[j].bin
    {
      assert origin[i] < origin[j];
    }
  }

  /** In every state the tracker can reach: a spotted call was heard in at least
      `confirm` distinct windows on that track, is spotted there at most once, and
      lies at distance above one from every other call spotted there. */
  lemma SpottedSafely(cfg: Config, t: Track, h: History, bound: nat)
    requires Consistent(cfg, t, h, bound)
    ensures forall i :: 0 <= i < |h.spotted| ==> h.spotted[i] in h.heard && |h.heard[h.spotted[i]]| >= cfg.confirm
    ensures forall i, j :: 0 <= i < j < |h.spotted|
              ==> h.spotted[i] != h.spotted[j] && Levenshtein(h.spotted[i], h.spotted[j]) > 1
  {
    forall i, j | 0 <= i < j < |h.spotted|
      ensures h.spotted[i] != h.spotted[j] && Levenshtein(h.spotted[i], h.spotted[j]) > 1
    {
      ApartMeans(h.spotted, i, j);
    }
  }

  /** The tracker keeps one record per carrier and a ghost history beside it. */
  class Tracker {
    const cfg: Config
    var tracks: seq<Track>
    ghost var log: seq<History>
    ghost var now: int

    /** In every reachable state each track agrees with its history: a spotted call
        was heard in enough distinct windows, once, and apart from its respellings. */
    ghost predicate Valid()
      reads this
    {
      && now >= -1 && Sound(cfg, tracks, log, now + 1)
      && forall i :: 0 <= i < |tracks| ==> tracks[i].lastWi <= now
    }

    constructor (cfg: Config)
      ensures Valid() && this.cfg == cfg && tracks == [] && now == -1
    {
      this.cfg := cfg;
      tracks, log, now := [], [], -1;
    }

    /** Advance one detection window. */
    method Step(wi: nat, snr: seq<real>, decode: int -> string, wpm: int -> real, binToHz: int -> real)
      returns (spots: seq<CwSpot>, ghost gate: real, ghost origin: seq<nat>, ghost newly: seq<seq<string>>)
      requires Valid() && wi > now
      modifies this
      ensures Valid() && now == wi
      ensures gate >= cfg.snrThresh && OnDistinctPeaks(tracks, snr, gate, wi)
      ensures Advances(cfg, old(tracks), old(log), tracks, log, origin, wi, decode, binToHz, newly)
      ensures Notices(spots) == Announced(tracks, newly, binToHz)
    {
      hide Associating, Survivors, Decoded, Advances, Consistent, IsPeak, OnDistinctPeaks, StrongestFirst;
      ghost var before, history := tracks, log;
      var g := EffectiveGate(cfg, snr);
      gate := g;
      var found := FindPeaks(snr, g);
      var peaks := SortPeaks(found);
      var matched, claimed := Associate(cfg, tracks, peaks, wi);
      ghost var births := AssociatingGrows(cfg, before, matched, claimed, peaks, wi);
      ghost var matchedLog := history + seq(births, _ => BLANK);
      AssociatedSound(cfg, before, history, matched, claimed, peaks, wi, now + 1);
      AssociatedDistinct(cfg, before, matched, claimed, peaks, wi, snr, g);
      var kept;
      kept, origin := Expire(matched, wi, cfg.ttlSlots);
      SurvivorsInside(matched, kept, origin, wi, cfg.ttlSlots);
      ghost var keptLog := seq(|kept|, i requires 0 <= i < |kept| => matchedLog[origin[i]]);
      tracks, log, spots, newly := DecodeAll(cfg, kept, keptLog, wi, decode, wpm, binToHz);
      now := wi;
      WindowAdvances(cfg, before, history, matched, claimed, peaks, kept, origin, keptLog, tracks, log, wi, decode, binToHz, newly);
      DecodedKeeps(cfg, kept, keptLog, tracks, log, wi, decode, binToHz, newly);
      KeptDistinct(matched, kept, origin, tracks, snr, g, wi, cfg.ttlSlots);
    }
  }

  lemma AssociatingGrows(cfg: Config, before: seq<Track>, tracks: seq<Track>, claimed: seq<bool>, peaks: seq<Peak>,
                         wi: nat) returns (births: nat)
    requires Associating(cfg, before, tracks, claimed, peaks, |peaks|, wi)
    requires forall t :: 0 <= t < |before| ==> before[t].lastWi <= wi
    ensures |tracks| == |before| + births
    ensures forall t :: 0 <= t < |tracks| ==> tracks[t].lastWi <= wi
  {
    births := |tracks| - |before|;
  }

  lemma SurvivorsInside(tracks: seq<Track>, kept: seq<Track>, origin: seq<nat>, wi: nat, ttl: nat)
    requires Survivors(tracks, kept, origin, wi, ttl, |tracks|)
    ensures |origin| == |kept| && forall i :: 0 <= i < |kept| ==> origin[i] < |tracks| && kept[i] == tracks[origin[i]]
  {
  }

  lemma DecodedKeeps(cfg: Config, kept: seq<Track>, keptLog: seq<History>, tracks: seq<Track>, log: seq<History>,
                     wi: nat, decode: int -> string, binToHz: int -> real, newly: seq<seq<string>>)
    requires Decoded(cfg, kept, keptLog, tracks, log, |kept|, wi, decode, binToHz, newly)
    ensures Sound(cfg, tracks, log, wi + 1) && |tracks| == |kept|
    ensures forall i :: 0 <= i < |kept| ==> tracks[i].bin == kept[i].bin && tracks[i].lastWi == kept[i].lastWi
  {
    hide Consistent, Continues;
  }
}
