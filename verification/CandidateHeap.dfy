/** The streaming search for the best candidates: a bounded min-heap in an array,
    and the heapsort that puts the survivors in descending order. */
module CandidateHeap {
  import opened Ft8Demap

  // ---------- Heap order ----------

  function Parent(i: nat): (p: nat)
    requires i > 0
    ensures p < i
  {
    (i - 1) / 2
  }

  predicate Above(s: seq<Candidate>, i: nat)
    requires 0 < i < |s|
  {
    s[Parent(i)].score <= s[i].score
  }

  predicate IsHeap(s: seq<Candidate>) {
    forall i :: 0 < i < |s| ==> Above(s, i)
  }

  /** A heap but for the link from hole to its parent; the links around the hole hold. */
  predicate HeapButUp(s: seq<Candidate>, hole: nat) {
    && hole < |s|
    && (forall i :: 0 < i < |s| && i != hole ==> Above(s, i))
    && (hole > 0 ==> forall i :: 0 < i < |s| && Parent(i) == hole ==> s[Parent(hole)].score <= s[i].score)
  }

  /** A heap but for the links from hole to its children; the links around the hole hold. */
  predicate HeapButDown(s: seq<Candidate>, hole: nat) {
    && hole < |s|
    && (forall i :: 0 < i < |s| && Parent(i) != hole ==> Above(s, i))
    && (hole > 0 ==> forall i :: 0 < i < |s| && Parent(i) == hole ==> s[Parent(hole)].score <= s[i].score)
  }

  /** The root of a heap has the lowest score. */
  lemma {:induction false} RootLowest(s: seq<Candidate>, i: nat)
    requires IsHeap(s) && i < |s|
    ensures s[0].score <= s[i].score
  {
    if i > 0 {
      assert Above(s, i);
      RootLowest(s, Parent(i));
    }
  }

  function Swapped(s: seq<Candidate>, i: nat, j: nat): (t: seq<Candidate>)
    requires i < |s| && j < |s|
    ensures |t| == |s|
    ensures forall k :: 0 <= k < |s| ==> t[k] == if k == i then s[j] else if k == j then s[i] else s[k]
  {
    s[i := s[j]][j := s[i]]
  }

  lemma SwappedMultiset(s: seq<Candidate>, i: nat, j: nat)
    requires i < |s| && j < |s|
    ensures multiset(Swapped(s, i, j)) == multiset(s)
  {
  }

  lemma MovedUp(s: seq<Candidate>, hole: nat)
    requires HeapButUp(s, hole) && hole > 0 && s[hole].score < s[Parent(hole)].score
    ensures HeapButUp(Swapped(s, hole, Parent(hole)), Parent(hole))
  {
    var p := Parent(hole);
    var t := Swapped(s, hole, p);
    forall i | 0 < i < |t| && i != p ensures Above(t, i) {
      assert i != hole ==> Above(s, i);
      assert p > 0 ==> Above(s, p);
    }
    if p > 0 {
      assert Above(s, p);
      forall i | 0 < i < |t| && Parent(i) == p ensures t[Parent(p)].score <= t[i].score {
        assert i != hole ==> Above(s, i);
      }
    }
  }

  lemma MovedDown(s: seq<Candidate>, hole: nat, c: nat)
    requires HeapButDown(s, hole) && 0 < c < |s| && Parent(c) == hole && s[c].score < s[hole].score
    requires forall i :: 0 < i < |s| && Parent(i) == hole ==> s[c].score <= s[i].score
    ensures HeapButDown(Swapped(s, hole, c), c)
  {
    var t := Swapped(s, hole, c);
    forall i | 0 < i < |t| && Parent(i) != c ensures Above(t, i) {
      assert Parent(i) != hole ==> Above(s, i);
      if i == hole {
        assert s[Parent(hole)].score <= s[c].score;
      }
    }
    forall i | 0 < i < |t| && Parent(i) == c ensures t[Parent(c)].score <= t[i].score {
      assert Above(s, i);
    }
  }

  // ---------- Sifting in place ----------

  method Exchange(heap: array<Candidate>, heapSize: nat, i: nat, j: nat)
    requires i < heapSize <= heap.Length && j < heapSize
    modifies heap
    ensures heap[..heapSize] == Swapped(old(heap[..heapSize]), i, j)
    ensures multiset(heap[..heapSize]) == multiset(old(heap[..heapSize]))
    ensures heap[heapSize..] == old(heap[heapSize..])
  {
    SwappedMultiset(heap[..heapSize], i, j);
    var tmp := heap[i];
    heap[i] := heap[j];
    heap[j] := tmp;
    assert heap[..heapSize] == Swapped(old(heap[..heapSize]), i, j);
  }

  /** Sift the last entry up. */
  method HeapifyUp(heap: array<Candidate>, heapSize: nat)
    requires 0 < heapSize <= heap.Length && HeapButUp(heap[..heapSize], heapSize - 1)
    modifies heap
    ensures IsHeap(heap[..heapSize]) && multiset(heap[..heapSize]) == multiset(old(heap[..heapSize]))
    ensures heap[heapSize..] == old(heap[heapSize..])
  {
    hide Above, HeapButUp, IsHeap, Swapped;
    var current := heapSize - 1;
    while current > 0
      invariant 0 <= current < heapSize && HeapButUp(heap[..heapSize], current)
      invariant multiset(heap[..heapSize]) == multiset(old(heap[..heapSize]))
      invariant heap[heapSize..] == old(heap[heapSize..])
    {
      var parent := (current - 1) / 2;
      if !(heap[current].score < heap[parent].score) {
        SettledUp(heap[..heapSize], current);
        return;
      }
      MovedUp(heap[..heapSize], current);
      Exchange(heap, heapSize, current, parent);
      current := parent;
    }
    SettledUp(heap[..heapSize], 0);
  }

  lemma SettledUp(s: seq<Candidate>, hole: nat)
    requires HeapButUp(s, hole) && (hole > 0 ==> s[Parent(hole)].score <= s[hole].score)
    ensures IsHeap(s)
  {
  }

  /** The smallest of a node and its children. */
  method Smallest(heap: array<Candidate>, heapSize: nat, current: nat) returns (smallest: nat)
    requires current < heapSize <= heap.Length
    ensures smallest == current || (0 < smallest < heapSize && Parent(smallest) == current)
    ensures smallest != current ==> heap[smallest].score < heap[current].score
    ensures forall i :: 0 < i < heapSize && Parent(i) == current
              ==> heap[..heapSize][smallest].score <= heap[..heapSize][i].score
  {
    var left := 2 * current + 1;
    var right := left + 1;
    smallest := current;
    if left < heapSize && heap[left].score < heap[smallest].score {
      smallest := left;
    }
    if right < heapSize && heap[right].score < heap[smallest].score {
      smallest := right;
    }
    assert forall i :: 0 < i && Parent(i) == current ==> i == left || i == right;
  }

  /** Sift the root down. */
  method HeapifyDown(heap: array<Candidate>, heapSize: nat)
    requires heapSize <= heap.Length && (heapSize > 0 ==> HeapButDown(heap[..heapSize], 0))
    modifies heap
    ensures IsHeap(heap[..heapSize]) && multiset(heap[..heapSize]) == multiset(old(heap[..heapSize]))
    ensures heap[heapSize..] == old(heap[heapSize..])
  {
    hide Above, HeapButDown, IsHeap, Swapped;
    if heapSize == 0 {
      EmptyHeap(heap[..heapSize]);
      return;
    }
    var current := 0;
    while true
      invariant 0 <= current < heapSize && HeapButDown(heap[..heapSize], current)
      invariant multiset(heap[..heapSize]) == multiset(old(heap[..heapSize]))
      invariant heap[heapSize..] == old(heap[heapSize..])
      decreases heapSize - current
    {
      var smallest := Smallest(heap, heapSize, current);
      if smallest == current {
        SettledDown(heap[..heapSize], current);
        return;
      }
      MovedDown(heap[..heapSize], current, smallest);
      Exchange(heap, heapSize, current, smallest);
      current := smallest;
    }
  }

  lemma EmptyHeap(s: seq<Candidate>)
    requires s == []
    ensures IsHeap(s)
  {
  }

  lemma SettledDown(s: seq<Candidate>, hole: nat)
    requires HeapButDown(s, hole)
    requires forall i :: 0 < i < |s| && Parent(i) == hole ==> s[hole].score <= s[i].score
    ensures IsHeap(s)
  {
  }

  // ---------- Keeping the best ----------

  function Eligible(offered: seq<Candidate>, minScore: int): (e: seq<Candidate>)
    ensures forall c :: c in e <==> c in offered && c.score >= minScore
  {
    if offered == [] then []
    else
      var c := offered[|offered| - 1];
      Eligible(offered[..|offered| - 1], minScore) + if c.score >= minScore then [c] else []
  }

  /** kept holds the best of what was offered: together with what was dropped it is
      everything eligible, nothing dropped beats anything kept, and nothing was
      dropped while there was room. */
  ghost predicate BestOf(kept: seq<Candidate>, dropped: multiset<Candidate>, offered: seq<Candidate>,
                         minScore: int, capacity: nat)
  {
    && |kept| <= capacity
    && multiset(kept) + dropped == multiset(Eligible(offered, minScore))
    && (forall d, k :: d in dropped && k in kept ==> d.score <= k.score)
    && (dropped != multiset{} ==> |kept| == capacity)
  }

  lemma EligibleStep(offered: seq<Candidate>, c: Candidate, minScore: int)
    ensures multiset(Eligible(offered + [c], minScore))
         == if c.score >= minScore then multiset(Eligible(offered, minScore)) + multiset{c}
            else multiset(Eligible(offered, minScore))
  {
    assert (offered + [c])[..|offered|] == offered;
  }

  lemma BestOfSkip(kept: seq<Candidate>, dropped: multiset<Candidate>, offered: seq<Candidate>, c: Candidate,
                   minScore: int, capacity: nat)
    requires BestOf(kept, dropped, offered, minScore, capacity) && c.score < minScore
    ensures BestOf(kept, dropped, offered + [c], minScore, capacity)
  {
    EligibleStep(offered, c, minScore);
  }

  /** A full heap turns down a candidate that does not beat its root. */
  lemma BestOfReject(kept: seq<Candidate>, dropped: multiset<Candidate>, offered: seq<Candidate>, c: Candidate,
                     minScore: int, capacity: nat)
    requires BestOf(kept, dropped, offered, minScore, capacity) && c.score >= minScore && IsHeap(kept)
    requires |kept| == capacity > 0 && c.score <= kept[0].score
    ensures BestOf(kept, dropped + multiset{c}, offered + [c], minScore, capacity)
  {
    EligibleStep(offered, c, minScore);
    forall k | k in kept ensures kept[0].score <= k.score {
      var i :| 0 <= i < |kept| && kept[i] == k;
      RootLowest(kept, i);
    }
  }

  /** With room, every eligible candidate is kept. */
  lemma BestOfInsert(kept: seq<Candidate>, dropped: multiset<Candidate>, offered: seq<Candidate>, c: Candidate,
                     minScore: int, capacity: nat, kept': seq<Candidate>)
    requires BestOf(kept, dropped, offered, minScore, capacity) && c.score >= minScore
    requires |kept| < capacity && multiset(kept') == multiset(kept) + multiset{c}
    ensures BestOf(kept', dropped, offered + [c], minScore, capacity)
  {
    EligibleStep(offered, c, minScore);
    SameSize(kept', kept + [c]);
  }

  /** A full heap gives up its root for a better candidate. */
  lemma BestOfReplace(kept: seq<Candidate>, dropped: multiset<Candidate>, offered: seq<Candidate>, c: Candidate,
                      minScore: int, capacity: nat, kept': seq<Candidate>)
    requires BestOf(kept, dropped, offered, minScore, capacity) && c.score >= minScore && IsHeap(kept)
    requires |kept| == capacity > 0 && c.score > kept[0].score
    requires multiset(kept') == multiset(kept) - multiset{kept[0]} + multiset{c}
    ensures BestOf(kept', dropped + multiset{kept[0]}, offered + [c], minScore, capacity)
  {
    EligibleStep(offered, c, minScore);
    assert kept[0] in multiset(kept);
    SameSize(kept', kept[0 := c]);
    NewcomersBeatRoot(kept, c, kept');
    assert kept[0] in kept;
    hide IsHeap, Eligible;
  }

  lemma NewcomersBeatRoot(kept: seq<Candidate>, c: Candidate, kept': seq<Candidate>)
    requires IsHeap(kept) && |kept| > 0 && c.score > kept[0].score
    requires multiset(kept') == multiset(kept) - multiset{kept[0]} + multiset{c}
    ensures forall k :: k in kept' ==> kept[0].score <= k.score
  {
    forall k | k in kept' ensures kept[0].score <= k.score {
      assert k in multiset(kept');
      if k != c {
        assert k in multiset(kept);
        var i :| 0 <= i < |kept| && kept[i] == k;
        RootLowest(kept, i);
      }
    }
  }

  lemma SameSize(s: seq<Candidate>, t: seq<Candidate>)
    requires multiset(s) == multiset(t)
    ensures |s| == |t|
  {
    assert |multiset(s)| == |s| && |multiset(t)| == |t|;
  }

  /** Move the last entry to the root and restore the order below it. */
  method RemoveRoot(heap: array<Candidate>, heapSize: nat)
    requires 0 < heapSize <= heap.Length && IsHeap(heap[..heapSize])
    modifies heap
    ensures IsHeap(heap[..heapSize - 1])
    ensures multiset(heap[..heapSize - 1]) == multiset(old(heap[..heapSize])) - multiset{old(heap[0])}
    ensures heap[heapSize..] == old(heap[heapSize..])
  {
    hide IsHeap, HeapButDown;
    var last := heapSize - 1;
    ghost var s, rest := heap[..heapSize], heap[heapSize..];
    MoveLast(heap, heapSize);
    RootReplaced(s, heap[..last]);
    HeapifyDown(heap, last);
    assert heap[heapSize..] == heap[last..][1..] == rest;
  }

  method MoveLast(heap: array<Candidate>, heapSize: nat)
    requires 0 < heapSize <= heap.Length
    modifies heap
    ensures heap[..heapSize - 1] == Headless(old(heap[..heapSize]))
    ensures heap[heapSize - 1..][1..] == old(heap[heapSize..])
  {
    heap[0] := heap[heapSize - 1];
  }

  /** The last entry in place of the first. */
  function Headless(s: seq<Candidate>): (t: seq<Candidate>)
    requires |s| > 0
    ensures |t| == |s| - 1
  {
    if |s| == 1 then [] else [s[|s| - 1]] + s[1..|s| - 1]
  }

  lemma RootReplaced(s: seq<Candidate>, t: seq<Candidate>)
    requires |s| > 0 && IsHeap(s) && t == Headless(s)
    ensures |t| > 0 ==> HeapButDown(t, 0)
    ensures multiset(t) == multiset(s) - multiset{s[0]}
  {
    assert s == [s[0]] + s[1..];
    if |s| > 1 {
      assert s[1..] == s[1..|s| - 1] + [s[|s| - 1]];
      forall i | 0 < i < |t| && Parent(i) != 0 ensures Above(t, i) {
        assert Above(s, i);
      }
    }
  }

  method Insert(heap: array<Candidate>, heapSize: nat, candidate: Candidate)
    requires heapSize < heap.Length && IsHeap(heap[..heapSize])
    modifies heap
    ensures IsHeap(heap[..heapSize + 1])
    ensures multiset(heap[..heapSize + 1]) == multiset(old(heap[..heapSize])) + multiset{candidate}
  {
    hide IsHeap, HeapButUp;
    ghost var s := heap[..heapSize];
    heap[heapSize] := candidate;
    assert heap[..heapSize + 1] == s + [candidate];
    Appended(s, candidate);
    HeapifyUp(heap, heapSize + 1);
  }

  /** Offer one candidate to the heap. */
  method Offer(heap: array<Candidate>, heapSize: nat, candidate: Candidate, minScore: int, numCandidates: nat,
               ghost dropped: multiset<Candidate>, ghost offered: seq<Candidate>)
    returns (size: nat, ghost dropped': multiset<Candidate>)
    requires heapSize <= numCandidates <= heap.Length && numCandidates > 0 && IsHeap(heap[..heapSize])
    requires BestOf(heap[..heapSize], dropped, offered, minScore, numCandidates)
    modifies heap
    ensures size <= numCandidates && IsHeap(heap[..size])
    ensures BestOf(heap[..size], dropped', offered + [candidate], minScore, numCandidates)
  {
    hide BestOf, IsHeap, HeapButUp;
    size, dropped' := heapSize, dropped;
    ghost var s := heap[..heapSize];
    if candidate.score < minScore {
      BestOfSkip(s, dropped, offered, candidate, minScore, numCandidates);
      return;
    }
    if size == numCandidates && candidate.score > heap[0].score {
      RemoveRoot(heap, size);
      size := size - 1;
      dropped' := dropped + multiset{s[0]};
    }
    if size < numCandidates {
      Insert(heap, size, candidate);
      size := size + 1;
      if heapSize == numCandidates {
        BestOfReplace(s, dropped, offered, candidate, minScore, numCandidates, heap[..size]);
      } else {
        BestOfInsert(s, dropped, offered, candidate, minScore, numCandidates, heap[..size]);
      }
    } else {
      BestOfReject(s, dropped, offered, candidate, minScore, numCandidates);
      dropped' := dropped + multiset{candidate};
    }
  }

  lemma Appended(s: seq<Candidate>, c: Candidate)
    requires IsHeap(s)
    ensures HeapButUp(s + [c], |s|)
    ensures multiset(s + [c]) == multiset(s) + multiset{c}
  {
    var t := s + [c];
    forall i | 0 < i < |t| && i != |s| ensures Above(t, i) {
      assert Above(s, i);
    }
  }

  // ---------- What is offered ----------

  const TIME_OFFSETS := 30

  /** The search's domain: which bins, and the synchronisation score of each position. */
  datatype Domain = Domain(timeOsr: nat, freqOsr: nat, start: nat, bins: nat, sync: (nat, nat, nat, nat) -> int) {
    function At(ts: nat, fs: nat, t: nat, f: nat): Candidate {
      Candidate(sync(t, f, ts, fs), t, f, ts, fs)
    }

    function BinsTo(ts: nat, fs: nat, t: nat, n: nat): seq<Candidate> {
      if n == 0 then [] else BinsTo(ts, fs, t, n - 1) + [At(ts, fs, t, start + n - 1)]
    }

    function OffsetsTo(ts: nat, fs: nat, n: nat): seq<Candidate> {
      if n == 0 then [] else OffsetsTo(ts, fs, n - 1) + BinsTo(ts, fs, n - 1, bins)
    }

    function FreqSubsTo(ts: nat, n: nat): seq<Candidate> {
      if n == 0 then [] else FreqSubsTo(ts, n - 1) + OffsetsTo(ts, n - 1, TIME_OFFSETS)
    }

    /** Every position once, in the order of the four nested loops. */
    function TimeSubsTo(n: nat): seq<Candidate> {
      if n == 0 then [] else TimeSubsTo(n - 1) + FreqSubsTo(n - 1, freqOsr)
    }

    predicate Inside(c: Candidate, ts: nat, fs: nat, t: nat, f: nat) {
      && c.timeSub < ts && c.freqSub < fs && 0 <= c.timeOffset < t
      && start <= c.freqOffset < start + f
      && c == At(c.timeSub, c.freqSub, c.timeOffset, c.freqOffset)
    }
  }

  predicate Distinct(s: seq<Candidate>) {
    forall i, j :: 0 <= i < j < |s| ==> s[i] != s[j]
  }

  lemma DistinctAppend(a: seq<Candidate>, b: seq<Candidate>)
    requires Distinct(a) && Distinct(b) && forall x, y :: x in a && y in b ==> x != y
    ensures Distinct(a + b)
  {
    forall i, j | 0 <= i < j < |a + b| ensures (a + b)[i] != (a + b)[j] {
      if i < |a| <= j {
        assert a[i] in a && b[j - |a|] in b;
      }
    }
  }

  lemma {:induction false} BinsEnumerate(d: Domain, ts: nat, fs: nat, t: nat, n: nat)
    ensures Distinct(d.BinsTo(ts, fs, t, n))
    ensures forall c :: c in d.BinsTo(ts, fs, t, n)
              <==> d.Inside(c, ts + 1, fs + 1, t + 1, n) && c.timeSub == ts && c.freqSub == fs && c.timeOffset == t
  {
    if n > 0 {
      var last := d.At(ts, fs, t, d.start + n - 1);
      BinsEnumerate(d, ts, fs, t, n - 1);
      DistinctAppend(d.BinsTo(ts, fs, t, n - 1), [last]);
      forall c
        ensures c in d.BinsTo(ts, fs, t, n)
           <==> d.Inside(c, ts + 1, fs + 1, t + 1, n) && c.timeSub == ts && c.freqSub == fs && c.timeOffset == t
      {
        assert c in d.BinsTo(ts, fs, t, n) <==> c in d.BinsTo(ts, fs, t, n - 1) || c == last;
        assert d.Inside(last, ts + 1, fs + 1, t + 1, n);
      }
    }
  }

  lemma {:induction false} OffsetsEnumerate(d: Domain, ts: nat, fs: nat, n: nat)
    ensures Distinct(d.OffsetsTo(ts, fs, n))
    ensures forall c :: c in d.OffsetsTo(ts, fs, n)
              <==> d.Inside(c, ts + 1, fs + 1, n, d.bins) && c.timeSub == ts && c.freqSub == fs
  {
    if n > 0 {
      OffsetsEnumerate(d, ts, fs, n - 1);
      BinsEnumerate(d, ts, fs, n - 1, d.bins);
      DistinctAppend(d.OffsetsTo(ts, fs, n - 1), d.BinsTo(ts, fs, n - 1, d.bins));
    }
  }

  lemma {:induction false} FreqSubsEnumerate(d: Domain, ts: nat, n: nat)
    ensures Distinct(d.FreqSubsTo(ts, n))
    ensures forall c :: c in d.FreqSubsTo(ts, n)
              <==> d.Inside(c, ts + 1, n, TIME_OFFSETS, d.bins) && c.timeSub == ts
  {
    if n > 0 {
      FreqSubsEnumerate(d, ts, n - 1);
      OffsetsEnumerate(d, ts, n - 1, TIME_OFFSETS);
      DistinctAppend(d.FreqSubsTo(ts, n - 1), d.OffsetsTo(ts, n - 1, TIME_OFFSETS));
    }
  }

  /** The loops offer every position of the domain exactly once. */
  lemma {:induction false} DomainEnumerates(d: Domain, n: nat)
    ensures Distinct(d.TimeSubsTo(n))
    ensures forall c :: c in d.TimeSubsTo(n) <==> d.Inside(c, n, d.freqOsr, TIME_OFFSETS, d.bins)
  {
    if n > 0 {
      DomainEnumerates(d, n - 1);
      FreqSubsEnumerate(d, n - 1, d.freqOsr);
      DistinctAppend(d.TimeSubsTo(n - 1), d.FreqSubsTo(n - 1, d.freqOsr));
    }
  }

  // ---------- The search ----------

  /** The heap holds the best of what has been offered so far. */
  ghost predicate Searching(heap: array<Candidate>, size: nat, dropped: multiset<Candidate>, offered: seq<Candidate>,
                            minScore: int, capacity: nat)
    reads heap
  {
    && size <= capacity <= heap.Length && capacity > 0
    && IsHeap(heap[..size])
    && BestOf(heap[..size], dropped, offered, minScore, capacity)
  }

  /** How many bins the frequency loop visits. */
  function BinCount(wf: Waterfall, start: nat, freqEnd: int): nat {
    var end := if freqEnd < wf.numBins - ToneSpan(wf) then freqEnd else wf.numBins - ToneSpan(wf);
    if start < end then end - start else 0
  }

  /** The tones above the lowest one. */
  function ToneSpan(wf: Waterfall): nat {
    if wf.protocol.Ft4? then FT4_TONES - 1 else FT8_TONES - 1
  }

  method ScanBins(wf: Waterfall, d: Domain, ts: nat, fs: nat, t: nat, freqEnd: int, heap: array<Candidate>,
                  heapSize: nat, minScore: int, numCandidates: nat, ghost dropped: multiset<Candidate>,
                  ghost offered: seq<Candidate>)
    returns (size: nat, ghost dropped': multiset<Candidate>)
    requires d.bins == BinCount(wf, d.start, freqEnd)
    requires Searching(heap, heapSize, dropped, offered, minScore, numCandidates)
    modifies heap
    ensures Searching(heap, size, dropped', offered + d.BinsTo(ts, fs, t, d.bins), minScore, numCandidates)
  {
    hide BestOf, IsHeap;
    size, dropped' := heapSize, dropped;
    var freqOffset := d.start;
    assert offered + d.BinsTo(ts, fs, t, 0) == offered;
    while freqOffset < freqEnd && freqOffset + ToneSpan(wf) < wf.numBins
      invariant d.start <= freqOffset <= d.start + d.bins
      invariant Searching(heap, size, dropped', offered + d.BinsTo(ts, fs, t, freqOffset - d.start), minScore, numCandidates)
      decreases wf.numBins - freqOffset
    {
      var candidate := d.At(ts, fs, t, freqOffset);
      ghost var seen := offered + d.BinsTo(ts, fs, t, freqOffset - d.start);
      size, dropped' := Offer(heap, size, candidate, minScore, numCandidates, dropped', seen);
      assert seen + [candidate] == offered + d.BinsTo(ts, fs, t, freqOffset + 1 - d.start);
      freqOffset := freqOffset + 1;
    }
  }

  method ScanOffsets(wf: Waterfall, d: Domain, ts: nat, fs: nat, freqEnd: int, heap: array<Candidate>,
                     heapSize: nat, minScore: int, numCandidates: nat, ghost dropped: multiset<Candidate>,
                     ghost offered: seq<Candidate>)
    returns (size: nat, ghost dropped': multiset<Candidate>)
    requires d.bins == BinCount(wf, d.start, freqEnd)
    requires Searching(heap, heapSize, dropped, offered, minScore, numCandidates)
    modifies heap
    ensures Searching(heap, size, dropped', offered + d.OffsetsTo(ts, fs, TIME_OFFSETS), minScore, numCandidates)
  {
    hide Searching;
    size, dropped' := heapSize, dropped;
    var t := 0;
    assert offered + d.OffsetsTo(ts, fs, 0) == offered;
    while t < TIME_OFFSETS
      invariant 0 <= t <= TIME_OFFSETS
      invariant Searching(heap, size, dropped', offered + d.OffsetsTo(ts, fs, t), minScore, numCandidates)
    {
      ghost var seen := offered + d.OffsetsTo(ts, fs, t);
      size, dropped' := ScanBins(wf, d, ts, fs, t, freqEnd, heap, size, minScore, numCandidates, dropped', seen);
      assert seen + d.BinsTo(ts, fs, t, d.bins) == offered + d.OffsetsTo(ts, fs, t + 1);
      t := t + 1;
    }
  }

  method ScanFreqSubs(wf: Waterfall, d: Domain, ts: nat, freqEnd: int, heap: array<Candidate>,
                      heapSize: nat, minScore: int, numCandidates: nat, ghost dropped: multiset<Candidate>,
                      ghost offered: seq<Candidate>)
    returns (size: nat, ghost dropped': multiset<Candidate>)
    requires d.bins == BinCount(wf, d.start, freqEnd)
    requires Searching(heap, heapSize, dropped, offered, minScore, numCandidates)
    modifies heap
    ensures Searching(heap, size, dropped', offered + d.FreqSubsTo(ts, d.freqOsr), minScore, numCandidates)
  {
    hide Searching;
    size, dropped' := heapSize, dropped;
    var fs := 0;
    assert offered + d.FreqSubsTo(ts, 0) == offered;
    while fs < d.freqOsr
      invariant 0 <= fs <= d.freqOsr
      invariant Searching(heap, size, dropped', offered + d.FreqSubsTo(ts, fs), minScore, numCandidates)
    {
      ghost var seen := offered + d.FreqSubsTo(ts, fs);
      size, dropped' := ScanOffsets(wf, d, ts, fs, freqEnd, heap, size, minScore, numCandidates, dropped', seen);
      assert seen + d.OffsetsTo(ts, fs, TIME_OFFSETS) == offered + d.FreqSubsTo(ts, fs + 1);
      fs := fs + 1;
    }
  }

  /** Search the bins from start to end, or to the end of the band when end is negative. */
  method FindCandidatesRange(wf: Waterfall, d: Domain, numCandidates: nat, heap: array<Candidate>, minScore: int,
                             freqOffsetEnd: int)
    returns (heapSize: nat, ghost dropped: multiset<Candidate>)
    requires 0 < numCandidates <= heap.Length
    requires d.timeOsr == wf.timeOsr && d.freqOsr == wf.freqOsr
    requires d.bins == BinCount(wf, d.start, if freqOffsetEnd < 0 then wf.numBins else freqOffsetEnd)
    modifies heap
    ensures heapSize <= numCandidates && IsHeap(heap[..heapSize])
    ensures BestOf(heap[..heapSize], dropped, d.TimeSubsTo(d.timeOsr), minScore, numCandidates)
  {
    var freqEnd := if freqOffsetEnd < 0 then wf.numBins else freqOffsetEnd;
    heapSize, dropped := 0, multiset{};
    var ts := 0;
    assert Searching(heap, 0, multiset{}, d.TimeSubsTo(0), minScore, numCandidates);
    while ts < d.timeOsr
      invariant 0 <= ts <= d.timeOsr
      invariant Searching(heap, heapSize, dropped, d.TimeSubsTo(ts), minScore, numCandidates)
    {
      hide Searching;
      heapSize, dropped := ScanFreqSubs(wf, d, ts, freqEnd, heap, heapSize, minScore, numCandidates, dropped, d.TimeSubsTo(ts));
      ts := ts + 1;
    }
  }

  // ---------- The heapsort ----------

  predicate Descending(s: seq<Candidate>) {
    forall i, j :: 0 <= i < j < |s| ==> s[i].score >= s[j].score
  }

  /** Search the whole band, then sort in place: the result is in descending order
      and the best of everything offered. */
  method FindCandidates(wf: Waterfall, d: Domain, numCandidates: nat, heap: array<Candidate>, minScore: int)
    returns (heapSize: nat, ghost dropped: multiset<Candidate>)
    requires 0 < numCandidates <= heap.Length
    requires d.timeOsr == wf.timeOsr && d.freqOsr == wf.freqOsr && d.start == 0 && d.bins == BinCount(wf, 0, wf.numBins)
    modifies heap
    ensures heapSize <= numCandidates && Descending(heap[..heapSize])
    ensures BestOf(heap[..heapSize], dropped, d.TimeSubsTo(d.timeOsr), minScore, numCandidates)
  {
    hide BestOf, IsHeap;
    heapSize, dropped := FindCandidatesRange(wf, d, numCandidates, heap, minScore, -1);
    ghost var found := heap[..heapSize];
    SortDescending(heap, heapSize);
    BestOfPermuted(found, heap[..heapSize], dropped, d.TimeSubsTo(d.timeOsr), minScore, numCandidates);
  }

  lemma BestOfPermuted(kept: seq<Candidate>, kept': seq<Candidate>, dropped: multiset<Candidate>,
                       offered: seq<Candidate>, minScore: int, capacity: nat)
    requires BestOf(kept, dropped, offered, minScore, capacity) && multiset(kept') == multiset(kept)
    ensures BestOf(kept', dropped, offered, minScore, capacity)
  {
    SameSize(kept', kept);
    forall k | k in kept' ensures k in kept {
      assert k in multiset(kept');
    }
  }

  /** The sorted part is descending and nothing in it beats the heap before it. */
  ghost predicate PartlySorted(s: seq<Candidate>, n: nat) {
    && n <= |s| && IsHeap(s[..n]) && Descending(s[n..])
    && forall i, j :: 0 <= i < n <= j < |s| ==> s[i].score >= s[j].score
  }

  method SortDescending(heap: array<Candidate>, heapSize: nat)
    requires heapSize <= heap.Length && IsHeap(heap[..heapSize])
    modifies heap
    ensures Descending(heap[..heapSize]) && multiset(heap[..heapSize]) == multiset(old(heap[..heapSize]))
  {
    hide IsHeap, HeapButDown, PartlySorted, Swapped;
    var lenUnsorted := heapSize;
    AllHeap(heap[..heapSize]);
    while lenUnsorted > 1
      invariant 0 <= lenUnsorted <= heapSize
      invariant PartlySorted(heap[..heapSize], lenUnsorted)
      invariant multiset(heap[..heapSize]) == multiset(old(heap[..heapSize]))
    {
      ghost var s := heap[..heapSize];
      Exchange(heap, heapSize, lenUnsorted - 1, 0);
      ghost var t, tail := heap[..heapSize], heap[lenUnsorted - 1..];
      RootToEnd(s, lenUnsorted);
      lenUnsorted := lenUnsorted - 1;
      assert heap[..lenUnsorted] == t[..lenUnsorted];
      HeapifyDown(heap, lenUnsorted);
      ghost var u := heap[..heapSize];
      assert u[..lenUnsorted] == heap[..lenUnsorted];
      assert u[lenUnsorted..] == tail[..heapSize - lenUnsorted] == t[lenUnsorted..];
      Resorted(s, t, u, lenUnsorted);
    }
    SortedAtLast(heap[..heapSize], lenUnsorted);
  }

  lemma AllHeap(s: seq<Candidate>)
    requires IsHeap(s)
    ensures PartlySorted(s, |s|)
  {
    assert s[..|s|] == s;
  }

  lemma SortedAtLast(s: seq<Candidate>, n: nat)
    requires PartlySorted(s, n) && n <= 1
    ensures Descending(s)
  {
    forall i, j | 0 <= i < j < |s| ensures s[i].score >= s[j].score {
      if i >= n {
        assert s[n..][i - n].score >= s[n..][j - n].score;
      }
    }
  }

  /** Swapping the root with the last unsorted entry leaves only the root out of place. */
  lemma RootToEnd(s: seq<Candidate>, n: nat)
    requires PartlySorted(s, n) && n > 1
    ensures var t := Swapped(s, n - 1, 0);
            HeapButDown(t[..n - 1], 0)
  {
    var t := Swapped(s, n - 1, 0);
    forall i | 0 < i < n - 1 && Parent(i) != 0 ensures Above(t[..n - 1], i) {
      assert Above(s[..n], i);
    }
  }

  lemma SameMultiset(t: seq<Candidate>, u: seq<Candidate>, n: nat)
    requires n <= |t| == |u| && multiset(u[..n]) == multiset(t[..n]) && u[n..] == t[n..]
    ensures multiset(u) == multiset(t)
  {
    assert u == u[..n] + u[n..] && t == t[..n] + t[n..];
  }

  lemma RootBelow(s: seq<Candidate>, t: seq<Candidate>, rest: seq<Candidate>, n: nat, i: nat)
    requires i < n < |s| && IsHeap(s[..n + 1]) && t == Swapped(s, n, 0)
    requires |rest| == n && multiset(rest) == multiset(t[..n])
    ensures rest[i].score >= s[0].score
  {
    assert rest[i] in multiset(t[..n]);
    var k :| 0 <= k < n && t[..n][k] == rest[i];
    RootLowest(s[..n + 1], if k == 0 then n else k);
  }

  lemma Resorted(s: seq<Candidate>, t: seq<Candidate>, u: seq<Candidate>, n: nat)
    requires n < |s| && PartlySorted(s, n + 1) && t == Swapped(s, n, 0)
    requires |u| == |s| && IsHeap(u[..n]) && multiset(u[..n]) == multiset(t[..n]) && u[n..] == t[n..]
    ensures PartlySorted(u, n) && multiset(u) == multiset(s)
  {
    SwappedMultiset(s, n, 0);
    SameMultiset(t, u, n);
    assert u[n] == u[n..][0] == t[n..][0] == s[0];
    forall i | 0 <= i < n ensures u[i].score >= s[0].score {
      RootBelow(s, t, u[..n], n, i);
    }
    forall j | n < j < |s| ensures u[j] == s[j] && s[0].score >= s[j].score {
      assert u[n..][j - n] == t[n..][j - n];
    }
    forall i, j | 0 <= i < j < |u[n..]| ensures u[n..][i].score >= u[n..][j].score {
      if i > 0 {
        assert s[n + 1..][i - 1].score >= s[n + 1..][j - 1].score;
      }
    }
  }
}
