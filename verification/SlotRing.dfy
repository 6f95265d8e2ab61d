/** The ring of scan slots between a producer thread, the GPU stream and a consumer
    thread, as an interleaved step system. */
module SlotRing {

  const SLOTS := 8

  /** What the producer does when the ring is full: lose the block, or try again later. */
  datatype Policy = Drop | Retry

  datatype Config = Config(policy: Policy, capture: nat, stride: nat)

  /** What the pinned buffers of a slot hold. */
  datatype Host = Scratch | Holds(snap: int, count: nat)

  datatype Event = NotReady | Success | Failure

  datatype Slot = Slot(dispatched: bool, snapStart: int, host: Host, event: Event)

  /** Work in the stream: fill a slot's buffers from a snapshot, or signal its event. */
  datatype Job = Scan(slot: nat, snap: int) | Signal(slot: nat)

  /** Where the producer is with a block it has seen as the newest, or in its launch.
      The flag and the index are published separately, and may become visible in
      either order. */
  datatype Producer = Idle | Looking(wi: nat) | Checking(wi: nat, seen: nat) | Claimed | Enqueued | Recorded | FlagOut | IndexOut

  /** Where the consumer is with the slot at the read index. */
  datatype Consumer = Polling | Waiting | Flagged | Completed | Failed | Handled | Cleared

  /** What became of one scan. */
  datatype Outcome = Decoded(snap: int, host: Host) | Empty | Errored

  /** head is the write index of the ring of magnitude blocks; missed are the due
      blocks that the producer gave up or that were overtaken before it took them. */
  datatype State = State(head: nat, write: nat, read: nat, slots: seq<Slot>, last: nat, producer: Producer, consumer: Consumer,
                         stream: seq<Job>, finished: nat, accepted: seq<nat>, missed: set<nat>, handed: seq<Outcome>)

  function Init(): State {
    State(0, 0, 0, seq(SLOTS, _ => Slot(false, 0, Scratch, Success)), 0, Idle, Polling, [], 0, [], {}, [])
  }

  datatype Step =
    | BlockIn | LookUp | LoadRead | Refuse | Accept | EnqueueScan | RecordEvent | PublishFlag | PublishIndex
    | GpuTouch | GpuScan(count: nat) | GpuFault | GpuSignal(ok: bool)
    | SeeIndex | SeeFlag | QuerySuccess | QueryFailure | HandOver | ReportError | ClearFlag | Release

  // ---------- The steps ----------

  /** The write index at which a scan is scheduled. */
  predicate Scheduled(cfg: Config, b: nat) {
    b > 0 && b >= cfg.capture && cfg.stride > 0 && b % cfg.stride == 0
  }

  /** A scan is scheduled and was neither launched nor given up. */
  predicate Due(cfg: Config, s: State, b: nat) {
    Scheduled(cfg, b) && b > s.last
  }

  /** The producer has seen the block and not yet decided. */
  predicate Considers(p: Producer, b: nat) {
    (p.Looking? || p.Checking?) && p.wi == b
  }

  function ProducerSlot(s: State): nat {
    if |s.accepted| > 0 then (|s.accepted| - 1) % SLOTS else 0
  }

  function ConsumerSlot(s: State): nat {
    s.read % SLOTS
  }

  predicate Shaped(s: State) {
    |s.slots| == SLOTS && forall j :: 0 <= j < |s.stream| ==> s.stream[j].slot < SLOTS
  }

  predicate Enabled(cfg: Config, s: State, step: Step) {
    Shaped(s) && match step
      case BlockIn => true
      case LookUp => s.producer.Idle? && Due(cfg, s, s.head)
      case LoadRead => s.producer.Looking?
      case Refuse => s.producer.Checking? && s.write - s.producer.seen >= SLOTS
      case Accept => s.producer.Checking? && s.write - s.producer.seen < SLOTS
      case EnqueueScan => s.producer.Claimed? && |s.accepted| > 0
      case RecordEvent => s.producer.Enqueued?
      case PublishFlag => s.producer.Recorded? || s.producer.IndexOut?
      case PublishIndex => s.producer.Recorded? || s.producer.FlagOut?
      case GpuTouch => |s.stream| > 0 && s.stream[0].Scan?
      case GpuScan(_) => |s.stream| > 0 && s.stream[0].Scan?
      case GpuFault => |s.stream| > 0 && s.stream[0].Scan?
      case GpuSignal(_) => |s.stream| > 0 && s.stream[0].Signal?
      case SeeIndex => s.consumer.Polling? && s.read != s.write
      case SeeFlag => s.consumer.Waiting? && s.slots[ConsumerSlot(s)].dispatched
      case QuerySuccess => s.consumer.Flagged? && s.slots[ConsumerSlot(s)].event.Success?
      case QueryFailure => s.consumer.Flagged? && s.slots[ConsumerSlot(s)].event.Failure?
      case HandOver => s.consumer.Completed?
      case ReportError => s.consumer.Failed?
      case ClearFlag => s.consumer.Handled?
      case Release => s.consumer.Cleared?
  }

  function SetSlot(s: State, k: nat, slot: Slot): (s': State)
    requires |s.slots| == SLOTS && k < SLOTS
  {
    s.(slots := s.slots[k := slot])
  }

  function Apply(cfg: Config, s: State, step: Step): (s': State)
    requires Enabled(cfg, s, step)
  {
    var p, c := ProducerSlot(s), ConsumerSlot(s);
    match step
    case BlockIn =>
      var overtaken := Due(cfg, s, s.head) && !Considers(s.producer, s.head);
      s.(head := s.head + 1, missed := if overtaken then s.missed + {s.head} else s.missed)
    case LookUp => s.(producer := Looking(s.head))
    case LoadRead => s.(producer := Checking(s.producer.wi, s.read))
    case Refuse =>
      var wi := s.producer.wi;
      if cfg.policy.Drop? then s.(last := wi, missed := s.missed + {wi}, producer := Idle)
      else s.(missed := if wi != s.head then s.missed + {wi} else s.missed, producer := Idle)
    case Accept =>
      var k, wi := s.write % SLOTS, s.producer.wi;
      SetSlot(s, k, s.slots[k].(snapStart := wi - cfg.capture)).(last := wi, accepted := s.accepted + [wi], producer := Claimed)
    case EnqueueScan =>
      s.(stream := s.stream + [Scan(p, s.accepted[|s.accepted| - 1] - cfg.capture)], producer := Enqueued)
    case RecordEvent =>
      SetSlot(s, p, s.slots[p].(event := NotReady)).(stream := s.stream + [Signal(p)], producer := Recorded)
    case PublishFlag =>
      SetSlot(s, p, s.slots[p].(dispatched := true)).(producer := if s.producer.Recorded? then FlagOut else Idle)
    case PublishIndex =>
      s.(write := s.write + 1, producer := if s.producer.Recorded? then IndexOut else Idle)
    case GpuTouch =>
      var k := s.stream[0].slot;
      SetSlot(s, k, s.slots[k].(host := Scratch))
    case GpuScan(count) =>
      var k := s.stream[0].slot;
      SetSlot(s, k, s.slots[k].(host := Holds(s.stream[0].snap, count))).(stream := s.stream[1..], finished := s.finished + 1)
    case GpuFault =>
      var k := s.stream[0].slot;
      SetSlot(s, k, s.slots[k].(host := Scratch)).(stream := s.stream[1..], finished := s.finished + 1)
    case GpuSignal(ok) =>
      var k := s.stream[0].slot;
      SetSlot(s, k, s.slots[k].(event := if ok && s.slots[k].host.Holds? then Success else Failure))
        .(stream := s.stream[1..], finished := s.finished + 1)
    case SeeIndex => s.(consumer := Waiting)
    case SeeFlag => s.(consumer := Flagged)
    case QuerySuccess => s.(consumer := Completed)
    case QueryFailure => s.(consumer := Failed)
    case HandOver =>
      var slot := s.slots[c];
      var outcome := if slot.host.Holds? && slot.host.count > 0 then Decoded(slot.snapStart, slot.host) else Empty;
      s.(handed := s.handed + [outcome], consumer := Handled)
    case ReportError => s.(handed := s.handed + [Errored], consumer := Handled)
    case ClearFlag => SetSlot(s, c, s.slots[c].(dispatched := false)).(consumer := Cleared)
    case Release => s.(read := s.read + 1, consumer := Polling)
  }

  // ---------- The invariant ----------

  /** The launch of the newest accepted scan is still under way. */
  predicate Launching(p: Producer) {
    p.Claimed? || p.Enqueued? || p.Recorded? || p.FlagOut?
  }

  predicate Recording(p: Producer) {
    p.Claimed? || p.Enqueued?
  }

  /** The newest accepted scan's flag is not out yet. */
  predicate FlagPending(p: Producer) {
    p.Claimed? || p.Enqueued? || p.Recorded? || p.IndexOut?
  }

  /** How many jobs the accepted scans have put into the stream. */
  function Submitted(s: State): int {
    2 * |s.accepted| - if s.producer.Claimed? then 2 else if s.producer.Enqueued? then 1 else 0
  }

  /** Indices stay within one ring of each other. */
  predicate Indices(s: State) {
    && s.read <= s.write <= |s.accepted| <= s.read + SLOTS
    && |s.accepted| == s.write + (if Launching(s.producer) then 1 else 0)
    && (FlagPending(s.producer) || s.producer.FlagOut? ==> s.read < |s.accepted|)
    && (s.producer.Checking? ==> s.producer.seen <= s.read)
  }

  /** Job k of the stream's whole history belongs to scan k / 2. */
  function JobAt(cfg: Config, accepted: seq<nat>, k: nat): (j: Job)
    requires k / 2 < |accepted|
    ensures j.slot < SLOTS
  {
    if k % 2 == 0 then Scan(k / 2 % SLOTS, accepted[k / 2] - cfg.capture) else Signal(k / 2 % SLOTS)
  }

  predicate InOrder(cfg: Config, s: State) {
    && s.finished + |s.stream| == Submitted(s)
    && 2 * s.read <= s.finished
    && forall j :: 0 <= j < |s.stream| ==> s.stream[j] == JobAt(cfg, s.accepted, s.finished + j)
  }

  /** What the rest of the state says about the slot of scan i: whether the scan is
      accepted, which block it is of, whether its flag is out, and how far the
      stream has come with it. */
  datatype View = Free | Taken(snap: int, flag: bool, scanned: bool, recorded: bool, signalled: bool)

  function ViewOf(cfg: Config, s: State, i: nat): View {
    if i >= |s.accepted| then Free
    else
      var newest := i == |s.accepted| - 1;
      Taken(s.accepted[i] - cfg.capture,
            !(newest && FlagPending(s.producer)) && !(i == s.read && s.consumer.Cleared?),
            s.finished > 2 * i,
            !(newest && Recording(s.producer)),
            s.finished >= 2 * i + 2)
  }

  /** What must hold of a slot, from the acceptance of its scan to the release. */
  predicate SlotOk(v: View, slot: Slot) {
    if v.Free? then !slot.dispatched
    else
      && slot.snapStart == v.snap
      && slot.dispatched == v.flag
      && (v.scanned && slot.host.Holds? ==> slot.host.snap == v.snap)
      && (v.recorded && !v.signalled ==> slot.event.NotReady?)
      && (v.recorded && v.signalled ==> !slot.event.NotReady? && (slot.event.Success? ==> slot.host.Holds?))
  }

  function SlotOf(s: State, i: nat): Slot
    requires |s.slots| == SLOTS
  {
    s.slots[i % SLOTS]
  }

  predicate SlotsInv(cfg: Config, s: State) {
    |s.slots| == SLOTS && forall i :: s.read <= i < s.read + SLOTS ==> SlotOk(ViewOf(cfg, s, i), SlotOf(s, i))
  }

  /** How far the consumer may have come with the scan at the read index. */
  predicate ConsumerInv(s: State) {
    && (s.consumer.Polling? || s.read < s.write)
    && (s.consumer.Polling? || s.consumer.Waiting? || !(s.read == |s.accepted| - 1 && FlagPending(s.producer)))
    && (s.consumer.Completed? || s.consumer.Failed? || s.consumer.Handled? || s.consumer.Cleared?
        ==> s.finished >= 2 * s.read + 2)
    && (s.consumer.Completed? ==> |s.slots| == SLOTS && SlotOf(s, s.read).event.Success?)
  }

  /** What may become of a scan: its own data, or nothing. */
  predicate Faithful(o: Outcome, snap: int) {
    o.Decoded? ==> o.snap == snap && o.host.Holds? && o.host.snap == snap && o.host.count > 0
  }

  /** Scans are handed out one after the other, each with its own data. */
  predicate HandedInv(cfg: Config, s: State) {
    && |s.handed| == s.read + (if s.consumer.Handled? || s.consumer.Cleared? then 1 else 0)
    && |s.handed| <= |s.accepted|
    && forall i :: 0 <= i < |s.handed| ==> Faithful(s.handed[i], s.accepted[i] - cfg.capture)
  }

  /** The newest block is due and the producer has yet to see it. */
  predicate Open(cfg: Config, s: State, b: nat) {
    b == s.head && Due(cfg, s, b) && !Considers(s.producer, b)
  }

  /** Scans are launched for scheduled blocks in increasing order. */
  predicate OrderInv(cfg: Config, s: State) {
    && s.last <= s.head
    && (forall i :: 0 <= i < |s.accepted| ==> Scheduled(cfg, s.accepted[i]) && s.accepted[i] <= s.last)
    && (forall i, j :: 0 <= i < j < |s.accepted| ==> s.accepted[i] < s.accepted[j])
    && (s.producer.Looking? || s.producer.Checking? ==> Due(cfg, s, s.producer.wi) && s.producer.wi <= s.head)
  }

  /** Nothing missed is scanned, considered or open, and every other scheduled block
      up to the newest is. */
  ghost predicate MissedInv(cfg: Config, s: State) {
    && (forall b :: b in s.missed ==>
          Scheduled(cfg, b) && b <= s.head && b !in s.accepted && !Considers(s.producer, b) && !Open(cfg, s, b))
    && (forall b: nat :: Scheduled(cfg, b) && b <= s.head ==>
          b in s.missed || b in s.accepted || Considers(s.producer, b) || Open(cfg, s, b))
  }

  ghost predicate BlocksInv(cfg: Config, s: State) {
    OrderInv(cfg, s) && MissedInv(cfg, s)
  }

  ghost predicate Inv(cfg: Config, s: State) {
    Indices(s) && InOrder(cfg, s) && SlotsInv(cfg, s) && ConsumerInv(s) && HandedInv(cfg, s) && BlocksInv(cfg, s)
  }

  // ---------- Every step keeps it ----------

  lemma SlotsDiffer(i: nat, j: nat)
    requires i != j && i < j + SLOTS && j < i + SLOTS
    ensures i % SLOTS != j % SLOTS
  {
  }

  /** A step that touches only the slot of scan p, and is seen only there. */
  lemma WindowKept(cfg: Config, s: State, s': State, p: nat)
    requires SlotsInv(cfg, s) && |s'.slots| == SLOTS && s'.read == s.read <= p < s.read + SLOTS
    requires forall k :: 0 <= k < SLOTS && k != p % SLOTS ==> s'.slots[k] == s.slots[k]
    requires forall i :: s.read <= i < s.read + SLOTS && i != p ==> ViewOf(cfg, s', i) == ViewOf(cfg, s, i)
    requires SlotOk(ViewOf(cfg, s', p), SlotOf(s', p))
    ensures SlotsInv(cfg, s')
  {
    hide ViewOf, SlotOk;
    forall i | s.read <= i < s.read + SLOTS ensures SlotOk(ViewOf(cfg, s', i), SlotOf(s', i)) {
      if i != p {
        SlotsDiffer(i, p);
        assert SlotOk(ViewOf(cfg, s, i), SlotOf(s, i));
      }
    }
  }

  /** A step that touches no slot and is seen at none. */
  lemma WindowSame(cfg: Config, s: State, s': State)
    requires SlotsInv(cfg, s) && s'.slots == s.slots && s'.read == s.read
    requires forall i :: s.read <= i < s.read + SLOTS ==> ViewOf(cfg, s', i) == ViewOf(cfg, s, i)
    ensures SlotsInv(cfg, s')
  {
    hide ViewOf, SlotOk;
  }

  /** A step that neither sees, takes nor gives up a block. */
  lemma BlocksSame(cfg: Config, s: State, s': State)
    requires BlocksInv(cfg, s)
    requires s'.head == s.head && s'.last == s.last && s'.accepted == s.accepted && s'.missed == s.missed
    requires s'.producer == s.producer || !(s.producer.Looking? || s.producer.Checking? || s'.producer.Looking? || s'.producer.Checking?)
    ensures BlocksInv(cfg, s')
  {
  }

  predicate Decides(step: Step) {
    step.BlockIn? || step.LookUp? || step.LoadRead? || step.Refuse? || step.Accept?
  }

  lemma OrderKept(cfg: Config, s: State, step: Step)
    requires OrderInv(cfg, s) && Enabled(cfg, s, step) && Decides(step)
    ensures OrderInv(cfg, Apply(cfg, s, step))
  {
    hide SlotOf, ViewOf;
    if step.Accept? {
      assert Apply(cfg, s, step).accepted == s.accepted + [s.producer.wi];
    }
  }

  /** A block that comes in, or that the producer decides about, stays accounted for. */
  lemma BlocksKept(cfg: Config, s: State, step: Step)
    requires BlocksInv(cfg, s) && Enabled(cfg, s, step) && Decides(step)
    ensures BlocksInv(cfg, Apply(cfg, s, step))
  {
    OrderKept(cfg, s, step);
    if step.Accept? {
      assert Apply(cfg, s, step).accepted == s.accepted + [s.producer.wi];
    }
  }

  /** The producer has no launch under way. */
  predicate Undecided(p: Producer) {
    p.Idle? || p.Looking? || p.Checking?
  }

  /** A step that the stream and the producer do not notice. */
  lemma OrderSame(cfg: Config, s: State, s': State)
    requires InOrder(cfg, s) && s'.stream == s.stream && s'.finished == s.finished
    requires s'.accepted == s.accepted && s'.read == s.read && s'.producer == s.producer
    ensures InOrder(cfg, s')
  {
  }

  /** Only what the producer knows of the blocks has changed. */
  predicate Looked(s: State, s': State) {
    && s' == s.(head := s'.head, last := s'.last, missed := s'.missed, producer := s'.producer)
    && (s'.producer == s.producer || (Undecided(s.producer) && Undecided(s'.producer)))
    && (s'.producer.Checking? ==> s'.producer.seen <= s'.read)
  }

  lemma LookedKeeps(cfg: Config, s: State, s': State)
    requires Looked(s, s') && Indices(s) && InOrder(cfg, s) && SlotsInv(cfg, s) && ConsumerInv(s) && HandedInv(cfg, s)
    ensures Indices(s') && InOrder(cfg, s') && SlotsInv(cfg, s') && ConsumerInv(s') && HandedInv(cfg, s')
  {
    WindowSame(cfg, s, s');
    hide SlotsInv, ViewOf;
  }

  /** Neither a new block nor a block looked at or refused is seen in the ring. */
  lemma LookKeeps(cfg: Config, s: State, step: Step)
    requires Inv(cfg, s) && Enabled(cfg, s, step)
    requires step.BlockIn? || step.LookUp? || step.LoadRead? || step.Refuse?
    ensures Inv(cfg, Apply(cfg, s, step))
  {
    hide InOrder, SlotsInv, ConsumerInv, HandedInv, BlocksInv;
    BlocksKept(cfg, s, step);
    LookedKeeps(cfg, s, Apply(cfg, s, step));
  }

  /** Accepting appends to the blocks, and is seen only at the slot taken. */
  lemma AcceptedKeeps(cfg: Config, s: State, s': State)
    requires s'.accepted == s.accepted + [s'.last] && s'.producer.Claimed? && Undecided(s.producer) && s.write < s.read + SLOTS
    requires s'.read == s.read && s'.write == s.write && s'.stream == s.stream && s'.finished == s.finished
    requires s'.consumer == s.consumer && s'.handed == s.handed && |s'.slots| == SLOTS
    requires s.read < s.write ==> |s.slots| == SLOTS && SlotOf(s', s.read).event == SlotOf(s, s.read).event
    requires Indices(s) && InOrder(cfg, s) && ConsumerInv(s) && HandedInv(cfg, s)
    ensures Indices(s') && InOrder(cfg, s') && ConsumerInv(s') && HandedInv(cfg, s')
  {
    hide SlotOf;
  }

  lemma AcceptKeeps(cfg: Config, s: State)
    requires Inv(cfg, s) && Enabled(cfg, s, Accept)
    ensures Inv(cfg, Apply(cfg, s, Accept))
  {
    hide InOrder, SlotsInv, ConsumerInv, HandedInv, BlocksInv;
    BlocksKept(cfg, s, Accept);
    AcceptKeepsSlots(cfg, s);
    if s.read < s.write {
      SlotsDiffer(s.read, s.write);
    }
    AcceptedKeeps(cfg, s, Apply(cfg, s, Accept));
  }

  lemma AcceptKeepsSlots(cfg: Config, s: State)
    requires Inv(cfg, s) && Enabled(cfg, s, Accept)
    ensures SlotsInv(cfg, Apply(cfg, s, Accept))
  {
    hide HandedInv, BlocksInv;
    var s' := Apply(cfg, s, Accept);
    assert SlotOk(ViewOf(cfg, s, s.write), SlotOf(s, s.write));
    WindowKept(cfg, s, s', s.write);
  }

  lemma EnqueueKeeps(cfg: Config, s: State)
    requires Inv(cfg, s) && Enabled(cfg, s, EnqueueScan)
    ensures Inv(cfg, Apply(cfg, s, EnqueueScan))
  {
    BlocksSame(cfg, s, Apply(cfg, s, EnqueueScan));
    hide BlocksInv;
    hide SlotsInv;
    WindowSame(cfg, s, Apply(cfg, s, EnqueueScan));
  }

  lemma RecordKeeps(cfg: Config, s: State)
    requires Inv(cfg, s) && Enabled(cfg, s, RecordEvent)
    ensures Inv(cfg, Apply(cfg, s, RecordEvent))
  {
    BlocksSame(cfg, s, Apply(cfg, s, RecordEvent));
    hide BlocksInv;
    RecordKeepsSlots(cfg, s);
    hide SlotsInv, HandedInv, BlocksInv;
  }

  lemma RecordKeepsSlots(cfg: Config, s: State)
    requires Inv(cfg, s) && Enabled(cfg, s, RecordEvent)
    ensures SlotsInv(cfg, Apply(cfg, s, RecordEvent))
  {
    hide HandedInv, BlocksInv;
    var p := |s.accepted| - 1;
    assert SlotOk(ViewOf(cfg, s, p), SlotOf(s, p));
    WindowKept(cfg, s, Apply(cfg, s, RecordEvent), p);
  }

  lemma FlagKeeps(cfg: Config, s: State)
    requires Inv(cfg, s) && Enabled(cfg, s, PublishFlag)
    ensures Inv(cfg, Apply(cfg, s, PublishFlag))
  {
    BlocksSame(cfg, s, Apply(cfg, s, PublishFlag));
    hide BlocksInv;
    FlagKeepsSlots(cfg, s);
    hide SlotsInv, HandedInv, BlocksInv;
  }

  lemma FlagKeepsSlots(cfg: Config, s: State)
    requires Inv(cfg, s) && Enabled(cfg, s, PublishFlag)
    ensures SlotsInv(cfg, Apply(cfg, s, PublishFlag))
  {
    hide HandedInv, BlocksInv;
    var p := |s.accepted| - 1;
    assert SlotOk(ViewOf(cfg, s, p), SlotOf(s, p));
    WindowKept(cfg, s, Apply(cfg, s, PublishFlag), p);
  }

  lemma IndexKeeps(cfg: Config, s: State)
    requires Inv(cfg, s) && Enabled(cfg, s, PublishIndex)
    ensures Inv(cfg, Apply(cfg, s, PublishIndex))
  {
    BlocksSame(cfg, s, Apply(cfg, s, PublishIndex));
    hide BlocksInv;
    hide SlotsInv;
    WindowSame(cfg, s, Apply(cfg, s, PublishIndex));
  }

  /** The job at the head of the stream belongs to a scan that the consumer has not completed. */
  lemma HeadJob(cfg: Config, s: State) returns (p: nat)
    requires Indices(s) && InOrder(cfg, s) && |s.stream| > 0
    ensures p == s.finished / 2 && s.read <= p < |s.accepted|
    ensures s.stream[0].slot == p % SLOTS
    ensures s.stream[0].Scan? ==> s.finished == 2 * p && s.stream[0].snap == s.accepted[p] - cfg.capture
    ensures s.stream[0].Signal? ==> s.finished == 2 * p + 1 && !(p == |s.accepted| - 1 && Recording(s.producer))
  {
    p := s.finished / 2;
    assert s.stream[0] == JobAt(cfg, s.accepted, s.finished + 0);
  }

  predicate IsGpu(step: Step) {
    step.GpuTouch? || step.GpuScan? || step.GpuFault? || step.GpuSignal?
  }

  lemma GpuKeeps(cfg: Config, s: State, step: Step)
    requires Inv(cfg, s) && Enabled(cfg, s, step) && IsGpu(step)
    ensures Inv(cfg, Apply(cfg, s, step))
  {
    BlocksSame(cfg, s, Apply(cfg, s, step));
    hide BlocksInv;
    GpuKeepsSlots(cfg, s, step);
    GpuKeepsOrder(cfg, s, step);
    hide SlotsInv, HandedInv, BlocksInv, InOrder;
    var p := HeadJob(cfg, s);
    if s.consumer.Completed? {
      SlotsDiffer(s.read, p);
    }
  }

  lemma GpuKeepsOrder(cfg: Config, s: State, step: Step)
    requires Indices(s) && InOrder(cfg, s) && Enabled(cfg, s, step) && IsGpu(step)
    ensures InOrder(cfg, Apply(cfg, s, step))
  {
    hide JobAt;
    var s' := Apply(cfg, s, step);
    forall j | 0 <= j < |s'.stream| ensures s'.stream[j] == JobAt(cfg, s'.accepted, s'.finished + j) {
      if !step.GpuTouch? {
        assert s'.stream[j] == s.stream[j + 1];
      }
    }
  }

  lemma GpuKeepsSlots(cfg: Config, s: State, step: Step)
    requires Inv(cfg, s) && Enabled(cfg, s, step) && IsGpu(step)
    ensures SlotsInv(cfg, Apply(cfg, s, step))
  {
    hide HandedInv, BlocksInv;
    var p := HeadJob(cfg, s);
    hide InOrder;
    assert SlotOk(ViewOf(cfg, s, p), SlotOf(s, p));
    WindowKept(cfg, s, Apply(cfg, s, step), p);
  }

  /** The consumer only looks: each thing it sees tells how far the scan is. */
  lemma SeeKeeps(cfg: Config, s: State, step: Step)
    requires Inv(cfg, s) && Enabled(cfg, s, step) && (step.SeeIndex? || step.SeeFlag?)
    ensures Inv(cfg, Apply(cfg, s, step))
  {
    var s' := Apply(cfg, s, step);
    BlocksSame(cfg, s, s');
    OrderSame(cfg, s, s');
    hide BlocksInv, InOrder;
    WindowSame(cfg, s, s');
    assert SlotOk(ViewOf(cfg, s, s.read), SlotOf(s, s.read));
    hide SlotsInv, SlotOk;
  }

  lemma QueryKeeps(cfg: Config, s: State, step: Step)
    requires Inv(cfg, s) && Enabled(cfg, s, step) && (step.QuerySuccess? || step.QueryFailure?)
    ensures Inv(cfg, Apply(cfg, s, step))
  {
    var s' := Apply(cfg, s, step);
    BlocksSame(cfg, s, s');
    OrderSame(cfg, s, s');
    WindowSame(cfg, s, s');
    assert SlotOk(ViewOf(cfg, s, s.read), SlotOf(s, s.read));
    assert s.finished >= 2 * s.read + 2;
    hide BlocksInv, SlotsInv, InOrder, HandedInv, SlotOk, ViewOf;
  }

  lemma HandOverKeeps(cfg: Config, s: State)
    requires Inv(cfg, s) && Enabled(cfg, s, HandOver)
    ensures Inv(cfg, Apply(cfg, s, HandOver))
  {
    var s' := Apply(cfg, s, HandOver);
    BlocksSame(cfg, s, s');
    OrderSame(cfg, s, s');
    WindowSame(cfg, s, s');
    assert SlotOk(ViewOf(cfg, s, s.read), SlotOf(s, s.read));
    hide BlocksInv, SlotsInv, InOrder;
  }

  lemma ReportKeeps(cfg: Config, s: State)
    requires Inv(cfg, s) && Enabled(cfg, s, ReportError)
    ensures Inv(cfg, Apply(cfg, s, ReportError))
  {
    var s' := Apply(cfg, s, ReportError);
    BlocksSame(cfg, s, s');
    OrderSame(cfg, s, s');
    WindowSame(cfg, s, s');
    hide BlocksInv, SlotsInv, InOrder;
  }

  lemma ClearKeeps(cfg: Config, s: State)
    requires Inv(cfg, s) && Enabled(cfg, s, ClearFlag)
    ensures Inv(cfg, Apply(cfg, s, ClearFlag))
  {
    var s' := Apply(cfg, s, ClearFlag);
    BlocksSame(cfg, s, s');
    OrderSame(cfg, s, s');
    hide BlocksInv, InOrder;
    assert SlotOk(ViewOf(cfg, s, s.read), SlotOf(s, s.read));
    WindowKept(cfg, s, s', s.read);
    hide SlotsInv;
  }

  lemma ReleaseKeeps(cfg: Config, s: State)
    requires Inv(cfg, s) && Enabled(cfg, s, Release)
    ensures Inv(cfg, Apply(cfg, s, Release))
  {
    BlocksSame(cfg, s, Apply(cfg, s, Release));
    hide BlocksInv;
    ReleaseKeepsSlots(cfg, s);
    hide SlotsInv, BlocksInv;
  }

  /** The released slot becomes the slot of the scan one ring later, and is free. */
  lemma ReleaseKeepsSlots(cfg: Config, s: State)
    requires Inv(cfg, s) && Enabled(cfg, s, Release)
    ensures SlotsInv(cfg, Apply(cfg, s, Release))
  {
    hide HandedInv, BlocksInv, InOrder;
    var s' := Apply(cfg, s, Release);
    assert SlotOk(ViewOf(cfg, s, s.read), SlotOf(s, s.read));
    assert SlotOf(s', s.read + SLOTS) == SlotOf(s, s.read);
    forall i | s'.read <= i < s'.read + SLOTS ensures SlotOk(ViewOf(cfg, s', i), SlotOf(s', i)) {
      if i < s.read + SLOTS {
        assert SlotOk(ViewOf(cfg, s, i), SlotOf(s, i));
      }
    }
  }

  lemma StepKeeps(cfg: Config, s: State, step: Step)
    requires Inv(cfg, s) && Enabled(cfg, s, step)
    ensures Inv(cfg, Apply(cfg, s, step))
  {
    hide Inv, Apply, Enabled;
    match step
    case Accept => AcceptKeeps(cfg, s);
    case EnqueueScan => EnqueueKeeps(cfg, s);
    case RecordEvent => RecordKeeps(cfg, s);
    case PublishFlag => FlagKeeps(cfg, s);
    case PublishIndex => IndexKeeps(cfg, s);
    case HandOver => HandOverKeeps(cfg, s);
    case ReportError => ReportKeeps(cfg, s);
    case ClearFlag => ClearKeeps(cfg, s);
    case Release => ReleaseKeeps(cfg, s);
    case _ =>
      if IsGpu(step) {
        GpuKeeps(cfg, s, step);
      } else if step.BlockIn? || step.LookUp? || step.LoadRead? || step.Refuse? {
        LookKeeps(cfg, s, step);
      } else if step.SeeIndex? || step.SeeFlag? {
        SeeKeeps(cfg, s, step);
      } else {
        QueryKeeps(cfg, s, step);
      }
  }

  // ---------- Every run ----------

  /** A run: any interleaving of enabled steps from the initial state. */
  ghost predicate IsRun(cfg: Config, states: seq<State>) {
    && |states| > 0 && states[0] == Init()
    && forall i :: 0 <= i < |states| - 1 ==> Steps(cfg, states[i], states[i + 1])
  }

  ghost predicate Steps(cfg: Config, s: State, s': State) {
    exists step :: Enabled(cfg, s, step) && s' == Apply(cfg, s, step)
  }

  lemma InitInv(cfg: Config)
    ensures Inv(cfg, Init())
  {
  }

  lemma {:induction false} RunKeeps(cfg: Config, states: seq<State>, n: nat)
    requires IsRun(cfg, states) && n < |states|
    ensures Inv(cfg, states[n])
  {
    hide Inv, Apply, Enabled;
    if n == 0 {
      InitInv(cfg);
    } else {
      RunKeeps(cfg, states, n - 1);
      assert Steps(cfg, states[n - 1], states[n - 1 + 1]);
      var step :| Enabled(cfg, states[n - 1], step) && states[n] == Apply(cfg, states[n - 1], step);
      StepKeeps(cfg, states[n - 1], step);
    }
  }

  /** In every reachable state: the indices are within one ring, scans have been
      handed out in the order of acceptance, one each, with nothing but their own
      data, and every scheduled block so far is accounted for. */
  lemma RunSafe(cfg: Config, states: seq<State>, n: nat)
    requires IsRun(cfg, states) && n < |states|
    ensures var s := states[n];
            && 0 <= s.write - s.read <= SLOTS
            && s.read <= |s.handed| <= s.read + 1 && |s.handed| <= |s.accepted|
            && (forall i :: 0 <= i < |s.handed| ==> Faithful(s.handed[i], s.accepted[i] - cfg.capture))
            && (forall i, j :: 0 <= i < j < |s.accepted| ==> s.accepted[i] < s.accepted[j])
            && (forall b: nat :: Scheduled(cfg, b) && b <= s.head ==>
                  (b in s.missed <==> b !in s.accepted && !Considers(s.producer, b) && !Open(cfg, s, b)))
  {
    RunKeeps(cfg, states, n);
  }

  // ---------- When a block is missed ----------

  /** The producer looks at the block while the ring, as last seen, has room. */
  predicate RoomFor(s: State, b: nat) {
    s.producer.Checking? && s.producer.wi == b && s.write - s.producer.seen < SLOTS
  }

  lemma RoomStep(cfg: Config, s: State, step: Step, b: nat)
    requires Enabled(cfg, s, step)
    ensures var s' := Apply(cfg, s, step);
            RoomFor(s, b) || b in s.accepted ==> RoomFor(s', b) || b in s'.accepted
    ensures var s' := Apply(cfg, s, step);
            b in s'.accepted ==> RoomFor(s, b) || b in s.accepted
  {
    hide SlotOf, ViewOf;
    var s' := Apply(cfg, s, step);
    if step.Accept? {
      assert s'.accepted == s.accepted + [s.producer.wi];
    }
  }

  /** Up to any moment a block was seen with room if and only if it is accepted by
      then, or is being seen so at that moment. */
  lemma {:induction false} SeenWithRoom(cfg: Config, states: seq<State>, n: nat, b: nat)
    requires IsRun(cfg, states) && n < |states|
    ensures (exists i :: 0 <= i <= n && RoomFor(states[i], b)) <==> b in states[n].accepted || RoomFor(states[n], b)
  {
    if n == 0 { return; }
    hide Apply, Enabled, RoomFor;
    SeenWithRoom(cfg, states, n - 1, b);
    assert Steps(cfg, states[n - 1], states[n - 1 + 1]);
    var step :| Enabled(cfg, states[n - 1], step) && states[n] == Apply(cfg, states[n - 1], step);
    RoomStep(cfg, states[n - 1], step, b);
  }

  /** Under either policy: a scheduled block that the ring has passed, and that the
      producer is not still deciding about, was missed if and only if the producer
      never looked at it while the ring of slots had room. Trying again does not
      save a block that is overtaken while the slots stay full. */
  lemma MissedExactlyWhenNoRoom(cfg: Config, states: seq<State>, n: nat, b: nat)
    requires IsRun(cfg, states) && n < |states|
    requires Scheduled(cfg, b) && b < states[n].head && !Considers(states[n].producer, b)
    ensures b in states[n].missed <==> forall i :: 0 <= i <= n ==> !RoomFor(states[i], b)
  {
    RunKeeps(cfg, states, n);
    SeenWithRoom(cfg, states, n, b);
  }

  /** A refused block can be looked at again if and only if the producer retries and
      the block is still the newest; otherwise it is missed. */
  lemma RefusedAgain(cfg: Config, states: seq<State>, n: nat)
    requires IsRun(cfg, states) && n < |states| && Enabled(cfg, states[n], Refuse)
    ensures var s, s', b := states[n], Apply(cfg, states[n], Refuse), states[n].producer.wi;
            && (Open(cfg, s', b) <==> cfg.policy.Retry? && b == s.head)
            && (b in s'.missed <==> !Open(cfg, s', b))
  {
    RunKeeps(cfg, states, n);
  }

  /** A run goes on with any enabled step. */
  lemma Continue(cfg: Config, run: seq<State>, step: Step) returns (run': seq<State>)
    requires IsRun(cfg, run) && Enabled(cfg, run[|run| - 1], step)
    ensures IsRun(cfg, run') && |run'| == |run| + 1 && run'[|run|] == Apply(cfg, run[|run| - 1], step)
  {
    hide Apply, Enabled;
    run' := run + [Apply(cfg, run[|run| - 1], step)];
    forall i | 0 <= i < |run'| - 1 ensures Steps(cfg, run'[i], run'[i + 1]) {
      if i < |run| - 1 {
        assert Steps(cfg, run[i], run[i + 1]);
      }
    }
  }

  /** A producer that is ahead: it launched a scan for each of the k blocks so far. */
  predicate Ahead(s: State, k: nat) {
    s.head == s.write == s.last == k && s.read == 0 && s.producer.Idle? && |s.accepted| == k
  }

  lemma LookOnce(cfg: Config, run: seq<State>, k: nat) returns (run': seq<State>)
    requires IsRun(cfg, run) && cfg.capture <= 1 == cfg.stride && Ahead(run[|run| - 1], k)
    ensures IsRun(cfg, run')
    ensures var s := run'[|run'| - 1];
            && s.head == k + 1 && s.write == k && s.read == 0 && |s.accepted| == k
            && s.producer == Checking(k + 1, 0) && Shaped(s)
  {
    RunKeeps(cfg, run, |run| - 1);
    assert Shaped(run[|run| - 1]);
    hide IsRun, Inv;
    run' := Continue(cfg, run, BlockIn);
    run' := Continue(cfg, run', LookUp);
    run' := Continue(cfg, run', LoadRead);
  }

  lemma LaunchOnce(cfg: Config, run: seq<State>, k: nat) returns (run': seq<State>)
    requires IsRun(cfg, run) && cfg.capture <= 1 == cfg.stride && Ahead(run[|run| - 1], k) && k < SLOTS
    ensures IsRun(cfg, run') && Ahead(run'[|run'| - 1], k + 1)
  {
    run' := LookOnce(cfg, run, k);
    hide IsRun, Scheduled;
    run' := Continue(cfg, run', Accept);
    run' := Continue(cfg, run', EnqueueScan);
    run' := Continue(cfg, run', RecordEvent);
    run' := Continue(cfg, run', PublishFlag);
    run' := Continue(cfg, run', PublishIndex);
  }

  lemma {:induction false} GetAhead(cfg: Config, k: nat) returns (run: seq<State>)
    requires cfg.capture <= 1 == cfg.stride && k <= SLOTS
    ensures IsRun(cfg, run) && Ahead(run[|run| - 1], k)
  {
    if k == 0 {
      run := [Init()];
    } else {
      run := GetAhead(cfg, k - 1);
      run := LaunchOnce(cfg, run, k - 1);
    }
  }

  /** The retrying producer does lose blocks: with all slots taken, the ninth block is
      still under consideration when the tenth comes in, and is then refused for good. */
  lemma RetryMisses() returns (cfg: Config, run: seq<State>)
    ensures cfg.policy.Retry? && IsRun(cfg, run)
    ensures var s := run[|run| - 1];
            && Scheduled(cfg, SLOTS + 1) && SLOTS + 1 < s.head && s.producer.Idle?
            && s.write - s.read == SLOTS && SLOTS + 1 in s.missed
  {
    cfg := Config(Retry, 1, 1);
    run := GetAhead(cfg, SLOTS);
    run := LookOnce(cfg, run, SLOTS);
    hide IsRun;
    run := Continue(cfg, run, BlockIn);
    run := Continue(cfg, run, Refuse);
  }

  /** The scan at the read index is in the consumer's hands. */
  predicate InHand(s: State) {
    s.consumer.Completed? || s.consumer.Failed? || s.consumer.Handled?
  }

  /** The slot at the read index is the same after the step, and still at the read index. */
  predicate Untouched(s: State, s': State) {
    |s.slots| == |s'.slots| == SLOTS && s'.read == s.read && SlotOf(s', s.read) == SlotOf(s, s.read)
  }

  lemma HeldFromStream(cfg: Config, s: State, step: Step)
    requires Inv(cfg, s) && Enabled(cfg, s, step) && InHand(s) && IsGpu(step)
    ensures Untouched(s, Apply(cfg, s, step))
  {
    hide HandedInv, BlocksInv, SlotsInv, JobAt;
    var p := HeadJob(cfg, s);
    SlotsDiffer(s.read, p);
  }

  lemma HeldFromProducer(cfg: Config, s: State, step: Step)
    requires Inv(cfg, s) && Enabled(cfg, s, step) && InHand(s)
    requires step.Accept? || step.RecordEvent? || step.PublishFlag?
    ensures Untouched(s, Apply(cfg, s, step))
  {
    hide HandedInv, BlocksInv, SlotsInv, JobAt;
    SlotsDiffer(s.read, if step.Accept? then s.write else |s.accepted| - 1);
  }

  lemma HeldFromOthers(cfg: Config, s: State, step: Step)
    requires Shaped(s) && Enabled(cfg, s, step) && InHand(s)
    requires !IsGpu(step) && !step.Accept? && !step.RecordEvent? && !step.PublishFlag? && !step.ClearFlag?
    ensures Untouched(s, Apply(cfg, s, step))
  {
  }

  /** While the consumer has a completed scan in hand, no step of the producer or of
      the stream touches its slot. */
  lemma HeldSlotUntouched(cfg: Config, states: seq<State>, n: nat, step: Step)
    requires IsRun(cfg, states) && n < |states| && Enabled(cfg, states[n], step) && InHand(states[n])
    requires !step.ClearFlag?
    ensures Untouched(states[n], Apply(cfg, states[n], step))
  {
    RunKeeps(cfg, states, n);
    hide Inv, Apply, Untouched, InHand, IsRun;
    if IsGpu(step) {
      HeldFromStream(cfg, states[n], step);
    } else if step.Accept? || step.RecordEvent? || step.PublishFlag? {
      HeldFromProducer(cfg, states[n], step);
    } else {
      HeldFromOthers(cfg, states[n], step);
    }
  }

  /** The callback runs only on a slot whose event has signalled success, and the
      data it sees is the snapshot the scan was launched for. */
  lemma CallbackSeesItsScan(cfg: Config, states: seq<State>, n: nat)
    requires IsRun(cfg, states) && n < |states| && Enabled(cfg, states[n], HandOver)
    ensures var s := states[n];
            && |s.slots| == SLOTS && s.read < |s.accepted| && s.finished >= 2 * s.read + 2
            && SlotOf(s, s.read).dispatched && SlotOf(s, s.read).host.Holds?
            && SlotOf(s, s.read).snapStart == SlotOf(s, s.read).host.snap == s.accepted[s.read] - cfg.capture
  {
    RunKeeps(cfg, states, n);
    assert SlotOk(ViewOf(cfg, states[n], states[n].read), SlotOf(states[n], states[n].read));
  }

  /** A slot is taken for a new scan only when its previous scan has been released. */
  lemma AcceptOnlyFree(cfg: Config, states: seq<State>, n: nat)
    requires IsRun(cfg, states) && n < |states| && Enabled(cfg, states[n], Accept)
    ensures var s := states[n];
            |s.slots| == SLOTS && |s.accepted| == s.write < s.read + SLOTS && !SlotOf(s, s.write).dispatched
    ensures forall j :: 0 <= j < |states[n].stream| ==> states[n].stream[j].slot != states[n].write % SLOTS
  {
    var s := states[n];
    RunKeeps(cfg, states, n);
    assert SlotOk(ViewOf(cfg, s, s.write), SlotOf(s, s.write));
    forall j | 0 <= j < |s.stream| ensures s.stream[j].slot != s.write % SLOTS {
      assert s.stream[j] == JobAt(cfg, s.accepted, s.finished + j);
      SlotsDiffer((s.finished + j) / 2, s.write);
    }
  }
}
