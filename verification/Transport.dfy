/** The whole transport of one thread ring as interleaved atomic steps: the tracer's inline
    path (unchecked, private cached head), its clean-call path (flush, checked pushes, sync),
    the engine's batch consumer, and the backpressure tier between them.
    `stream`, `delivered` and `lapped` are history: every slot write in stream order, every
    event handed to the engine, and the events counted as lost. */
module Transport {
  import opened Events
  import opened Modular
  import opened ThreadRings

  const TIER_SHED_READS: nat := 1
  const TIER_SHED_WRITES: nat := 2
  const FLUSH_PERIOD: nat := 64

  datatype Producer =
    | Idle
    | InFlight(filled: nat)              // inline write: header and filled-1 continuations written
    | Mirroring(inCall: bool)            // heads equal, tier not yet copied
    | InCall                             // inside a clean call or a system-call hook
    | Pushing(run: seq<Event>, k: nat)   // checked push: room found, k slots written

  datatype Consumer =
    | Resting
    | TailLoaded(t: nat, outLen: nat)
    | Copying(t: nat, h: nat, limit: nat, runTail: nat, out: seq<Event>)
    | CopyDone(t: nat, h: nat, out: seq<Event>)
    | Storing(newTail: nat, batch: seq<Event>)
    | Gauging(h: nat)

  datatype System = System(
    cap: nat, slots: seq<Event>, head: nat, tail: nat, tier: nat,
    cached: nat, mirror: nat, producer: Producer, consumer: Consumer,
    stream: seq<Event>, delivered: seq<Event>, lapped: nat)

  datatype TracerStep =
    | PreWrite(header: Event)
    | FillValue(value: nat)
    | FillContinuation(chunk: Event)
    | PostWrite
    | Flush(inCall: bool)
    | PreSyscall
    | Mirror
    | PushStart(run: seq<Event>)
    | PushSlot
    | PushPublish
    | Sync
    | EndCall

  datatype EngineStep =
    | ConsumeStart(outLen: nat)
    | LoadHead
    | CopySlot
    | ReloadHead
    | StoreTail
    | GaugeHead
    | StoreTier

  datatype Step = Tracer(tracer: TracerStep) | Engine(engine: EngineStep)

  function Zero(): Event { Event(0, 0, 0, 0, 0, 0, 0) }

  function Init(cap: nat): System {
    System(cap, seq(cap, _ => Zero()), 0, 0, 0, 0, 0, Idle, Resting, [], [], 0)
  }

  /** The engine's tier rule; `8 * (h - t) / cap` is the fill in eighths. */
  function NewTier(cap: nat, h: nat, t: nat, tier: nat): nat
    requires cap > 0
  {
    var eighths := SatSub(h, t) * 8 / cap;
    if eighths >= 7 then TIER_SHED_WRITES
    else if eighths >= 6 then TIER_SHED_READS
    else if eighths < 3 then 0
    else tier
  }

  predicate Shape(s: System) { s.cap > 0 && |s.slots| == s.cap }

  /** The room check of a push: `h - t >= capacity` refuses a single slot, `h - t + 7 > capacity` a
      snapshot. The fill is unsigned: with the head behind the tail it wraps, so that a single slot
      is refused, and the sum wraps back. */
  predicate HasRoom(s: System, n: nat) {
    if n == 1 then s.tail <= s.head < s.tail + s.cap else s.tail <= s.head + n <= s.tail + s.cap
  }

  predicate TracerEnabled(s: System, step: TracerStep) {
    && Shape(s)
    && match step
       case PreWrite(header) =>
         // emit_bb_entry sheds at tier 1, emit_pre_write at tier 2
         && s.producer.Idle? && header.RunLength() > 0
         && ((header.Kind() == KIND_BB_ENTRY && s.mirror == 0)
             || (header.Kind() == KIND_WRITE && s.mirror < TIER_SHED_WRITES))
       case FillValue(_) => s.producer == InFlight(1) && s.cached < |s.stream|
       case FillContinuation(_) =>
         && s.producer.InFlight? && s.cached < |s.stream|
         && s.producer.filled < s.stream[s.cached].RunLength()
       case PostWrite =>
         && s.producer.InFlight? && s.cached < |s.stream|
         && s.producer.filled == s.stream[s.cached].RunLength()
       case Flush(_) => s.producer.Idle?
       case PreSyscall => s.producer.Idle?
       case Mirror => s.producer.Mirroring?
       case PushStart(run) => s.producer.InCall? && IsRun(run)
       case PushSlot => s.producer.Pushing? && s.producer.k < |s.producer.run|
       case PushPublish => s.producer.Pushing? && s.producer.k == |s.producer.run|
       case Sync => s.producer.InCall?
       case EndCall => s.producer.InCall? && s.head == s.cached
  }

  predicate EngineEnabled(s: System, step: EngineStep) {
    && Shape(s)
    && match step
       case ConsumeStart(outLen) => s.consumer.Resting? && outLen > 0
       case LoadHead => s.consumer.TailLoaded?
       case CopySlot => s.consumer.Copying?
       case ReloadHead => s.consumer.CopyDone?
       case StoreTail => s.consumer.Storing?
       case GaugeHead => s.consumer.Resting?
       case StoreTier => s.consumer.Gauging?
  }

  /** The slot write of stream index `at`. */
  function Append(s: System, at: nat, ev: Event): System
    requires Shape(s)
  {
    s.(slots := s.slots[at % s.cap := ev], stream := s.stream + [ev])
  }

  function TracerNext(s: System, step: TracerStep): System
    requires TracerEnabled(s, step)
  {
    match step
    case PreWrite(header) => Append(s, s.cached, header).(producer := InFlight(1))
    case FillValue(value) =>
      var ev := s.stream[s.cached].(value := value);
      s.(slots := s.slots[s.cached % s.cap := ev], stream := s.stream[s.cached := ev])
    case FillContinuation(chunk) =>
      Append(s, s.cached + s.producer.filled, chunk).(producer := InFlight(s.producer.filled + 1))
    case PostWrite =>
      var cached := s.cached + s.producer.filled;
      s.(cached := cached, head := if cached % FLUSH_PERIOD == 0 then cached else s.head, producer := Idle)
    case Flush(inCall) => s.(head := s.cached, producer := Mirroring(inCall))
    case PreSyscall => s.(head := s.cached, producer := InCall)
    case Mirror => s.(mirror := s.tier, producer := if s.producer.inCall then InCall else Idle)
    case PushStart(run) =>
      // a full ring drops the run (or, with SPIN_ON_FULL, loads the tail again)
      if HasRoom(s, |run|) then s.(producer := Pushing(run, 0)) else s
    case PushSlot =>
      Append(s, s.head + s.producer.k, s.producer.run[s.producer.k])
        .(producer := Pushing(s.producer.run, s.producer.k + 1))
    case PushPublish => s.(head := s.head + |s.producer.run|, producer := InCall)
    case Sync => s.(cached := s.head, producer := Mirroring(true))
    case EndCall => s.(producer := Idle)
  }

  /** One iteration of the copy loop. */
  function CopyNext(c: Consumer, ev: Event): Consumer
    requires c.Copying?
  {
    match Decide(c.limit, |c.out|, c.runTail, ev)
    case Stop => CopyDone(c.t, c.h, c.out)
    case Take(rest) => Copying(c.t, c.h, c.limit, rest, c.out + [ev])
  }

  function EngineNext(s: System, step: EngineStep): System
    requires EngineEnabled(s, step)
  {
    var c := s.consumer;
    match step
    case ConsumeStart(outLen) => s.(consumer := TailLoaded(s.tail, outLen))
    case LoadHead =>
      var t := Resync(s.cap, c.t, s.head);
      var limit := Min(SatSub(s.head, t), c.outLen);
      s.(lapped := s.lapped + (t - c.t),
         consumer := if limit == 0 then Resting else Copying(t, s.head, limit, 0, []))
    case CopySlot =>
      s.(consumer := if |c.out| >= c.limit then CopyDone(c.t, c.h, c.out)
                     else CopyNext(c, s.slots[(c.t + |c.out|) % s.cap]))
    case ReloadHead =>
      if SatSub(s.head, c.t) > s.cap then
        s.(lapped := s.lapped + (s.head - s.cap - c.t), consumer := Storing(s.head - s.cap, []))
      else s.(consumer := Storing(c.t + |c.out|, c.out))
    case StoreTail =>
      s.(tail := c.newTail, delivered := s.delivered + c.batch, consumer := Resting)
    case GaugeHead => s.(consumer := Gauging(s.head))
    case StoreTier => s.(tier := NewTier(s.cap, c.h, s.tail, s.tier), consumer := Resting)
  }

  predicate Enabled(s: System, step: Step) {
    match step
    case Tracer(t) => TracerEnabled(s, t)
    case Engine(e) => EngineEnabled(s, e)
  }

  function Next(s: System, step: Step): System
    requires Enabled(s, step)
  {
    match step
    case Tracer(t) => TracerNext(s, t)
    case Engine(e) => EngineNext(s, e)
  }

  // ----- invariant of every interleaving -----

  /** Stream index i sits in slot i mod cap until a write a whole lap later replaces it. */
  ghost predicate SlotsHold(s: System) {
    && Shape(s)
    && forall i :: 0 <= i < |s.stream| && |s.stream| <= i + s.cap ==> s.slots[i % s.cap] == s.stream[i]
  }

  /** Everything before this index is final. */
  function Committed(s: System): nat {
    if s.producer.Idle? || s.producer.InFlight? then s.cached else s.head
  }

  ghost predicate ProducerInv(s: System) {
    && s.head <= Committed(s) <= |s.stream|
    && IsBoundary(s.stream, 0, s.head)
    && IsBoundary(s.stream, 0, Committed(s))
    && match s.producer
       case Idle => |s.stream| == s.cached && (s.mirror >= TIER_SHED_WRITES ==> s.head == s.cached)
       case InFlight(filled) =>
         && s.mirror < TIER_SHED_WRITES
         && 0 < filled && |s.stream| == s.cached + filled
         && filled <= s.stream[s.cached].RunLength()
       case Mirroring(_) => s.head == s.cached == |s.stream|
       case InCall => s.cached <= s.head == |s.stream|
       case Pushing(run, k) =>
         && s.cached <= s.head && k <= |run| && IsRun(run)
         && |s.stream| == s.head + k && s.stream[s.head..] == run[..k]
         && s.head + |run| <= s.tail + s.cap
  }

  /** Copied slot j is the event of stream index t+j unless the writer has lapped it. */
  ghost predicate ExactUnlessLapped(s: System, t: nat, out: seq<Event>) {
    && t + |out| <= s.head <= |s.stream|
    && forall j :: 0 <= j < |out| && |s.stream| <= t + j + s.cap ==> out[j] == s.stream[t + j]
  }

  ghost predicate ConsumerInv(s: System) {
    && s.tail <= s.head
    && match s.consumer
       case Resting => s.tail == |s.delivered| + s.lapped
       case Gauging(h) => h <= s.head && s.tail == |s.delivered| + s.lapped
       case TailLoaded(t, outLen) => t == s.tail == |s.delivered| + s.lapped && outLen > 0
       case Copying(t, h, limit, _, out) =>
         && s.tail <= t == |s.delivered| + s.lapped
         && |out| <= limit && t + limit <= h <= s.head && 0 < limit
         && ExactUnlessLapped(s, t, out)
       case CopyDone(t, h, out) =>
         && s.tail <= t == |s.delivered| + s.lapped
         && t + |out| <= h <= s.head
         && ExactUnlessLapped(s, t, out)
       case Storing(newTail, batch) =>
         && s.tail <= newTail <= s.head
         && newTail == |s.delivered| + |batch| + s.lapped
  }

  ghost predicate Inv(s: System) {
    SlotsHold(s) && ProducerInv(s) && ConsumerInv(s)
  }

  lemma AppendHolds(s: System, ev: Event)
    requires SlotsHold(s)
    ensures SlotsHold(Append(s, |s.stream|, ev))
  {
    var s' := Append(s, |s.stream|, ev);
    forall i | 0 <= i < |s'.stream| && |s'.stream| <= i + s.cap
      ensures s'.slots[i % s.cap] == s'.stream[i]
    {
      if i < |s.stream| { ModDistinct(i, |s.stream|, s.cap); }
    }
  }

  /** The stream grows at its end and changes only from the committed index on; the tracer
      touches neither the tail nor anything of the consumer's. */
  lemma TracerStable(s: System, step: TracerStep)
    requires ProducerInv(s) && TracerEnabled(s, step)
    ensures var s' := TracerNext(s, step);
            && |s.stream| <= |s'.stream|
            && Committed(s) <= Committed(s') && s.head <= s'.head
            && s'.cap == s.cap && Shape(s')
            && (forall i :: 0 <= i < Committed(s) ==> s'.stream[i] == s.stream[i])
            && s'.tail == s.tail && s'.tier == s.tier && s'.consumer == s.consumer
            && s'.delivered == s.delivered && s'.lapped == s.lapped
  {
  }

  /** The engine touches only the tail, the tier and its own state. */
  lemma EngineStable(s: System, step: EngineStep)
    requires ConsumerInv(s) && EngineEnabled(s, step)
    ensures var s' := EngineNext(s, step);
            && s'.cap == s.cap && s'.slots == s.slots && s'.stream == s.stream
            && s'.head == s.head && s'.cached == s.cached && s'.mirror == s.mirror
            && s'.producer == s.producer && s.tail <= s'.tail
  {
  }

  lemma BoundariesStable(s: System, step: TracerStep, b: nat)
    requires ProducerInv(s) && TracerEnabled(s, step) && b <= Committed(s) && IsBoundary(s.stream, 0, b)
    ensures IsBoundary(TracerNext(s, step).stream, 0, b)
  {
    TracerStable(s, step);
    BoundaryAgree(s.stream, TracerNext(s, step).stream, 0, b);
  }

  lemma RunAt(stream: seq<Event>, at: nat, len: nat)
    requires at < |stream| && stream[at].RunLength() == len && IsBoundary(stream, 0, at)
    ensures IsBoundary(stream, 0, at + len)
  {
    if len > 0 {
      assert IsBoundary(stream, at + len, at + len);
      assert IsBoundary(stream, at, at + len);
    }
    BoundaryTrans(stream, 0, at, at + len);
  }

  lemma RewriteHolds(s: System, ev: Event)
    requires SlotsHold(s) && s.cached < |s.stream| <= s.cached + s.cap
    ensures SlotsHold(s.(slots := s.slots[s.cached % s.cap := ev], stream := s.stream[s.cached := ev]))
  {
    var s' := s.(slots := s.slots[s.cached % s.cap := ev], stream := s.stream[s.cached := ev]);
    forall i | 0 <= i < |s'.stream| && |s'.stream| <= i + s.cap
      ensures s'.slots[i % s.cap] == s'.stream[i]
    {
      if i < s.cached { ModDistinct(i, s.cached, s.cap); }
      if i > s.cached { ModDistinct(s.cached, i, s.cap); }
    }
  }

  lemma SlotsStep(s: System, step: TracerStep)
    requires SlotsHold(s) && ProducerInv(s) && TracerEnabled(s, step)
    ensures SlotsHold(TracerNext(s, step))
  {
    match step
    case PreWrite(header) => AppendHolds(s, header);
    case FillContinuation(chunk) => AppendHolds(s, chunk);
    case PushSlot => AppendHolds(s, s.producer.run[s.producer.k]);
    case FillValue(value) => RewriteHolds(s, s.stream[s.cached].(value := value));
    case _ =>
  }

  lemma InlineStep(s: System, step: TracerStep)
    requires ProducerInv(s) && TracerEnabled(s, step)
    requires s.producer.Idle? || s.producer.InFlight?
    ensures ProducerInv(TracerNext(s, step))
  {
    var s' := TracerNext(s, step);
    BoundariesStable(s, step, s.head);
    BoundariesStable(s, step, s.cached);
    if step.PostWrite? {
      RunAt(s'.stream, s.cached, s.producer.filled);
    }
  }

  lemma CallStep(s: System, step: TracerStep)
    requires ProducerInv(s) && TracerEnabled(s, step)
    requires !s.producer.Idle? && !s.producer.InFlight?
    ensures ProducerInv(TracerNext(s, step))
  {
    var s' := TracerNext(s, step);
    BoundariesStable(s, step, s.head);
    match step
    case PushPublish =>
      assert s.stream[s.head] == s.stream[s.head..][0] == s.producer.run[0];
      RunAt(s'.stream, s.head, |s.producer.run|);
    case PushSlot =>
      var p := s.producer;
      assert s'.stream[s.head..] == s.stream[s.head..] + [p.run[p.k]] == p.run[..p.k + 1];
    case _ =>
  }

  lemma ExactStable(s: System, s': System, t: nat, out: seq<Event>)
    requires ExactUnlessLapped(s, t, out)
    requires s'.cap == s.cap && s.head <= s'.head <= |s'.stream| && |s.stream| <= |s'.stream|
    requires forall i :: 0 <= i < s.head ==> s'.stream[i] == s.stream[i]
    ensures ExactUnlessLapped(s', t, out)
  {
  }

  lemma TracerKeepsConsumer(s: System, s': System)
    requires ConsumerInv(s)
    requires s'.consumer == s.consumer && s'.delivered == s.delivered && s'.lapped == s.lapped
    requires s'.tail == s.tail && s'.cap == s.cap
    requires s.head <= s'.head <= |s'.stream| && |s.stream| <= |s'.stream| && s.head <= |s.stream|
    requires forall i :: 0 <= i < s.head ==> s'.stream[i] == s.stream[i]
    ensures ConsumerInv(s')
  {
    match s.consumer
    case Copying(t, _, _, _, out) => ExactStable(s, s', t, out);
    case CopyDone(t, _, out) => ExactStable(s, s', t, out);
    case _ =>
  }

  lemma CopyStepInv(s: System)
    requires Inv(s) && EngineEnabled(s, CopySlot)
    ensures ConsumerInv(EngineNext(s, CopySlot))
  {
    var c := s.consumer;
    if |c.out| < c.limit {
      var p := c.t + |c.out|;
      assert |s.stream| <= p + s.cap ==> s.slots[p % s.cap] == s.stream[p];
    }
  }

  lemma EngineStepInv(s: System, step: EngineStep)
    requires Inv(s) && EngineEnabled(s, step)
    ensures ConsumerInv(EngineNext(s, step))
  {
    if step.CopySlot? { CopyStepInv(s); }
  }

  /** Every step of either side keeps the invariant. */
  lemma InvStep(s: System, step: Step)
    requires Inv(s) && Enabled(s, step)
    ensures Inv(Next(s, step))
  {
    match step
    case Tracer(t) =>
      TracerStable(s, t);
      SlotsStep(s, t);
      if s.producer.Idle? || s.producer.InFlight? { InlineStep(s, t); } else { CallStep(s, t); }
      TracerKeepsConsumer(s, TracerNext(s, t));
    case Engine(e) =>
      EngineStable(s, e);
      EngineStepInv(s, e);
  }
}
