/** Where the transport protocol stops holding: pushes without a flush or into a write in flight,
    the start of a forked child, and overruns that the published head does not show. */
module ProtocolLimits {
  import opened Events
  import opened Modular
  import opened ThreadRings
  import opened Transport
  import opened Delivery

  // ----- pushes out of turn -----

  /** Why clean calls flush first. A push that started from idle at the published head would put
      `ev` in the slot of stream index `head`; it keeps every unpublished inline event in its slot
      exactly when nothing was unpublished (or it happens to write the very same event). */
  lemma PushNeedsFlush(s: System, ev: Event)
    requires Inv(s) && s.producer.Idle? && s.cached <= s.head + s.cap
    ensures (forall i :: s.head <= i < s.cached ==> s.slots[s.head % s.cap := ev][i % s.cap] == s.stream[i])
            <==> (s.head == s.cached || ev == s.stream[s.head])
  {
    var after := s.slots[s.head % s.cap := ev];
    if s.head < s.cached {
      assert after[s.head % s.cap] == ev;
      forall i | s.head < i < s.cached ensures after[i % s.cap] == s.stream[i] {
        ModDistinct(s.head, i, s.cap);
      }
    }
  }

  /** A one-slot push inside a clean call. A full ring refuses it. */
  function PushOne(s: System, ev: Event): (s': System)
    requires Shape(s) && s.producer.InCall? && ev.RunLength() == 1
    ensures Shape(s') && s'.producer.InCall?
  {
    var started := TracerNext(s, PushStart([ev]));
    if started.producer.Pushing? then TracerNext(TracerNext(started, PushSlot), PushPublish) else started
  }

  /** A whole clean call with a one-slot push, from idle. */
  function CleanPush(s: System, ev: Event): System
    requires Shape(s) && s.producer.Idle? && ev.RunLength() == 1
  {
    var pushed := PushOne(TracerNext(TracerNext(s, Flush(true)), Mirror), ev);
    TracerNext(TracerNext(TracerNext(pushed, Sync), Mirror), EndCall)
  }

  /** A one-slot inline write is in flight. */
  predicate OneSlotInFlight(s: System) {
    && Shape(s) && s.producer == InFlight(1) && |s.stream| == s.cached + 1
    && s.stream[s.cached].RunLength() == 1
  }

  /** That clean call in the middle of the write, as if from idle, and then the post-write that was
      outstanding: it stores the value through the slot address taken before the call. */
  function PushDuringWrite(s: System, ev: Event, value: nat): System
    requires OneSlotInFlight(s) && ev.RunLength() == 1
  {
    var c, called := s.cached, CleanPush(s.(producer := Idle), ev);
    var at := c % s.cap;
    TracerNext(called.(slots := called.slots[at := called.slots[at].(value := value)],
                       stream := called.stream[c := called.stream[c].(value := value)],
                       producer := InFlight(1)), PostWrite)
  }

  lemma CleanPushIs(s: System, ev: Event)
    requires Shape(s) && s.producer.Idle? && ev.RunLength() == 1 && s.tail <= s.cached
    ensures var e, c := CleanPush(s, ev), s.cached;
            e == if c < s.tail + s.cap
                 then s.(slots := s.slots[c % s.cap := ev], stream := s.stream + [ev], head := c + 1, cached := c + 1, mirror := s.tier)
                 else s.(head := c, mirror := s.tier)
  {
  }

  /** In memory and history together: what the call and the late value leave. */
  function Clobbered(s: System, ev: Event, value: nat): System
    requires OneSlotInFlight(s)
  {
    var c := s.cached;
    s.(slots := s.slots[c % s.cap := ev.(value := value)], stream := s.stream[c := s.stream[c].(value := value)] + [ev],
       cached := c + 2, head := if (c + 2) % FLUSH_PERIOD == 0 then c + 2 else c + 1, mirror := s.tier, producer := Idle)
  }

  lemma PushedIsClobbered(s: System, ev: Event, value: nat)
    requires OneSlotInFlight(s) && ev.RunLength() == 1 && s.tail <= s.cached < s.tail + s.cap
    ensures PushDuringWrite(s, ev, value) == Clobbered(s, ev, value)
  {
    var c := s.cached;
    CleanPushIs(s.(producer := Idle), ev);
    assert (s.stream + [ev])[c := s.stream[c].(value := value)] == s.stream[c := s.stream[c].(value := value)] + [ev];
    assert s.slots[c % s.cap := ev][c % s.cap := ev.(value := value)] == s.slots[c % s.cap := ev.(value := value)];
  }

  lemma ClobberedSlots(s: System, ev: Event, value: nat)
    requires SlotsHold(s) && OneSlotInFlight(s) && s.cap > 1
    ensures var e, c := Clobbered(s, ev, value), s.cached;
            && e.slots[c % s.cap] == ev.(value := value)
            && e.slots[(c + 1) % s.cap] == s.slots[(c + 1) % s.cap]
            && (c + 1 >= s.cap ==> e.slots[(c + 1) % s.cap] == s.stream[c + 1 - s.cap])
            && (SlotsHold(e) <==> ev.(value := value) == s.stream[c].(value := value) && s.slots[(c + 1) % s.cap] == ev)
  {
    var e, c := Clobbered(s, ev, value), s.cached;
    ModDistinct(c, c + 1, s.cap);
    if c + 1 >= s.cap {
      AddMod(c + 1 - s.cap, s.cap);
      assert s.slots[(c + 1 - s.cap) % s.cap] == s.stream[c + 1 - s.cap];
    }
    if ev.(value := value) == s.stream[c].(value := value) && s.slots[(c + 1) % s.cap] == ev {
      forall i | 0 <= i < |e.stream| && |e.stream| <= i + s.cap ensures e.slots[i % s.cap] == e.stream[i] {
        if i < c { ModDistinct(i, c, s.cap); }
      }
    }
    if SlotsHold(e) {
      assert e.slots[c % s.cap] == e.stream[c] && e.slots[(c + 1) % s.cap] == e.stream[c + 1];
    }
  }

  /** A refused push leaves the write alone. */
  lemma RefusedInFlight(s: System, ev: Event, value: nat)
    requires Inv(s) && OneSlotInFlight(s) && ev.RunLength() == 1 && s.cached >= s.tail + s.cap
    ensures var e := PushDuringWrite(s, ev, value); SlotsHold(e) && e.cached == s.cached + 1 == |e.stream|
  {
    CleanPushIs(s.(producer := Idle), ev);
    assert s.slots[s.cached % s.cap] == s.stream[s.cached];
    RewriteHolds(s, s.stream[s.cached].(value := value));
  }

  /** Why no push may run while an inline write is in flight. Unless the ring is full and refuses the
      push, the two writes count two positions but fill one slot: the pushed event, with the value of
      the write, takes the slot of the write's header; the position after it keeps what lay there,
      which is the event of a whole ring ago once the ring has wrapped. Each position holds its own
      event exactly when the push was refused, or the pushed event equals the header up to the value
      and that old slot happens to hold it too. */
  lemma PushInFlightClobbers(s: System, ev: Event, value: nat)
    requires Inv(s) && OneSlotInFlight(s) && ev.RunLength() == 1 && s.cap > 1
    ensures var e, c := PushDuringWrite(s, ev, value), s.cached;
            if c < s.tail + s.cap then
              && e.cached == c + 2 == |e.stream|
              && e.slots[c % s.cap] == ev.(value := value)
              && e.slots[(c + 1) % s.cap] == s.slots[(c + 1) % s.cap]
              && (c + 1 >= s.cap ==> e.slots[(c + 1) % s.cap] == s.stream[c + 1 - s.cap])
              && (SlotsHold(e) <==> ev.(value := value) == s.stream[c].(value := value) && s.slots[(c + 1) % s.cap] == ev)
            else SlotsHold(e) && e.cached == c + 1 == |e.stream|
  {
    if s.cached < s.tail + s.cap {
      PushedIsClobbered(s, ev, value);
      ClobberedSlots(s, ev, value);
    } else {
      RefusedInFlight(s, ev, value);
    }
  }

  // ----- the start of a forked child -----

  /** A forked child starts with its PROCESS_FORK event published but its cached head still 0. */
  function ForkedChild(cap: nat, fork: Event): System
    requires cap > 0
  {
    Init(cap).(slots := Init(cap).slots[0 := fork], stream := [fork], head := 1)
  }

  /** The missing sync is the whole defect: that start is sound with a cached head of 1, and with
      no other. */
  lemma ForkNeedsSync(cap: nat, fork: Event, cached: nat)
    requires cap > 0 && fork.RunLength() == 1
    ensures Inv(ForkedChild(cap, fork).(cached := cached)) <==> cached == 1
  {
    var s := ForkedChild(cap, fork).(cached := cached);
    if cached == 1 {
      RunAt([fork], 0, 1);
      ModUnique(0, cap, 0, 0);
    }
  }

  /** Whatever the child does first goes wrong: an inline write or block entry lands on the fork
      event's slot, everything else takes the published head back to 0. */
  lemma ForkFirstStep(cap: nat, fork: Event, step: TracerStep)
    requires cap > 0 && TracerEnabled(ForkedChild(cap, fork), step)
    ensures var s := TracerNext(ForkedChild(cap, fork), step);
            if step.PreWrite? then s.slots[0] == step.header && s.head == 1 else s.head == 0
  {
    ModUnique(0, cap, 0, 0);
  }

  /** The engine's steps that take a single event. */
  function TakeOne(): seq<Step> {
    [Engine(ConsumeStart(1))] + ([Engine(LoadHead)] + ([Engine(CopySlot)] + ([Engine(CopySlot)]
      + ([Engine(ReloadHead)] + ([Engine(StoreTail)] + [])))))
  }

  /** If the engine is quick enough, it gets the fork event. */
  lemma ForkIsTaken(cap: nat, fork: Event)
    requires cap > 0 && fork.RunLength() == 1
    ensures Legal(ForkedChild(cap, fork), TakeOne())
    ensures Run(ForkedChild(cap, fork), TakeOne()) == ForkedChild(cap, fork).(tail := 1, delivered := [fork])
  {
    var s := ForkedChild(cap, fork);
    ModUnique(0, cap, 0, 0);
    SingleTaken(fork);
    var s1 := s.(consumer := TailLoaded(0, 1));
    var s2 := s.(consumer := Copying(0, 1, 1, 0, []));
    var s3 := s.(consumer := Copying(0, 1, 1, 0, [fork]));
    var s4 := s.(consumer := CopyDone(0, 1, [fork]));
    var s5 := s.(consumer := Storing(1, [fork]));
    assert s.slots[0] == fork && [] + [fork] == [fork];
    assert EngineNext(s1, LoadHead) == s2 && EngineNext(s2, CopySlot) == s3;
    assert EngineNext(s3, CopySlot) == s4 && EngineNext(s4, ReloadHead) == s5;
    RunCons(s5, Engine(StoreTail), []);
    RunCons(s4, Engine(ReloadHead), [Engine(StoreTail)] + []);
    RunCons(s3, Engine(CopySlot), [Engine(ReloadHead)] + ([Engine(StoreTail)] + []));
    RunCons(s2, Engine(CopySlot), [Engine(CopySlot)] + ([Engine(ReloadHead)] + ([Engine(StoreTail)] + [])));
    RunCons(s1, Engine(LoadHead),
            [Engine(CopySlot)] + ([Engine(CopySlot)] + ([Engine(ReloadHead)] + ([Engine(StoreTail)] + []))));
    RunCons(s, Engine(ConsumeStart(1)), [Engine(LoadHead)]
            + ([Engine(CopySlot)] + ([Engine(CopySlot)] + ([Engine(ReloadHead)] + ([Engine(StoreTail)] + [])))));
  }

  lemma SingleTaken(ev: Event)
    requires ev.RunLength() == 1
    ensures Decide(1, 0, 0, ev) == Take(0)
  {
  }

  /** The same ring with the history started afresh: `stream` is what the child itself writes, in
      its own numbering from 0, which is the engine's numbering too. */
  function ForkTaken(cap: nat, fork: Event): System
    requires cap > 0
  {
    ForkedChild(cap, fork).(tail := 1, delivered := [fork], stream := [])
  }

  /** The child's producer: as always, but until its first flush the head may still be 1. */
  predicate ChildProducer(s: System) {
    match s.producer
    case Idle => |s.stream| == s.cached && (s.head <= s.cached || s.head == 1)
    case InFlight(filled) =>
      0 < filled && |s.stream| == s.cached + filled && (s.head <= s.cached || s.head == 1)
    case Mirroring(_) => s.head == s.cached == |s.stream|
    case InCall => s.cached <= s.head == |s.stream|
    case Pushing(run, k) =>
      s.cached <= s.head && k <= |run| && |s.stream| == s.head + k && s.head + |run| <= s.tail + s.cap
  }

  /** The copy in progress is the stream from the tail on, all of it final. */
  predicate ChildConsumer(s: System) {
    match s.consumer
    case Resting | Gauging(_) => true
    case TailLoaded(t, outLen) => t == s.tail && outLen > 0
    case Copying(t, h, limit, _, out) =>
      && t == s.tail && |out| <= limit && t + limit <= h <= Committed(s) <= |s.stream|
      && out == s.stream[t..t + |out|]
    case CopyDone(t, _, out) =>
      t == s.tail && t + |out| <= Committed(s) <= |s.stream| && out == s.stream[t..t + |out|]
    case Storing(newTail, batch) =>
      newTail == s.tail + |batch| <= Committed(s) <= |s.stream| && batch == s.stream[s.tail..newTail]
  }

  /** What is delivered besides the fork event: the child's stream from position 1 on. */
  predicate ChildDelivered(s: System, fork: Event) {
    && 1 <= s.tail && s.lapped == 0
    && (if s.tail == 1 then s.delivered == [fork]
        else s.tail <= Committed(s) <= |s.stream| && s.delivered == [fork] + s.stream[1..s.tail])
  }

  ghost predicate ChildInv(s: System, fork: Event) {
    SlotsHold(s) && Fits(s) && ChildProducer(s) && ChildConsumer(s) && ChildDelivered(s, fork)
  }

  lemma ChildSlots(s: System, step: TracerStep)
    requires SlotsHold(s) && ChildProducer(s) && TracerEnabled(s, step)
    ensures SlotsHold(TracerNext(s, step))
  {
    match step
    case PreWrite(header) => AppendHolds(s, header);
    case FillContinuation(chunk) => AppendHolds(s, chunk);
    case PushSlot => AppendHolds(s, s.producer.run[s.producer.k]);
    case FillValue(value) => RewriteHolds(s, s.stream[s.cached].(value := value));
    case _ =>
  }

  /** Nothing of the stream below the committed index changes, and nothing of the engine's. */
  predicate TracerGrows(s: System, s': System) {
    && Committed(s) <= |s.stream| && Committed(s) <= Committed(s') <= |s'.stream|
    && s'.stream[..Committed(s)] == s.stream[..Committed(s)]
    && s'.tail == s.tail && s'.consumer == s.consumer && s'.delivered == s.delivered && s'.lapped == s.lapped
  }

  lemma ChildStable(s: System, step: TracerStep)
    requires ChildProducer(s) && TracerEnabled(s, step)
    ensures ChildProducer(TracerNext(s, step)) && TracerGrows(s, TracerNext(s, step))
  {
  }

  lemma SliceStays(a: seq<Event>, b: seq<Event>, n: nat, from: nat, to: nat)
    requires from <= to <= n <= |a| && n <= |b| && b[..n] == a[..n]
    ensures b[from..to] == a[from..to]
  {
    assert a[..n][from..to] == a[from..to] && b[..n][from..to] == b[from..to];
  }

  lemma ConsumerStays(s: System, s': System)
    requires ChildConsumer(s) && TracerGrows(s, s')
    ensures ChildConsumer(s')
  {
    match s.consumer
    case Copying(t, _, _, _, out) => SliceStays(s.stream, s'.stream, Committed(s), t, t + |out|);
    case CopyDone(t, _, out) => SliceStays(s.stream, s'.stream, Committed(s), t, t + |out|);
    case Storing(newTail, _) => SliceStays(s.stream, s'.stream, Committed(s), s.tail, newTail);
    case _ =>
  }

  lemma DeliveredStays(s: System, s': System, fork: Event)
    requires ChildDelivered(s, fork) && TracerGrows(s, s')
    ensures ChildDelivered(s', fork)
  {
    if s.tail > 1 { SliceStays(s.stream, s'.stream, Committed(s), 1, s.tail); }
  }

  lemma ChildTracer(s: System, fork: Event, step: TracerStep)
    requires ChildInv(s, fork) && TracerEnabled(s, step) && Fits(TracerNext(s, step))
    ensures ChildInv(TracerNext(s, step), fork)
  {
    var s' := TracerNext(s, step);
    ChildSlots(s, step);
    ChildStable(s, step);
    ConsumerStays(s, s');
    DeliveredStays(s, s', fork);
  }

  lemma ChildCopy(s: System, fork: Event)
    requires ChildInv(s, fork) && EngineEnabled(s, CopySlot)
    ensures ChildInv(EngineNext(s, CopySlot), fork)
  {
    var c := s.consumer;
    var p := c.t + |c.out|;
    if |c.out| < c.limit {
      assert s.slots[p % s.cap] == s.stream[p];
      assert s.stream[c.t..p + 1] == c.out + [s.stream[p]];
    }
  }

  lemma ChildStore(s: System, fork: Event)
    requires ChildInv(s, fork) && EngineEnabled(s, StoreTail)
    ensures ChildInv(EngineNext(s, StoreTail), fork)
  {
    var to := s.consumer.newTail;
    if s.tail > 1 { assert s.stream[1..s.tail] + s.stream[s.tail..to] == s.stream[1..to]; }
    assert s.delivered + s.consumer.batch == [fork] + (if to == 1 then [] else s.stream[1..to]);
  }

  /** The head is at most one behind the stream's end, so that no lap is seen. */
  lemma ChildLoads(s: System, fork: Event, step: EngineStep)
    requires ChildInv(s, fork) && EngineEnabled(s, step) && (step.LoadHead? || step.ReloadHead?)
    ensures ChildInv(EngineNext(s, step), fork)
  {
    assert SatSub(s.head, s.tail) <= s.cap;
  }

  lemma ChildEngine(s: System, fork: Event, step: EngineStep)
    requires ChildInv(s, fork) && EngineEnabled(s, step)
    ensures ChildInv(EngineNext(s, step), fork)
  {
    match step
    case CopySlot => ChildCopy(s, fork);
    case StoreTail => ChildStore(s, fork);
    case LoadHead => ChildLoads(s, fork, step);
    case ReloadHead => ChildLoads(s, fork, step);
    case _ =>
  }

  lemma {:induction false} ChildRun(s: System, fork: Event, steps: seq<Step>)
    requires ChildInv(s, fork) && Legal(s, steps) && AllFit(s, steps)
    ensures ChildInv(Run(s, steps), fork)
    decreases |steps|
  {
    if steps != [] {
      var next := Next(s, steps[0]);
      assert Fits(next);
      match steps[0] {
        case Tracer(t) => ChildTracer(s, fork, t);
        case Engine(e) => ChildEngine(s, fork, e);
      }
      ChildRun(next, fork, steps[1..]);
    }
  }

  /** Once the fork event is taken, position 0 stands behind the tail: in every further run that
      stays within the capacity, whatever the child writes first, a plain write, a compound one, a
      block entry or a snapshot, the engine gets the fork event and then the child's slots from
      position 1 on. The slot of position 0 is never delivered, and no loss is counted. */
  lemma ForkLosesFirstEvent(cap: nat, fork: Event, steps: seq<Step>)
    requires cap > 0 && Legal(ForkTaken(cap, fork), steps) && AllFit(ForkTaken(cap, fork), steps)
    ensures var e := Run(ForkTaken(cap, fork), steps);
            && e.tail >= 1 && e.lapped == 0
            && (if e.tail == 1 then e.delivered == [fork]
                else e.tail <= |e.stream| && e.delivered == [fork] + e.stream[1..e.tail])
  {
    assert ChildInv(ForkTaken(cap, fork), fork);
    ChildRun(ForkTaken(cap, fork), fork, steps);
  }

  /** A clean call that comes first takes the head back to 0, behind the tail: a single-slot event is
      refused although the ring is empty, a longer run goes through if it fits, with its header in
      position 0. */
  lemma ForkRefusesPush(cap: nat, fork: Event, run: seq<Event>)
    requires cap > 0 && IsRun(run)
    ensures var s := ForkTaken(cap, fork);
            && TracerEnabled(s, Flush(true)) && TracerEnabled(TracerNext(s, Flush(true)), Mirror)
    ensures var called := TracerNext(TracerNext(ForkTaken(cap, fork), Flush(true)), Mirror);
            && called.head == 0 && called.stream == [] && TracerEnabled(called, PushStart(run))
            && TracerNext(called, PushStart(run))
               == if |run| == 1 || |run| > cap + 1 then called else called.(producer := Pushing(run, 0))
  {
  }

  // ----- overruns the published head does not show -----

  /** Single-slot writes, one after the other. */
  function Writes(events: seq<Event>, k: nat): seq<Step>
    requires k <= |events|
  {
    if k == 0 then [] else Writes(events, k - 1) + ([Tracer(PreWrite(events[k - 1]))] + ([Tracer(PostWrite)] + []))
  }

  /** The ring after the first k of them, from empty. */
  function Written(cap: nat, events: seq<Event>, k: nat): System
    requires k <= |events| == cap
  {
    Init(cap).(slots := events[..k] + Init(cap).slots[k..], stream := events[..k], cached := k,
               head := k / FLUSH_PERIOD * FLUSH_PERIOD)
  }

  predicate PlainWrites(events: seq<Event>) {
    forall i :: 0 <= i < |events| ==> events[i].Kind() == KIND_WRITE && events[i].RunLength() == 1
  }

  lemma OneMoreWritten(cap: nat, events: seq<Event>, k: nat)
    requires k < |events| == cap && PlainWrites(events)
    ensures var two := [Tracer(PreWrite(events[k]))] + ([Tracer(PostWrite)] + []);
            Legal(Written(cap, events, k), two) && Run(Written(cap, events, k), two) == Written(cap, events, k + 1)
  {
    var s := Written(cap, events, k);
    ModUnique(k, cap, 0, k);
    var slots := s.slots[k := events[k]];
    assert slots == events[..k + 1] + Init(cap).slots[k + 1..];
    assert s.stream + [events[k]] == events[..k + 1];
    var s1 := s.(slots := slots, stream := events[..k + 1], producer := InFlight(1));
    assert TracerNext(s, PreWrite(events[k])) == s1;
    FlushMark(k);
    assert TracerNext(s1, PostWrite) == Written(cap, events, k + 1);
    RunCons(s1, Tracer(PostWrite), []);
    RunCons(s, Tracer(PreWrite(events[k])), [Tracer(PostWrite)] + []);
  }

  lemma FlushMark(k: nat)
    ensures (k + 1) / FLUSH_PERIOD * FLUSH_PERIOD
         == if (k + 1) % FLUSH_PERIOD == 0 then k + 1 else k / FLUSH_PERIOD * FLUSH_PERIOD
  {
  }

  lemma {:induction false} WritesRun(cap: nat, events: seq<Event>, k: nat)
    requires k <= |events| == cap && PlainWrites(events) && cap > 0
    ensures Legal(Init(cap), Writes(events, k)) && Run(Init(cap), Writes(events, k)) == Written(cap, events, k)
  {
    if k == 0 {
      assert events[..0] + Init(cap).slots[0..] == Init(cap).slots;
    } else {
      WritesRun(cap, events, k - 1);
      OneMoreWritten(cap, events, k - 1);
      RunAppend(Init(cap), Writes(events, k - 1), [Tracer(PreWrite(events[k - 1]))] + ([Tracer(PostWrite)] + []));
    }
  }

  /** The full ring, flushed. */
  function Full(events: seq<Event>): System {
    Init(|events|).(slots := events, stream := events, cached := |events|, head := |events|)
  }

  /** The same once the engine has loaded the head for a batch of one and the next write has begun. */
  function Overrun(events: seq<Event>, ev: Event): System
    requires events != []
  {
    Full(events).(slots := events[0 := ev], stream := events + [ev], producer := InFlight(1),
                  consumer := Copying(0, |events|, 1, 0, []))
  }

  function MiddleSteps(ev: Event, rest: seq<Step>): seq<Step> {
    [Tracer(Flush(false))] + ([Tracer(Mirror)] + ([Engine(ConsumeStart(1))] + ([Engine(LoadHead)]
      + ([Tracer(PreWrite(ev))] + rest))))
  }

  function EndSteps(): seq<Step> {
    [Engine(CopySlot)] + ([Engine(CopySlot)] + ([Engine(ReloadHead)] + ([Engine(StoreTail)] + [])))
  }

  lemma OverrunMiddle(events: seq<Event>, ev: Event, rest: seq<Step>)
    requires events != [] && ev.Kind() == KIND_WRITE && ev.RunLength() == 1 && Legal(Overrun(events, ev), rest)
    ensures var s := Written(|events|, events, |events|);
            Legal(s, MiddleSteps(ev, rest)) && Run(s, MiddleSteps(ev, rest)) == Run(Overrun(events, ev), rest)
  {
    var cap := |events|;
    var s := Written(cap, events, cap);
    assert events[..cap] + Init(cap).slots[cap..] == events;
    var s1 := Full(events).(producer := Mirroring(false));
    assert TracerNext(s, Flush(false)) == s1;
    var s2 := Full(events);
    assert TracerNext(s1, Mirror) == s2;
    var s3 := s2.(consumer := TailLoaded(0, 1));
    assert EngineNext(s2, ConsumeStart(1)) == s3;
    var s4 := s2.(consumer := Copying(0, cap, 1, 0, []));
    assert EngineNext(s3, LoadHead) == s4;
    ModUnique(cap, cap, 1, 0);
    assert TracerNext(s4, PreWrite(ev)) == Overrun(events, ev);
    RunCons(s4, Tracer(PreWrite(ev)), rest);
    RunCons(s3, Engine(LoadHead), [Tracer(PreWrite(ev))] + rest);
    RunCons(s2, Engine(ConsumeStart(1)), [Engine(LoadHead)] + ([Tracer(PreWrite(ev))] + rest));
    RunCons(s1, Tracer(Mirror), [Engine(ConsumeStart(1))] + ([Engine(LoadHead)] + ([Tracer(PreWrite(ev))] + rest)));
    RunCons(s, Tracer(Flush(false)),
            [Tracer(Mirror)] + ([Engine(ConsumeStart(1))] + ([Engine(LoadHead)] + ([Tracer(PreWrite(ev))] + rest))));
  }

  lemma OverrunEnd(events: seq<Event>, ev: Event)
    requires events != [] && ev.Kind() == KIND_WRITE && ev.RunLength() == 1
    ensures Legal(Overrun(events, ev), EndSteps())
    ensures Run(Overrun(events, ev), EndSteps())
         == Overrun(events, ev).(tail := 1, delivered := [ev], consumer := Resting)
  {
    var s, cap := Overrun(events, ev), |events|;
    ModUnique(0, cap, 0, 0);
    SingleTaken(ev);
    var s1 := s.(consumer := Copying(0, cap, 1, 0, [ev]));
    var s2 := s.(consumer := CopyDone(0, cap, [ev]));
    var s3 := s.(consumer := Storing(1, [ev]));
    assert s.slots[0] == ev && [] + [ev] == [ev];
    assert EngineNext(s, CopySlot) == s1;
    assert EngineNext(s1, CopySlot) == s2;
    assert EngineNext(s2, ReloadHead) == s3;
    RunCons(s3, Engine(StoreTail), []);
    RunCons(s2, Engine(ReloadHead), [Engine(StoreTail)] + []);
    RunCons(s1, Engine(CopySlot), [Engine(ReloadHead)] + ([Engine(StoreTail)] + []));
    RunCons(s, Engine(CopySlot), [Engine(CopySlot)] + ([Engine(ReloadHead)] + ([Engine(StoreTail)] + [])));
  }

  /** The published head alone does not show an overrun: in a ring of any capacity, filled to the
      last slot with plain writes, one more write that is still unpublished replaces the oldest
      event; the engine delivers it in the oldest event's place and counts no lap. */
  lemma UndetectedOverrun(events: seq<Event>, ev: Event) returns (steps: seq<Step>)
    requires events != [] && PlainWrites(events) && ev.Kind() == KIND_WRITE && ev.RunLength() == 1
    ensures Legal(Init(|events|), steps)
    ensures var e := Run(Init(|events|), steps);
            e.stream == events + [ev] && e.head == |events| && e.delivered == [ev] && e.tail == 1 && e.lapped == 0
  {
    var cap := |events|;
    OverrunEnd(events, ev);
    OverrunMiddle(events, ev, EndSteps());
    WritesRun(cap, events, cap);
    steps := Writes(events, cap) + MiddleSteps(ev, EndSteps());
    RunAppend(Init(cap), Writes(events, cap), MiddleSteps(ev, EndSteps()));
  }
}
