/** Backpressure and publication lag: what the tier guarantees, and how far the private cached
    head can run ahead of the published one. */
module Shedding {
  import opened Events
  import opened Modular
  import opened ThreadRings
  import opened Transport
  import opened Delivery

  // ----- hysteresis -----

  /** The tier rule in terms of the fill itself. */
  lemma TierRule(cap: nat, h: nat, t: nat, tier: nat)
    requires cap > 0 && t <= h && tier <= 2
    ensures var fill, now := 8 * (h - t), NewTier(cap, h, t, tier);
            && now <= 2
            && (fill >= 7 * cap ==> now == 2)
            && (6 * cap <= fill < 7 * cap ==> now == 1)
            && (3 * cap <= fill < 6 * cap ==> now == tier)
            && (fill < 3 * cap ==> now == 0)
  {
    Eighths(8 * (h - t), cap, 7);
    Eighths(8 * (h - t), cap, 6);
    Eighths(8 * (h - t), cap, 3);
  }

  lemma Eighths(x: nat, cap: nat, k: nat)
    requires cap > 0
    ensures x / cap >= k <==> x >= k * cap
  {
    var q, r := x / cap, x % cap;
    assert x == cap * q + r;
    if q >= k {
      assert cap * q == cap * k + cap * (q - k);
      assert cap * (q - k) >= 0;
    } else {
      assert cap * k == cap * q + cap * (k - q);
      MulAtLeast(cap, k - q);
    }
  }

  /** One step: the shared tier leaves 0 only when the gauged fill is at least 6/8 and returns to 0
      only when it is below 3/8; no other step touches it. */
  lemma TierChanges(s: System, step: Step)
    requires Inv(s) && s.tier <= 2 && Enabled(s, step) && Next(s, step).tier != s.tier
    ensures step == Engine(StoreTier) && Next(s, step).tier <= 2
    ensures s.tier == 0 ==> 8 * SatSub(s.consumer.h, s.tail) >= 6 * s.cap
    ensures Next(s, step).tier == 0 ==> 8 * SatSub(s.consumer.h, s.tail) < 3 * s.cap
  {
    if step.Tracer? { TracerStable(s, step.tracer); }
    if s.tail <= s.consumer.h {
      TierRule(s.cap, s.consumer.h, s.tail, s.tier);
    } else {
      Eighths(0, s.cap, 3);
      Eighths(0, s.cap, 6);
    }
  }

  lemma {:induction false} TierRange(s: System, steps: seq<Step>)
    requires Inv(s) && s.tier <= 2 && Legal(s, steps)
    ensures Run(s, steps).tier <= 2
    decreases |steps|
  {
    if steps != [] {
      InvStep(s, steps[0]);
      if Next(s, steps[0]).tier != s.tier { TierChanges(s, steps[0]); }
      TierRange(Next(s, steps[0]), steps[1..]);
    }
  }

  /** In every interleaving from an empty ring the tier is 0, 1 or 2, and whatever step comes next:
      it leaves 0 only at a gauged fill of 6/8 or more and returns to 0 only below 3/8. */
  lemma TierChangesInEveryRun(cap: nat, steps: seq<Step>, step: Step)
    requires cap > 0 && Legal(Init(cap), steps) && Enabled(Run(Init(cap), steps), step)
    ensures var s := Run(Init(cap), steps);
            var s' := Next(s, step);
            && s.tier <= 2 && s'.tier <= 2
            && (s'.tier != s.tier ==> step == Engine(StoreTier))
            && (s.tier == 0 && s'.tier != 0 ==> 8 * SatSub(s.consumer.h, s.tail) >= 6 * cap)
            && (s.tier != 0 && s'.tier == 0 ==> 8 * SatSub(s.consumer.h, s.tail) < 3 * cap)
  {
    InitInv(cap);
    InvRun(Init(cap), steps);
    TierRange(Init(cap), steps);
    CapStable(Init(cap), steps);
    var s := Run(Init(cap), steps);
    if Next(s, step).tier != s.tier { TierChanges(s, step); }
  }

  /** A system call publishes the cached head but does not look at the tier: the mirror is current
      afterwards exactly when it was before, while a flush makes it current. */
  lemma SyscallKeepsMirror(s: System)
    requires Inv(s) && s.producer.Idle?
    ensures TracerEnabled(s, PreSyscall) && TracerEnabled(TracerNext(s, PreSyscall), EndCall)
    ensures var e := TracerNext(TracerNext(s, PreSyscall), EndCall);
            e.producer.Idle? && e.head == e.cached == s.cached && (e.mirror == e.tier <==> s.mirror == s.tier)
    ensures TracerEnabled(s, Flush(false)) && TracerEnabled(TracerNext(s, Flush(false)), Mirror)
    ensures TracerNext(TracerNext(s, Flush(false)), Mirror).mirror == s.tier
  {
  }

  /** Between two events the inline path emits a block entry (kind 11) only while the mirrored tier
      is 0, and a write (kind 0) only while it is 0 or 1. */
  lemma ShedExactly(s: System, header: Event)
    requires Shape(s) && s.producer.Idle?
    ensures TracerEnabled(s, PreWrite(header))
            <==> header.RunLength() > 0 && ((header.kindFlags % 256 == 11 && s.mirror == 0)
                                            || (header.kindFlags % 256 == 0 && s.mirror <= 1))
  {
  }

  // ----- shedding inline writes bounds the ring -----

  /** With the mirrored tier at 2 and no inline write in flight, a ring that is not overfull stays
      so, and no inline write can start. */
  lemma ShedStepBounded(s: System, step: Step)
    requires Inv(s) && Enabled(s, step)
    requires s.mirror >= 2 && s.head <= s.tail + s.cap
    ensures Next(s, step).head <= Next(s, step).tail + s.cap
    ensures !Next(s, step).producer.InFlight?
  {
    if step.Engine? { EngineStable(s, step.engine); }
  }

  lemma KeepsCap(s: System, step: Step)
    requires Enabled(s, step)
    ensures Next(s, step).cap == s.cap
  {
  }

  ghost predicate MirrorHigh(s: System, steps: seq<Step>)
    requires Legal(s, steps)
    decreases |steps|
  {
    s.mirror >= 2 && (steps != [] ==> MirrorHigh(Next(s, steps[0]), steps[1..]))
  }

  lemma {:induction false} ShedRunBounded(s: System, steps: seq<Step>)
    requires Inv(s) && Legal(s, steps) && MirrorHigh(s, steps)
    requires s.head <= s.tail + s.cap
    ensures Run(s, steps).head <= Run(s, steps).tail + s.cap
    ensures !Run(s, steps).producer.InFlight?
    decreases |steps|
  {
    if steps != [] {
      ShedStepBounded(s, steps[0]);
      KeepsCap(s, steps[0]);
      InvStep(s, steps[0]);
      ShedRunBounded(Next(s, steps[0]), steps[1..]);
    }
  }

  // ----- publication lag -----

  /** The cached head is ahead of the published one by no more than it is past a multiple of 64. */
  ghost predicate LagBound(s: System) {
    s.producer.Idle? || s.producer.InFlight? ==> s.head <= s.cached <= s.head + s.cached % 64
  }

  /** A post-write that carries the cached head past a multiple of 64 without stopping on it. */
  predicate Crosses(s: System, step: Step) {
    step == Tracer(PostWrite) && s.producer.InFlight? && s.cached % 64 + s.producer.filled > 64
  }

  /** One post-write of at most a whole period: the bound survives exactly when the write does not
      cross a multiple of 64. */
  lemma PostWriteLag(s: System)
    requires s.producer.InFlight? && 0 < s.producer.filled <= 64 && TracerEnabled(s, PostWrite)
    requires LagBound(s)
    ensures LagBound(TracerNext(s, PostWrite)) <==> s.cached % 64 + s.producer.filled <= 64
    ensures var e := TracerNext(s, PostWrite);
            && (e.cached - e.head <= 63 <==> e.head == e.cached || s.cached - s.head + s.producer.filled <= 63)
            && e.cached == s.cached + s.producer.filled && e.head == (if e.cached % 64 == 0 then e.cached else s.head)
  {
    var m, f := s.cached % 64, s.producer.filled;
    assert (s.cached + f) % 64 == if m + f >= 64 then m + f - 64 else m + f;
  }

  /** Every step keeps the bound, except exactly the crossing ones. */
  lemma LagStep(s: System, step: Step)
    requires Inv(s) && LagBound(s) && Enabled(s, step)
    ensures LagBound(Next(s, step)) <==> !Crosses(s, step)
  {
    match step
    case Tracer(t) =>
      if t.PostWrite? {
        RunLengthBounds(s.stream[s.cached]);
        PostWriteLag(s);
      }
    case Engine(e) => EngineStable(s, e);
  }

  ghost predicate LagAlways(s: System, steps: seq<Step>)
    requires Legal(s, steps)
    decreases |steps|
  {
    LagBound(s) && (steps != [] ==> LagAlways(Next(s, steps[0]), steps[1..]))
  }

  ghost predicate NeverCrosses(s: System, steps: seq<Step>)
    requires Legal(s, steps)
    decreases |steps|
  {
    steps != [] ==> !Crosses(s, steps[0]) && NeverCrosses(Next(s, steps[0]), steps[1..])
  }

  /** Over any run: the bound holds throughout exactly when no write crosses a multiple of 64. */
  lemma {:induction false} LagExactly(s: System, steps: seq<Step>)
    requires Inv(s) && LagBound(s) && Legal(s, steps)
    ensures LagAlways(s, steps) <==> NeverCrosses(s, steps)
    decreases |steps|
  {
    if steps != [] {
      LagStep(s, steps[0]);
      InvStep(s, steps[0]);
      if !Crosses(s, steps[0]) { LagExactly(Next(s, steps[0]), steps[1..]); }
    }
  }

  /** Then at most 63 inline slots are unpublished between two writes, at any time. */
  lemma {:induction false} LagOfRun(s: System, steps: seq<Step>)
    requires Inv(s) && LagBound(s) && Legal(s, steps) && NeverCrosses(s, steps)
    ensures var e := Run(s, steps); LagBound(e) && (e.producer.Idle? ==> e.cached - e.head <= 63)
    decreases |steps|
  {
    if steps != [] {
      LagStep(s, steps[0]);
      InvStep(s, steps[0]);
      LagOfRun(Next(s, steps[0]), steps[1..]);
    }
  }

  predicate SingleSlot(step: Step) {
    step.Tracer? && step.tracer.PreWrite? ==> step.tracer.header.RunLength() == 1
  }

  ghost predicate NarrowInFlight(s: System) {
    s.producer.InFlight? ==> s.cached < |s.stream| && s.stream[s.cached].RunLength() == 1
  }

  /** Single-slot writes never cross one. */
  lemma {:induction false} SingleSlotNeverCrosses(s: System, steps: seq<Step>)
    requires Inv(s) && NarrowInFlight(s) && Legal(s, steps)
    requires forall i :: 0 <= i < |steps| ==> SingleSlot(steps[i])
    ensures NeverCrosses(s, steps)
    decreases |steps|
  {
    if steps != [] {
      assert SingleSlot(steps[0]);
      InvStep(s, steps[0]);
      NarrowStep(s, steps[0]);
      SingleSlotNeverCrosses(Next(s, steps[0]), steps[1..]);
    }
  }

  lemma NarrowStep(s: System, step: Step)
    requires Inv(s) && NarrowInFlight(s) && Enabled(s, step) && SingleSlot(step)
    ensures NarrowInFlight(Next(s, step)) && !Crosses(s, step)
  {
    if step.Engine? { EngineStable(s, step.engine); }
  }

  /** So while inline writes are single-slot, at most 63 inline slots are unpublished. */
  lemma SingleSlotLag(cap: nat, steps: seq<Step>)
    requires cap > 0 && Legal(Init(cap), steps) && forall i :: 0 <= i < |steps| ==> SingleSlot(steps[i])
    ensures var e := Run(Init(cap), steps); e.producer.Idle? ==> e.head <= e.cached <= e.head + 63
  {
    InitInv(cap);
    SingleSlotNeverCrosses(Init(cap), steps);
    LagOfRun(Init(cap), steps);
  }

  function Fills(chunk: Event, k: nat): (r: seq<Step>)
  {
    if k == 0 then [Tracer(PostWrite)] else [Tracer(FillContinuation(chunk))] + Fills(chunk, k - 1)
  }

  /** A compound write: header, one continuation for each further slot of its run, post-write. */
  function WideWrite(header: Event, chunk: Event): seq<Step>
    requires header.RunLength() > 0
  {
    [Tracer(PreWrite(header))] + Fills(chunk, header.RunLength() - 1)
  }

  function Repeat(w: seq<Step>, k: nat): seq<Step> {
    if k == 0 then [] else w + Repeat(w, k - 1)
  }

  /** Between two writes, the tier not shedding them, the cached head at 1 modulo 8. */
  predicate Ready(s: System) {
    s.producer.Idle? && s.cap > 0 && |s.slots| == s.cap && |s.stream| == s.cached && s.mirror < 2 && s.cached % 8 == 1
  }

  /** Inside a write of 64 bytes, with k continuations to come, the cached head at 1 modulo 8. */
  predicate Filling(s: System, k: nat) {
    && k <= 7 && s.cap > 0 && |s.slots| == s.cap && s.mirror < 2 && s.cached % 8 == 1
    && s.producer == InFlight(8 - k) && |s.stream| == s.cached + 8 - k && s.stream[s.cached].RunLength() == 8
  }

  lemma FillNext(s: System, chunk: Event, k: nat)
    requires Filling(s, k) && k > 0
    ensures TracerEnabled(s, FillContinuation(chunk))
    ensures var e := TracerNext(s, FillContinuation(chunk)); Filling(e, k - 1) && e.head == s.head && e.cached == s.cached
  {
  }

  lemma FillsEnd(s: System)
    requires Filling(s, 0)
    ensures TracerEnabled(s, PostWrite)
    ensures var e := TracerNext(s, PostWrite); Ready(e) && e.head == s.head && e.cached == s.cached + 8
  {
    assert (s.cached + 8) % 64 != 0;
  }

  lemma {:induction false} FillsRun(s: System, chunk: Event, k: nat)
    requires Filling(s, k)
    ensures Legal(s, Fills(chunk, k))
    ensures var e := Run(s, Fills(chunk, k)); Ready(e) && e.head == s.head && e.cached == s.cached + 8
    decreases k
  {
    if k == 0 {
      FillsEnd(s);
      RunCons(s, Tracer(PostWrite), []);
    } else {
      FillNext(s, chunk, k);
      FillsRun(TracerNext(s, FillContinuation(chunk)), chunk, k - 1);
      RunCons(s, Tracer(FillContinuation(chunk)), Fills(chunk, k - 1));
    }
  }

  /** The steps take such a state to another, eight slots on, and publish nothing. */
  ghost predicate StepsOver(s: System, w: seq<Step>) {
    && Legal(s, w)
    && var e := Run(s, w); Ready(e) && e.head == s.head && e.cached == s.cached + 8
  }

  lemma WideWriteStarts(s: System, header: Event)
    requires Ready(s) && header.Kind() == 0 && header.RunLength() == 8
    ensures TracerEnabled(s, PreWrite(header))
    ensures var e := TracerNext(s, PreWrite(header)); Filling(e, 7) && e.head == s.head && e.cached == s.cached
  {
  }

  lemma StepThenOver(s: System, step: Step, rest: seq<Step>)
    requires Enabled(s, step) && Legal(Next(s, step), rest)
    requires var e := Run(Next(s, step), rest); Ready(e) && e.head == s.head && e.cached == s.cached + 8
    ensures StepsOver(s, [step] + rest)
  {
    RunCons(s, step, rest);
  }

  /** One write of 64 bytes moves the cached head by eight and leaves the published head alone. */
  lemma WideWriteRun(s: System, header: Event, chunk: Event)
    requires Ready(s) && header.Kind() == 0 && header.RunLength() == 8
    ensures StepsOver(s, WideWrite(header, chunk))
  {
    WideWriteStarts(s, header);
    var more := header.RunLength() - 1;
    FillsRun(TracerNext(s, PreWrite(header)), chunk, more);
    StepThenOver(s, Tracer(PreWrite(header)), Fills(chunk, more));
  }

  lemma {:induction false} RepeatStepsOver(s: System, w: seq<Step>, k: nat)
    requires Ready(s) && forall t :: Ready(t) ==> StepsOver(t, w)
    ensures Legal(s, Repeat(w, k))
    ensures var e := Run(s, Repeat(w, k)); e.producer.Idle? && e.head == s.head && e.cached == s.cached + 8 * k
    decreases k
  {
    if k > 0 {
      assert StepsOver(s, w);
      RepeatStepsOver(Run(s, w), w, k - 1);
      RunAppend(s, w, Repeat(w, k - 1));
    }
  }

  /** Compound writes step over the flush condition: from a cached head of 1 modulo 8, any number
      of 64-byte writes publishes nothing, so the lag has no bound inside one basic block. */
  lemma {:induction false} WideWritesNeverPublish(s: System, header: Event, chunk: Event, k: nat)
    requires Ready(s) && header.Kind() == 0 && header.RunLength() == 8
    ensures Legal(s, Repeat(WideWrite(header, chunk), k))
    ensures var e := Run(s, Repeat(WideWrite(header, chunk), k));
            e.producer.Idle? && e.head == s.head && e.cached == s.cached + 8 * k
  {
    var w := WideWrite(header, chunk);
    forall t | Ready(t) ensures StepsOver(t, w) { WideWriteRun(t, header, chunk); }
    RepeatStepsOver(s, w, k);
  }
}
