/** What the interleaved transport guarantees over whole runs: exact delivery, conservation, run
    boundaries, one ordered stream, and lap safety. */
module Delivery {
  import opened Events
  import opened Modular
  import opened ThreadRings
  import opened Transport

  // ----- runs -----

  ghost predicate Legal(s: System, steps: seq<Step>)
    decreases |steps|
  {
    steps == [] || (Enabled(s, steps[0]) && Legal(Next(s, steps[0]), steps[1..]))
  }

  ghost function Run(s: System, steps: seq<Step>): System
    requires Legal(s, steps)
    decreases |steps|
  {
    if steps == [] then s else Run(Next(s, steps[0]), steps[1..])
  }

  lemma InitInv(cap: nat)
    requires cap > 0
    ensures Inv(Init(cap)) && Lossless(Init(cap))
  {
  }

  lemma {:induction false} InvRun(s: System, steps: seq<Step>)
    requires Inv(s) && Legal(s, steps)
    ensures Inv(Run(s, steps))
    decreases |steps|
  {
    if steps != [] {
      InvStep(s, steps[0]);
      InvRun(Next(s, steps[0]), steps[1..]);
    }
  }

  lemma RunCons(s: System, a: Step, rest: seq<Step>)
    requires Enabled(s, a) && Legal(Next(s, a), rest)
    ensures Legal(s, [a] + rest) && Run(s, [a] + rest) == Run(Next(s, a), rest)
  {
    assert ([a] + rest)[1..] == rest;
  }

  lemma {:induction false} RunAppend(s: System, a: seq<Step>, b: seq<Step>)
    requires Legal(s, a) && Legal(Run(s, a), b)
    ensures Legal(s, a + b) && Run(s, a + b) == Run(Run(s, a), b)
    decreases |a|
  {
    if a == [] {
      assert a + b == b;
    } else {
      var rest := a[1..] + b;
      assert a + b == [a[0]] + rest;
      RunAppend(Next(s, a[0]), a[1..], b);
      RunCons(s, a[0], rest);
    }
  }

  /** Every interleaving from an empty ring, laps included: the tail, once stored, is the events
      delivered plus the events counted as lost, and it never passes the head. */
  lemma ConservedInEveryRun(cap: nat, steps: seq<Step>)
    requires cap > 0 && Legal(Init(cap), steps)
    ensures var e := Run(Init(cap), steps);
            && e.tail <= e.head <= |e.stream|
            && (e.consumer.Resting? ==> e.tail == |e.delivered| + e.lapped)
  {
    InitInv(cap);
    InvRun(Init(cap), steps);
  }

  // ----- exact delivery -----

  /** No write has run a whole ring ahead of the tail. */
  predicate Fits(s: System) { |s.stream| <= s.tail + s.cap }

  /** The consumer's copy in progress is exactly the stream from the tail on, run by run. */
  ghost predicate Pending(stream: seq<Event>, tail: nat, consumer: Consumer) {
    match consumer
    case Resting | Gauging(_) => true
    case TailLoaded(t, _) => t == tail
    case Copying(t, h, limit, runTail, out) =>
      && t == tail && h <= |stream|
      && t + |out| <= |stream| && out == stream[t..t + |out|]
      && OnRun(stream, t, h, limit, |out|, runTail)
    case CopyDone(t, _, out) =>
      && t == tail
      && t + |out| <= |stream| && out == stream[t..t + |out|]
      && IsBoundary(stream, t, t + |out|)
    case Storing(newTail, batch) =>
      && newTail == tail + |batch| <= |stream|
      && batch == stream[tail..newTail]
      && IsBoundary(stream, tail, newTail)
  }

  /** Delivered so far is exactly the stream up to the tail, on run boundaries, nothing lost. */
  ghost predicate Lossless(s: System) {
    && Fits(s)
    && s.lapped == 0
    && s.tail <= |s.stream| && s.delivered == s.stream[..s.tail]
    && IsBoundary(s.stream, 0, s.tail)
    && Pending(s.stream, s.tail, s.consumer)
  }

  /** How far into the stream the consumer's current call has looked. */
  function Seen(s: System): nat {
    match s.consumer
    case Copying(_, h, _, _, _) => h
    case CopyDone(_, h, _) => h
    case Storing(newTail, _) => newTail
    case _ => s.tail
  }

  lemma PendingStable(a: seq<Event>, b: seq<Event>, tail: nat, consumer: Consumer, seen: nat)
    requires Pending(a, tail, consumer) && tail <= seen <= |a| && seen <= |b|
    requires forall i :: 0 <= i < seen ==> b[i] == a[i]
    requires consumer.Copying? ==> consumer.h == seen && consumer.t + |consumer.out| <= seen
    requires consumer.CopyDone? ==> consumer.t + |consumer.out| <= seen
    requires consumer.Storing? ==> consumer.newTail <= seen
    ensures Pending(b, tail, consumer)
  {
    match consumer
    case Copying(t, h, limit, runTail, out) =>
      OnRunStable(a, b, t, h, limit, |out|, runTail);
      assert a[t..t + |out|] == b[t..t + |out|];
    case CopyDone(t, _, out) =>
      BoundaryAgree(a, b, t, t + |out|);
      assert a[t..t + |out|] == b[t..t + |out|];
    case Storing(newTail, batch) =>
      BoundaryAgree(a, b, tail, newTail);
      assert a[tail..newTail] == b[tail..newTail];
    case _ =>
  }

  lemma OnRunStable(s: seq<Event>, s': seq<Event>, t: nat, h: nat, limit: nat, n: nat, runTail: nat)
    requires OnRun(s, t, h, limit, n, runTail)
    requires h <= |s| && h <= |s'| && forall i :: 0 <= i < h ==> s'[i] == s[i]
    ensures OnRun(s', t, h, limit, n, runTail)
  {
    BoundaryOrder(s, t + n + runTail, h);
    BoundaryAgree(s, s', t, t + n + runTail);
    BoundaryAgree(s, s', t + n + runTail, h);
  }

  lemma LosslessTracer(s: System, step: TracerStep)
    requires Inv(s) && Lossless(s) && TracerEnabled(s, step)
    requires Fits(TracerNext(s, step))
    ensures Lossless(TracerNext(s, step))
  {
    var s' := TracerNext(s, step);
    TracerStable(s, step);
    assert s.stream[..s.tail] == s'.stream[..s.tail];
    BoundaryAgree(s.stream, s'.stream, 0, s.tail);
    PendingStable(s.stream, s'.stream, s.tail, s.consumer, Seen(s));
  }

  /** One more slot of a copy in progress, read exactly. */
  lemma PendingCopy(stream: seq<Event>, tail: nat, c: Consumer)
    requires c.Copying? && Pending(stream, tail, c) && |c.out| < c.limit && c.h <= |stream|
    ensures c.t + |c.out| < |stream|
    ensures Pending(stream, tail, CopyNext(c, stream[c.t + |c.out|]))
  {
    var n, p := |c.out|, c.t + |c.out|;
    DecideKeepsRuns(stream, c.t, c.h, c.limit, n, c.runTail);
    assert stream[c.t..p + 1] == stream[c.t..p] + [stream[p]];
  }

  /** A full batch stands between two runs. */
  lemma PendingFull(stream: seq<Event>, tail: nat, c: Consumer)
    requires c.Copying? && Pending(stream, tail, c) && |c.out| == c.limit
    ensures Pending(stream, tail, CopyDone(c.t, c.h, c.out))
  {
    assert c.runTail == 0;
  }

  lemma LosslessCopy(s: System)
    requires Inv(s) && Lossless(s) && EngineEnabled(s, CopySlot)
    ensures Lossless(EngineNext(s, CopySlot))
  {
    var c := s.consumer;
    var p := c.t + |c.out|;
    if |c.out| < c.limit {
      CopiedExactly(s, p);
      PendingCopy(s.stream, s.tail, c);
      assert EngineNext(s, CopySlot) == s.(consumer := CopyNext(c, s.stream[p]));
    } else {
      PendingFull(s.stream, s.tail, c);
      assert EngineNext(s, CopySlot) == s.(consumer := CopyDone(c.t, c.h, c.out));
    }
  }

  lemma CopiedExactly(s: System, p: nat)
    requires SlotsHold(s) && Fits(s) && s.tail <= p < |s.stream|
    ensures s.slots[p % s.cap] == s.stream[p]
  {
  }

  lemma LosslessStore(s: System)
    requires Inv(s) && Lossless(s) && EngineEnabled(s, StoreTail)
    ensures Lossless(EngineNext(s, StoreTail))
  {
    var c := s.consumer;
    assert s.stream[..c.newTail] == s.stream[..s.tail] + s.stream[s.tail..c.newTail];
    BoundaryTrans(s.stream, 0, s.tail, c.newTail);
  }

  lemma LosslessLoad(s: System)
    requires Inv(s) && Lossless(s) && EngineEnabled(s, LoadHead)
    ensures Lossless(EngineNext(s, LoadHead))
  {
    BoundaryBetween(s.stream, 0, s.tail, s.head);
    assert IsBoundary(s.stream, s.tail, s.tail);
  }

  lemma LosslessReload(s: System)
    requires Inv(s) && Lossless(s) && EngineEnabled(s, ReloadHead)
    ensures Lossless(EngineNext(s, ReloadHead))
  {
  }

  /** As long as no write runs a whole ring ahead of the tail, every step keeps delivery exact. */
  lemma LosslessStep(s: System, step: Step)
    requires Inv(s) && Lossless(s) && Enabled(s, step) && Fits(Next(s, step))
    ensures Lossless(Next(s, step))
  {
    match step
    case Tracer(t) => LosslessTracer(s, t);
    case Engine(CopySlot) => LosslessCopy(s);
    case Engine(LoadHead) => LosslessLoad(s);
    case Engine(StoreTail) => LosslessStore(s);
    case Engine(ReloadHead) => LosslessReload(s);
    case Engine(_) =>
  }

  ghost predicate AllFit(s: System, steps: seq<Step>)
    requires Legal(s, steps)
    decreases |steps|
  {
    Fits(s) && (steps != [] ==> AllFit(Next(s, steps[0]), steps[1..]))
  }

  lemma {:induction false} LosslessRun(s: System, steps: seq<Step>)
    requires Inv(s) && Lossless(s) && Legal(s, steps) && AllFit(s, steps)
    ensures Lossless(Run(s, steps))
    decreases |steps|
  {
    if steps != [] {
      var s' := Next(s, steps[0]);
      assert Fits(s');
      LosslessStep(s, steps[0]);
      InvStep(s, steps[0]);
      LosslessRun(s', steps[1..]);
    }
  }

  /** Steps of the unchecked inline path that write a new slot. */
  predicate WritesUnchecked(step: Step) {
    step.Tracer? && (step.tracer.PreWrite? || step.tracer.FillContinuation?)
  }

  /** Every other step keeps the ring from overrunning: pushes check, the rest write nothing new. */
  lemma CheckedStepFits(s: System, step: Step)
    requires Inv(s) && Fits(s) && Enabled(s, step) && !WritesUnchecked(step)
    ensures Fits(Next(s, step))
  {
  }

  lemma {:induction false} CheckedRunFits(s: System, steps: seq<Step>)
    requires Inv(s) && Fits(s) && Legal(s, steps)
    requires forall i :: 0 <= i < |steps| ==> !WritesUnchecked(steps[i])
    ensures AllFit(s, steps)
    decreases |steps|
  {
    if steps != [] {
      CheckedStepFits(s, steps[0]);
      InvStep(s, steps[0]);
      CheckedRunFits(Next(s, steps[0]), steps[1..]);
    }
  }

  /** Exact delivery for the capacity-checked producer, in every interleaving with the consumer:
      delivered is pushed[0..tail], the fill never exceeds the capacity, no lap is counted, and
      the tail only ever stands between two runs. */
  lemma CheckedDelivery(cap: nat, steps: seq<Step>)
    requires cap > 0 && Legal(Init(cap), steps)
    requires forall i :: 0 <= i < |steps| ==> !WritesUnchecked(steps[i])
    ensures var e := Run(Init(cap), steps);
            && e.tail <= e.head <= |e.stream| <= e.tail + cap
            && e.delivered == e.stream[..e.tail]
            && e.lapped == 0
            && IsBoundary(e.stream, 0, e.tail)
            && IsBoundary(e.stream, 0, e.head)
  {
    InitInv(cap);
    CheckedRunFits(Init(cap), steps);
    LosslessRun(Init(cap), steps);
    InvRun(Init(cap), steps);
    CapStable(Init(cap), steps);
  }

  /** The same with inline writes mixed in, on any run whose writes stay within the capacity. */
  lemma MixedDelivery(cap: nat, steps: seq<Step>)
    requires cap > 0 && Legal(Init(cap), steps) && AllFit(Init(cap), steps)
    ensures var e := Run(Init(cap), steps);
            && e.tail <= |e.stream| && e.delivered == e.stream[..e.tail]
            && e.lapped == 0
            && IsBoundary(e.stream, 0, e.tail)
  {
    InitInv(cap);
    LosslessRun(Init(cap), steps);
  }

  lemma {:induction false} CapStable(s: System, steps: seq<Step>)
    requires Legal(s, steps)
    ensures Run(s, steps).cap == s.cap
    decreases |steps|
  {
    if steps != [] { CapStable(Next(s, steps[0]), steps[1..]); }
  }

  // ----- the one ordered stream -----

  /** Outside a clean call the published head is at most the cached head, the stream ends at the
      cached head (plus the slots of a write in flight), and every index that has not been
      overwritten a lap later is found in its slot: both producer paths write one stream. */
  lemma OneOrderedStream(cap: nat, steps: seq<Step>)
    requires cap > 0 && Legal(Init(cap), steps)
    ensures var e := Run(Init(cap), steps);
            && (e.producer.Idle? ==> e.head <= e.cached == |e.stream|)
            && (e.producer.InFlight? ==> e.head <= e.cached && |e.stream| == e.cached + e.producer.filled)
            && (e.producer.InCall? ==> e.cached <= e.head == |e.stream|)
            && IsBoundary(e.stream, 0, e.head)
            && |e.slots| == cap
            && (forall i :: 0 <= i < |e.stream| && |e.stream| <= i + cap
                  ==> e.slots[i % cap] == e.stream[i])
  {
    InitInv(cap);
    InvRun(Init(cap), steps);
    CapStable(Init(cap), steps);
  }

  // ----- laps -----

  /** The last index before `written` that shares slot `p mod cap`. */
  function Newest(p: nat, written: nat, cap: nat): (r: nat)
    requires cap > 0 && p < written
    ensures p <= r < written <= r + cap
    ensures r == p <==> written <= p + cap
    decreases written - p
  {
    if written <= p + cap then p else Newest(p + cap, written, cap)
  }

  lemma {:induction false} NewestSameSlot(p: nat, written: nat, cap: nat)
    requires cap > 0 && p < written
    ensures Newest(p, written, cap) % cap == p % cap
    decreases written - p
  {
    if written > p + cap {
      NewestSameSlot(p + cap, written, cap);
      assert (p + cap) % cap == p % cap by { AddMod(p, cap); }
    }
  }

  /** What a copy of position p really returns: the newest event written to that slot. It is the
      event of index p exactly when no write has run a full ring past p. */
  lemma CopyReadsNewest(s: System, p: nat)
    requires Inv(s) && p < |s.stream|
    ensures s.slots[p % s.cap] == s.stream[Newest(p, |s.stream|, s.cap)]
    ensures Newest(p, |s.stream|, s.cap) == p <==> |s.stream| <= p + s.cap
  {
    NewestSameSlot(p, |s.stream|, s.cap);
  }

  /** Lap safety against the unchecked producer: if private slot writes run at most `lag` ahead of
      the published head, a batch whose re-read head leaves `lag` slots of room is exact, whatever
      was written during the copy. */
  lemma LapSafety(s: System, lag: nat)
    requires Inv(s) && EngineEnabled(s, ReloadHead)
    requires |s.stream| <= s.head + lag
    requires s.head + lag <= s.consumer.t + s.cap
    ensures var t, n := s.consumer.t, |s.consumer.out|;
            && t + n <= |s.stream|
            && EngineNext(s, ReloadHead).consumer == Storing(t + n, s.stream[t..t + n])
            && EngineNext(s, ReloadHead).lapped == s.lapped
  {
    var c := s.consumer;
    assert c.out == s.stream[c.t..c.t + |c.out|];
  }
}
