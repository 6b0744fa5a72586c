/** The engine's side of one ring (`engine/src/ring.rs`): the batch copy that never splits a
    multi-slot run, lap detection before and after the copy, and the loss counter.
    The producer keeps running during a call, so the values the atomic loads and the volatile
    slot reads return are parameters: `h` and `h2` for the two loads of `head`, `slotAt(j)` for
    the j-th slot copied. */
module ThreadRings {
  import opened Events

  /** What one loop iteration does with the event it has just read. */
  datatype Decision = Stop | Take(runTail: nat)

  function Decide(limit: nat, n: nat, runTail: nat, ev: Event): (d: Decision) {
    if runTail > 0 then Take(runTail - 1)
    else if ev.Kind() == KIND_REG_SNAPSHOT then
      if n + REG_SNAPSHOT_SLOTS > limit then Stop else Take(REG_SNAPSHOT_SLOTS - 1)
    else if ev.IsCompound() then
      var slots := ev.CompoundSlots();
      // `(slots - 1) as u8` wraps to 255 on a (malformed) zero-sized compound header
      if n + slots > limit then Stop else Take(if slots == 0 then 255 else slots - 1)
    else Take(0)
  }

  /** Number of slots copied when the loop is entered with `n` slots done. */
  function CopyFrom(slotAt: nat -> Event, limit: nat, n: nat, runTail: nat): (r: nat)
    requires n <= limit
    ensures n <= r <= limit
    decreases limit - n
  {
    if n == limit then n
    else match Decide(limit, n, runTail, slotAt(n))
      case Stop => n
      case Take(rest) => CopyFrom(slotAt, limit, n + 1, rest)
  }

  function Min(a: nat, b: nat): nat { if a < b then a else b }

  function SatSub(a: nat, b: nat): nat { if a < b then 0 else a - b }

  /** Where a lap detected with head `h` moves tail position `t`. */
  function Resync(cap: nat, t: nat, h: nat): (r: nat)
    ensures t <= r
  {
    if SatSub(h, t) > cap then h - cap else t
  }

  /** Result of one call: slots delivered, tail stored, events counted as lost, laps seen. */
  datatype Outcome = Outcome(n: nat, tail: nat, lost: nat, laps: nat)

  function Laps(cap: nat, t: nat, h: nat): nat { if SatSub(h, t) > cap then 1 else 0 }

  function Consume(cap: nat, tail: nat, h: nat, slotAt: nat -> Event, h2: nat, outLen: nat): Outcome {
    var t := Resync(cap, tail, h);
    var limit := Min(SatSub(h, t), outLen);
    if limit == 0 then Outcome(0, tail, t - tail, Laps(cap, tail, h))
    else
      var t2 := Resync(cap, t, h2);
      var laps := Laps(cap, tail, h) + Laps(cap, t, h2);
      if SatSub(h2, t) > cap then Outcome(0, t2, t2 - tail, laps)
      else
        var n := CopyFrom(slotAt, limit, 0, 0);
        Outcome(n, t + n, t - tail, laps)
  }

  /** Conservation: the tail moves by exactly the events delivered plus the events counted as
      lost, even when one call laps at both checks. It fails for exactly one family of calls,
      a lap seen with an empty output buffer: the loss is counted but the tail not stored. */
  lemma ConservedExactly(cap: nat, tail: nat, h: nat, slotAt: nat -> Event, h2: nat, outLen: nat)
    requires cap > 0
    ensures var o := Consume(cap, tail, h, slotAt, h2, outLen);
            o.tail == tail + o.n + o.lost <==> !(outLen == 0 && h > tail + cap)
  {
  }

  /** The tail never moves backwards and never passes a head that was ahead of it. */
  lemma TailBetween(cap: nat, tail: nat, h: nat, slotAt: nat -> Event, h2: nat, outLen: nat)
    ensures var o := Consume(cap, tail, h, slotAt, h2, outLen);
            && tail <= o.tail
            && (tail <= h <= h2 ==> o.tail <= h2)
            && o.n <= outLen
  {
    var t := Resync(cap, tail, h);
    var limit := Min(SatSub(h, t), outLen);
    assert CopyFrom(slotAt, limit, 0, 0) <= limit;
  }

  /** The slot of position p has been used again by the time the head was here. */
  predicate Overwritten(p: nat, cap: nat, head: nat) { p + cap < head }

  /** Which events a call may lose. With room in the buffer, a position from the old tail on is
      counted as lost exactly when it is more than a ring behind the head loaded at one of the two
      checks, the second of which is made only if there was something to copy; so what is copied
      after a lap starts at the oldest position not yet overwritten. Each check that finds such
      positions counts one lap. */
  lemma LostExactly(cap: nat, tail: nat, h: nat, slotAt: nat -> Event, h2: nat, outLen: nat)
    requires cap > 0 && outLen > 0
    ensures var o := Consume(cap, tail, h, slotAt, h2, outLen);
            && o.tail == tail + o.lost + o.n
            && (forall p: nat :: tail <= p ==>
                  (p < tail + o.lost <==> Overwritten(p, cap, h) || (tail < h && Overwritten(p, cap, h2))))
            && o.laps == (if tail + cap < h then 1 else 0) + (if tail < h && tail + cap < h2 && h < h2 then 1 else 0)
  {
  }

  /** Totals over any sequence of calls. */
  datatype Call = Call(h: nat, slotAt: nat -> Event, h2: nat, outLen: nat)
  datatype Totals = Totals(tail: nat, delivered: nat, lapped: nat)

  function RunCalls(cap: nat, s: Totals, calls: seq<Call>): Totals
    decreases |calls|
  {
    if calls == [] then s
    else
      var c := calls[0];
      var o := Consume(cap, s.tail, c.h, c.slotAt, c.h2, c.outLen);
      RunCalls(cap, Totals(o.tail, s.delivered + o.n, s.lapped + o.lost), calls[1..])
  }

  /** Over every run with non-empty buffers, and whatever laps occur, the tail equals the
      events delivered plus `lapped_events`. */
  lemma {:induction false} ConservedOverRuns(cap: nat, s: Totals, calls: seq<Call>)
    requires cap > 0 && s.tail == s.delivered + s.lapped
    requires forall i :: 0 <= i < |calls| ==> calls[i].outLen > 0
    ensures var e := RunCalls(cap, s, calls);
            e.tail == e.delivered + e.lapped && s.tail <= e.tail && s.delivered <= e.delivered
    decreases |calls|
  {
    if calls != [] {
      var c := calls[0];
      var o := Consume(cap, s.tail, c.h, c.slotAt, c.h2, c.outLen);
      ConservedExactly(cap, s.tail, c.h, c.slotAt, c.h2, c.outLen);
      TailBetween(cap, s.tail, c.h, c.slotAt, c.h2, c.outLen);
      ConservedOverRuns(cap, Totals(o.tail, s.delivered + o.n, s.lapped + o.lost), calls[1..]);
    }
  }

  // ----- runs are never split -----

  /** The copy stands `n` slots past boundary `t`, with `runTail` slots of its run to go. */
  ghost predicate OnRun(stream: seq<Event>, t: nat, h: nat, limit: nat, n: nat, runTail: nat) {
    && t + limit <= h
    && n + runTail <= limit
    && IsBoundary(stream, t, t + n + runTail)
    && IsBoundary(stream, t + n + runTail, h)
  }

  /** One iteration keeps `OnRun`, and it can only stop between two runs. */
  lemma DecideKeepsRuns(stream: seq<Event>, t: nat, h: nat, limit: nat, n: nat, runTail: nat)
    requires OnRun(stream, t, h, limit, n, runTail) && n < limit && h <= |stream|
    ensures match Decide(limit, n, runTail, stream[t + n])
            case Stop => runTail == 0 && n + stream[t + n].RunLength() > limit
            case Take(rest) => OnRun(stream, t, h, limit, n + 1, rest)
  {
    if runTail == 0 {
      var p := t + n;
      var len := stream[p].RunLength();
      assert IsBoundary(stream, p + len, h);
      if n + len <= limit {
        assert IsBoundary(stream, p + len, p + len);
        assert IsBoundary(stream, p, p + len);
        BoundaryTrans(stream, t, p, p + len);
      }
    }
  }

  lemma {:induction false} CopyKeepsRuns(stream: seq<Event>, slotAt: nat -> Event, t: nat, h: nat,
                                         limit: nat, n: nat, runTail: nat)
    requires OnRun(stream, t, h, limit, n, runTail) && h <= |stream|
    requires forall j :: n <= j < limit ==> slotAt(j) == stream[t + j]
    ensures IsBoundary(stream, t, t + CopyFrom(slotAt, limit, n, runTail))
    decreases limit - n
  {
    if n < limit {
      DecideKeepsRuns(stream, t, h, limit, n, runTail);
      match Decide(limit, n, runTail, slotAt(n))
      case Stop =>
      case Take(rest) => CopyKeepsRuns(stream, slotAt, t, h, limit, n + 1, rest);
    }
  }

  /** The copy ends at the limit, or between two runs of which the next does not fit. */
  lemma {:induction false} CopyTakesAll(stream: seq<Event>, slotAt: nat -> Event, t: nat, h: nat,
                                        limit: nat, n: nat, runTail: nat)
    requires OnRun(stream, t, h, limit, n, runTail) && h <= |stream|
    requires forall j :: n <= j < limit ==> slotAt(j) == stream[t + j]
    ensures var m := CopyFrom(slotAt, limit, n, runTail); m < limit ==> m + stream[t + m].RunLength() > limit
    decreases limit - n
  {
    if n < limit {
      DecideKeepsRuns(stream, t, h, limit, n, runTail);
      match Decide(limit, n, runTail, slotAt(n))
      case Stop =>
      case Take(rest) => CopyTakesAll(stream, slotAt, t, h, limit, n + 1, rest);
    }
  }

  /** A run under way is copied to its end, or to the limit. */
  lemma {:induction false} TailTaken(slotAt: nat -> Event, limit: nat, n: nat, runTail: nat)
    requires n <= limit
    ensures CopyFrom(slotAt, limit, n, runTail)
         == if n + runTail >= limit then limit else CopyFrom(slotAt, limit, n + runTail, 0)
    decreases runTail
  {
    if runTail > 0 && n < limit { TailTaken(slotAt, limit, n + 1, runTail - 1); }
  }

  /** A compound header of size 0, which no tracer emits, takes the next 255 slots along whatever they
      are: its run length is 0, and the count of its continuations wraps. */
  lemma ZeroHeaderDrags(slotAt: nat -> Event, limit: nat)
    requires limit > 0 && slotAt(0).kindFlags % 256 != 5 && slotAt(0).IsCompound() && slotAt(0).size == 0
    ensures CopyFrom(slotAt, limit, 0, 0) == if limit <= 256 then limit else CopyFrom(slotAt, limit, 256, 0)
  {
    TailTaken(slotAt, limit, 1, 255);
  }

  /** What the copy loop does between two boundaries. */
  lemma {:induction false} CopyMeets(stream: seq<Event>, t: nat, h: nat, slotAt: nat -> Event, limit: nat)
    requires 0 < limit <= h - t && h <= |stream| && IsBoundary(stream, t, h)
    requires forall j :: 0 <= j < h - t ==> slotAt(j) == stream[t + j]
    ensures var n := CopyFrom(slotAt, limit, 0, 0);
            && IsBoundary(stream, t, t + n) && IsBoundary(stream, t + n, h)
            && (n < limit ==> n + stream[t + n].RunLength() > limit)
  {
    assert IsBoundary(stream, t, t);
    CopyKeepsRuns(stream, slotAt, t, h, limit, 0, 0);
    CopyTakesAll(stream, slotAt, t, h, limit, 0, 0);
    BoundaryBetween(stream, t, t + CopyFrom(slotAt, limit, 0, 0), h);
  }

  /** The run at a boundary before the head ends at or before it. */
  lemma {:induction false} RunBefore(stream: seq<Event>, at: nat, h: nat)
    requires at < h <= |stream| && IsBoundary(stream, at, h)
    ensures 0 < stream[at].RunLength() <= h - at && stream[at].RunLength() <= 8
  {
    BoundaryOrder(stream, at + stream[at].RunLength(), h);
    RunLengthBounds(stream[at]);
  }

  /** With tail and head on run boundaries and no lap, a batch ends on a run boundary, and it leaves
      out only runs the buffer has no room for: it is non-empty whenever events are available and the
      buffer holds at least eight. */
  lemma BatchKeepsRuns(stream: seq<Event>, cap: nat, t: nat, h: nat, slotAt: nat -> Event, h2: nat,
                       outLen: nat)
    requires t <= h <= h2 <= t + cap && h <= |stream|
    requires IsBoundary(stream, t, h)
    requires forall j :: 0 <= j < h - t ==> slotAt(j) == stream[t + j]
    ensures var o := Consume(cap, t, h, slotAt, h2, outLen);
            && o.tail == t + o.n && o.lost == 0
            && IsBoundary(stream, t, o.tail)
            && IsBoundary(stream, o.tail, h)
            && (t < h && outLen >= 8 ==> o.n > 0)
            && (o.tail < h ==> o.n + stream[o.tail].RunLength() > outLen)
  {
    var limit := Min(h - t, outLen);
    if limit > 0 {
      CopyMeets(stream, t, h, slotAt, limit);
      var end := t + CopyFrom(slotAt, limit, 0, 0);
      if end < h { RunBefore(stream, end, h); }
    } else if t < h {
      RunBefore(stream, t, h);
    }
  }

  /** One attached ring. `tail` is the shared header word, which only the engine stores. */
  class ThreadRing {
    const capacity: nat
    var tail: nat
    var lappedEvents: nat
    var lapEpisodes: nat

    constructor (capacity: nat)
      requires capacity > 0
      ensures this.capacity == capacity && tail == 0 && lappedEvents == 0 && lapEpisodes == 0
    {
      this.capacity := capacity;
      tail, lappedEvents, lapEpisodes := 0, 0, 0;
    }

    method RecordLap(lost: nat)
      modifies this`lappedEvents, this`lapEpisodes
      ensures lappedEvents == old(lappedEvents) + lost
      ensures lapEpisodes == old(lapEpisodes) + 1
    {
      lappedEvents := lappedEvents + lost;
      lapEpisodes := lapEpisodes + 1;
    }

    /** The copy loop: slots go to `out` until the limit or an incomplete run. */
    static method CopySlots(limit: nat, slotAt: nat -> Event, out: array<Event>) returns (n: nat)
      requires limit <= out.Length
      modifies out
      ensures n == CopyFrom(slotAt, limit, 0, 0) <= limit
      ensures forall j :: 0 <= j < n ==> out[j] == slotAt(j)
    {
      n := 0;
      var runTail := 0;
      while n < limit
        invariant 0 <= n <= limit
        invariant CopyFrom(slotAt, limit, n, runTail) == CopyFrom(slotAt, limit, 0, 0)
        invariant forall j :: 0 <= j < n ==> out[j] == slotAt(j)
      {
        var ev := slotAt(n);
        match Decide(limit, n, runTail, ev) {
          case Stop => break;
          case Take(rest) => runTail := rest;
        }
        out[n] := ev;
        n := n + 1;
      }
    }

    method ConsumeBatch(h: nat, slotAt: nat -> Event, h2: nat, out: array<Event>) returns (n: nat)
      requires capacity > 0
      modifies this, out
      ensures var o := Consume(capacity, old(tail), h, slotAt, h2, out.Length);
              && n == o.n && tail == o.tail
              && lappedEvents == old(lappedEvents) + o.lost
              && lapEpisodes == old(lapEpisodes) + o.laps
      ensures n <= out.Length && forall j :: 0 <= j < n ==> out[j] == slotAt(j)
    {
      var t := tail;
      if SatSub(h, t) > capacity {
        var resync := h - capacity;
        RecordLap(resync - t);
        t := resync;
      }
      var limit := Min(SatSub(h, t), out.Length);
      if limit == 0 {
        return 0;
      }
      n := CopySlots(limit, slotAt, out);
      if SatSub(h2, t) > capacity {
        var resync := h2 - capacity;
        RecordLap(resync - t);
        tail := resync;
        return 0;
      }
      tail := t + n;
    }
  }
}
