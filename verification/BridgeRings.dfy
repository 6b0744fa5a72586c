/** The shared ring as `rtmap_bridge.h` fills and empties it, one call at a time: a bounded queue
    over a slot array indexed modulo its capacity. Interleavings of the two sides are the subject
    of the Transport module. */
module BridgeRings {
  import opened Events
  import opened Modular
  import opened OrderedMap
  import opened Words

  const REG_COUNT: nat := 18
  const FULL: int := -1
  const SHED: int := 1

  // ----- register snapshots -----

  /** Three registers to a slot, the middle one through a 32-bit field. */
  function SnapshotSlot(regs: seq<nat>, s: nat, threadId: nat, counter: nat): Event
    requires |regs| == REG_COUNT && s < 6
  {
    Event(regs[s * 3], regs[s * 3 + 1] % U32, threadId, 0, regs[s * 3 + 2],
          MakeKindFlags(KIND_REG_SNAPSHOT, 0, counter / U16), 0)
  }

  function SnapshotHeader(insns: nat, threadId: nat, counter: nat): Event {
    PushedEvent(insns, 0, 0, KIND_REG_SNAPSHOT, 0, threadId, counter, 0)
  }

  function SnapshotRun(insns: nat, regs: seq<nat>, threadId: nat, counter: nat): seq<Event>
    requires |regs| == REG_COUNT
  {
    [SnapshotHeader(insns, threadId, counter)]
      + seq(6, s requires 0 <= s < 6 => SnapshotSlot(regs, s, threadId, counter))
  }

  /** Register i as the engine reads it from a drained snapshot. */
  function DecodedReg(events: seq<Event>, i: nat): nat
    requires i < REG_COUNT && |events| >= REG_SNAPSHOT_SLOTS
  {
    var slot := events[1 + i / 3];
    if i % 3 == 0 then slot.addr else if i % 3 == 1 then slot.size else slot.value
  }

  predicate AllSnapshotSlots(events: seq<Event>)
    requires |events| >= REG_SNAPSHOT_SLOTS
  {
    forall k :: 0 <= k < REG_SNAPSHOT_SLOTS ==> events[k].Kind() == KIND_REG_SNAPSHOT
  }

  /** `apply_reg_snapshot`; None for a snapshot that is cut short or has a foreign slot in it. */
  function DecodeSnapshot(events: seq<Event>): Option<seq<nat>> {
    if |events| < REG_SNAPSHOT_SLOTS || !AllSnapshotSlots(events) then None
    else
      Some(seq(REG_COUNT, i requires 0 <= i < REG_COUNT && |events| >= REG_SNAPSHOT_SLOTS => DecodedReg(events, i)))
  }

  /** A snapshot is recognised exactly when it has seven slots, all of kind 5. */
  lemma {:induction false} DecodesExactly(events: seq<Event>)
    ensures DecodeSnapshot(events).Some? <==> |events| >= 7 && forall k :: 0 <= k < 7 ==> events[k].kindFlags % 256 == 5
  {
    if |events| >= 7 && AllSnapshotSlots(events) {
      forall k | 0 <= k < 7 ensures events[k].kindFlags % 256 == 5 { assert events[k].Kind() == 5; }
    }
  }

  lemma SnapshotKinds(insns: nat, regs: seq<nat>, threadId: nat, counter: nat)
    requires |regs| == REG_COUNT && counter < U32
    ensures AllSnapshotSlots(SnapshotRun(insns, regs, threadId, counter))
  {
    PushRoundTrip(0, 0, 0, KIND_REG_SNAPSHOT, 0, threadId, counter, 0);
  }

  /** What is left of register i after the trip through its slot. */
  function Carried(regs: seq<nat>, i: nat): nat
    requires i < |regs|
  {
    if i % 3 == 1 then regs[i] % U32 else regs[i]
  }

  lemma DecodedIsCarried(insns: nat, regs: seq<nat>, threadId: nat, counter: nat, i: nat)
    requires |regs| == REG_COUNT && i < REG_COUNT
    ensures DecodedReg(SnapshotRun(insns, regs, threadId, counter), i) == Carried(regs, i)
  {
    assert SnapshotRun(insns, regs, threadId, counter)[1 + i / 3] == SnapshotSlot(regs, i / 3, threadId, counter);
    assert i / 3 * 3 + i % 3 == i;
  }

  predicate NarrowFit(regs: seq<nat>) {
    forall i :: 0 <= i < |regs| && i % 3 == 1 ==> regs[i] < U32
  }

  /** The six registers that travel through the 32-bit field, among them the stack pointer (7). */
  predicate Narrow(i: nat) { i == 1 || i == 4 || i == 7 || i == 10 || i == 13 || i == 16 }

  /** A snapshot is always recognised. All eighteen registers come back exactly when the six that
      travel through the 32-bit field fit it; those come back modulo 2^32, the others as they were. */
  lemma SnapshotRoundTrip(insns: nat, regs: seq<nat>, threadId: nat, counter: nat)
    requires |regs| == REG_COUNT && counter < U32
    ensures var back := DecodeSnapshot(SnapshotRun(insns, regs, threadId, counter));
            && back.Some? && |back.value| == 18
            && (forall i: nat :: i < 18 ==> back.value[i] == if Narrow(i) then regs[i] % 0x1_0000_0000 else regs[i])
            && (back.value == regs <==> forall i: nat :: i < 18 && Narrow(i) ==> regs[i] < 0x1_0000_0000)
  {
    SnapshotKinds(insns, regs, threadId, counter);
    var run := SnapshotRun(insns, regs, threadId, counter);
    var back := DecodeSnapshot(run).value;
    forall i: nat | i < 18 ensures back[i] == Carried(regs, i) && (Narrow(i) <==> i % 3 == 1) {
      DecodedIsCarried(insns, regs, threadId, counter, i);
    }
    CarriedIntact(regs, back);
  }

  lemma CarriedIntact(regs: seq<nat>, back: seq<nat>)
    requires |regs| == |back| && forall i :: 0 <= i < |regs| ==> back[i] == Carried(regs, i)
    ensures back == regs <==> NarrowFit(regs)
  {
    forall i | 0 <= i < |regs| ensures Carried(regs, i) == regs[i] <==> (i % 3 == 1 ==> regs[i] < U32) {}
  }

  /** A snapshot is one run: a header with the instruction count and the sequence number, and six slots
      of three registers each, which carry only the upper half of the number. */
  lemma SnapshotIsRun(insns: nat, regs: seq<nat>, threadId: nat, counter: nat)
    requires |regs| == 18 && counter < 0x1_0000_0000
    ensures IsRun(SnapshotRun(insns, regs, threadId, counter))
    ensures var run, word := SnapshotRun(insns, regs, threadId, counter), counter / 0x1_0000 * 0x1_0000 + 5;
            && |run| == 7 && run[0] == Event(insns, 0, threadId, counter % 0x1_0000, 0, word, 0)
            && forall s :: 0 <= s < 6 ==>
                 run[s + 1] == Event(regs[3 * s], regs[3 * s + 1] % 0x1_0000_0000, threadId, 0, regs[3 * s + 2], word, 0)
  {
    PushRoundTrip(insns, 0, 0, KIND_REG_SNAPSHOT, 0, threadId, counter, 0);
  }

  // ----- the queue -----

  function SlotOf(slots: seq<Event>, position: nat): Event
    requires |slots| > 0
  {
    slots[position % |slots|]
  }

  /** What the slots hold between the two positions, oldest first. */
  function Held(slots: seq<Event>, tail: nat, head: nat): (r: seq<Event>)
    requires |slots| > 0 && tail <= head
    ensures |r| == head - tail
  {
    seq(head - tail, i requires 0 <= i < head - tail && |slots| > 0 => SlotOf(slots, tail + i))
  }

  /** Writing the slot of the next position disturbs nothing held, even across the ring's end. */
  lemma HeldGrows(slots: seq<Event>, tail: nat, head: nat, e: Event)
    requires 0 < |slots| && tail <= head < tail + |slots|
    ensures Held(slots[head % |slots| := e], tail, head + 1) == Held(slots, tail, head) + [e]
  {
    var after := slots[head % |slots| := e];
    forall p: nat | tail <= p < head ensures SlotOf(after, p) == SlotOf(slots, p) {
      ModDistinct(p, head, |slots|);
    }
    assert SlotOf(after, head) == e;
  }

  lemma HeldShrinks(slots: seq<Event>, tail: nat, head: nat)
    requires 0 < |slots| && tail < head
    ensures Held(slots, tail, head) == [SlotOf(slots, tail)] + Held(slots, tail + 1, head)
  {
    var rest := Held(slots, tail + 1, head);
    forall i | 0 < i < head - tail ensures Held(slots, tail, head)[i] == rest[i - 1] {
      assert tail + i == tail + 1 + (i - 1);
    }
  }

  class Ring {
    const slots: array<Event>
    var head: nat
    var tail: nat
    var backpressure: nat

    /** A capacity that is not a power of two is refused; here any positive capacity works. */
    constructor (capacity: nat)
      requires capacity > 0
      ensures Valid() && fresh(slots) && slots.Length == capacity && Contents() == [] && backpressure == 0
    {
      slots := new Event[capacity](_ => Event(0, 0, 0, 0, 0, 0, 0));
      head, tail, backpressure := 0, 0, 0;
    }

    ghost predicate Valid()
      reads this, slots
    {
      slots.Length > 0 && tail <= head <= tail + slots.Length
    }

    ghost function Contents(): seq<Event>
      requires Valid()
      reads this, slots
    {
      Held(slots[..], tail, head)
    }

    /** Write the slot of the next position and publish it. */
    method Append(e: Event)
      requires Valid() && head - tail < slots.Length
      modifies this`head, slots
      ensures Valid() && head == old(head) + 1 && Contents() == old(Contents()) + [e]
    {
      HeldGrows(slots[..], tail, head, e);
      slots[head % slots.Length] := e;
      head := head + 1;
    }

    /** A full ring refuses the event and is left as it was. */
    method PushExFlags(addr: nat, size: nat, value: nat, kind: nat, flags: nat, threadId: nat, counter: nat)
      returns (r: int)
      requires Valid()
      modifies this`head, slots
      ensures Valid() && (r == 0 || r == -1) && (r == -1 <==> |old(Contents())| == slots.Length)
      ensures Contents() == if r == 0
                            then old(Contents()) + [PushedEvent(addr, size, value, kind, flags, threadId, counter, 0)]
                            else old(Contents())
    {
      if head - tail >= slots.Length { return FULL; }
      Append(PushedEvent(addr, size, value, kind, flags, threadId, counter, 0));
      r := 0;
    }

    /** Allocation events also carry the caller. */
    method PushAlloc(ptr: nat, sizeLo: nat, sizeFull: nat, kind: nat, threadId: nat, counter: nat, caller: nat)
      returns (r: int)
      requires Valid()
      modifies this`head, slots
      ensures Valid() && (r == 0 || r == -1) && (r == -1 <==> |old(Contents())| == slots.Length)
      ensures Contents() == if r == 0
                            then old(Contents()) + [PushedEvent(ptr, sizeLo, sizeFull, kind, 0, threadId, counter, caller)]
                            else old(Contents())
    {
      if head - tail >= slots.Length { return FULL; }
      Append(PushedEvent(ptr, sizeLo, sizeFull, kind, 0, threadId, counter, caller));
      r := 0;
    }

    /** Reads and block entries are shed under any backpressure, everything else is pushed. */
    method PushSampled(addr: nat, size: nat, value: nat, kind: nat, threadId: nat, counter: nat) returns (r: int)
      requires Valid()
      modifies this`head, slots
      ensures Valid() && (r == 1 <==> (kind == 1 || kind == 11) && backpressure != 0)
      ensures r != 1 ==> (r == 0 || r == -1) && (r == -1 <==> |old(Contents())| == slots.Length)
      ensures Contents() == if r == 0
                            then old(Contents()) + [PushedEvent(addr, size, value, kind, 0, threadId, counter, 0)]
                            else old(Contents())
    {
      if (kind == KIND_READ || kind == KIND_BB_ENTRY) && backpressure != 0 { return SHED; }
      r := PushExFlags(addr, size, value, kind, 0, threadId, counter);
    }

    /** All seven slots or none: the head is published once, after the last slot. */
    method PushRegSnapshot(insns: nat, regs: seq<nat>, threadId: nat, counter: nat) returns (r: int)
      requires Valid() && |regs| == 18
      modifies this`head, slots
      ensures Valid() && (r == 0 || r == -1)
      ensures r == -1 <==> |old(Contents())| + 7 > slots.Length
      ensures Contents() == if r == 0 then old(Contents()) + SnapshotRun(insns, regs, threadId, counter)
                            else old(Contents())
    {
      if head - tail + REG_SNAPSHOT_SLOTS > slots.Length { return FULL; }
      ghost var run, before := SnapshotRun(insns, regs, threadId, counter), Contents();
      HeldGrows(slots[..], tail, head, run[0]);
      slots[head % slots.Length] := SnapshotHeader(insns, threadId, counter);
      for s := 0 to 6
        invariant slots.Length > 0 && head == old(head) && tail == old(tail)
        invariant Held(slots[..], tail, head + 1 + s) == before + run[..1 + s]
      {
        HeldGrows(slots[..], tail, head + 1 + s, run[1 + s]);
        assert run[..2 + s] == run[..1 + s] + [run[1 + s]];
        slots[(head + 1 + s) % slots.Length] := SnapshotSlot(regs, s, threadId, counter);
      }
      assert run[..7] == run;
      head := head + REG_SNAPSHOT_SLOTS;
      r := 0;
    }

    /** The oldest event, if there is one. */
    method Pop() returns (r: Option<Event>)
      requires Valid()
      modifies this`tail
      ensures Valid()
      ensures old(Contents()) == if r.Some? then [r.value] + Contents() else []
      ensures r.None? ==> Contents() == []
    {
      if tail == head { return None; }
      HeldShrinks(slots[..], tail, head);
      r := Some(slots[tail % slots.Length]);
      tail := tail + 1;
    }
  }
}
