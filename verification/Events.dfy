/** Ring events: the packed `kind_flags` word, the split 32-bit sequence number, and the
    multi-slot runs (register snapshots and compound writes) that must stay together. */
module Events {
  import opened Words

  const KIND_WRITE: nat := 0
  const KIND_READ: nat := 1
  const KIND_REG_SNAPSHOT: nat := 5
  const KIND_BB_ENTRY: nat := 11

  const FLAG_COMPOUND: nat := 0x40
  const FLAG_CONTINUATION: nat := 0x20

  const REG_SNAPSHOT_SLOTS: nat := 7
  const COMPOUND_MAX_SLOTS: nat := 8

  datatype Event = Event(addr: nat, size: nat, threadId: nat, seqLo: nat, value: nat,
                         kindFlags: nat, ripLo: nat)
  {
    function Kind(): nat { kindFlags % 256 }

    function Flags(): nat { kindFlags / 256 % 256 }

    predicate IsCompound() { Flags() / FLAG_COMPOUND % 2 == 1 }

    predicate IsContinuation() { Flags() / FLAG_CONTINUATION % 2 == 1 }

    function Seq32(): nat { kindFlags / U16 * U16 + seqLo }

    /** Ring slots taken by this event when it is a write header. */
    function CompoundSlots(): nat {
      if !IsCompound() then 1
      else if (size + 7) / 8 < COMPOUND_MAX_SLOTS then (size + 7) / 8
      else COMPOUND_MAX_SLOTS
    }

    /** Slots of the run that starts with this event, as the consumer reads it. */
    function RunLength(): nat {
      if Kind() == KIND_REG_SNAPSHOT then REG_SNAPSHOT_SLOTS else CompoundSlots()
    }
  }

  /** A compound header announces between 1 and 8 slots unless its size is 0. */
  lemma RunLengthBounds(ev: Event)
    ensures ev.RunLength() <= 8
    ensures ev.RunLength() == 0 <==> ev.Kind() != KIND_REG_SNAPSHOT && ev.IsCompound() && ev.size == 0
  {
    if ev.IsCompound() && ev.size > 0 {
      assert (ev.size + 7) / 8 >= 1;
    }
  }

  /** Slots of a run, read off the packed word: seven for kind 5; without bit 14, one; else one for
      each eight bytes of the size or part of them, but no more than eight. */
  lemma {:induction false} RunLengthIs(ev: Event, n: nat)
    ensures ev.RunLength() == n
            <==> if ev.kindFlags % 256 == 5 then n == 7
                 else if ev.kindFlags / 0x4000 % 2 == 0 then n == 1
                 else if ev.size > 56 then n == 8 else 8 * n < ev.size + 8 <= 8 * n + 8
    ensures ev.IsContinuation() <==> ev.kindFlags / 0x2000 % 2 == 1
  {
    FlagBits(ev.kindFlags);
  }

  /** Bits 6 and 5 of the flag byte are bits 14 and 13 of the word. */
  lemma {:induction false} FlagBits(word: nat)
    ensures word / 256 % 256 / 0x40 % 2 == word / 0x4000 % 2
    ensures word / 256 % 256 / 0x20 % 2 == word / 0x2000 % 2
  {
    var w := word / 256;
    var hi, lo := w / 256, w % 256;
    assert word == 256 * w + word % 256;
    BitOf(word, w, hi, lo / 0x40, lo % 0x40, 0x40, 4);
    BitOf(word, w, hi, lo / 0x20, lo % 0x20, 0x20, 8);
  }

  lemma {:induction false} BitOf(word: nat, w: nat, hi: nat, b: nat, c: nat, bit: nat, n: nat)
    requires (bit == 0x40 && n == 4) || (bit == 0x20 && n == 8)
    requires w == 256 * hi + bit * b + c && c < bit && 256 * w <= word < 256 * w + 256
    ensures word / (256 * bit) % 2 == b % 2
  {
    if bit == 0x40 {
      assert word / 0x4000 == 4 * hi + b;
    } else {
      assert word / 0x2000 == 8 * hi + b;
    }
  }

  // ----- packing -----

  function MakeKindFlags(kind: nat, flags: nat, seqHi: nat): nat {
    kind + flags * 256 + seqHi * U16
  }

  /** The fields of a clean-call push: the sequence number is split over two words. */
  function PushedEvent(addr: nat, size: nat, value: nat, kind: nat, flags: nat, threadId: nat,
                       counter: nat, ripLo: nat): Event
  {
    Event(addr, size, threadId, counter % U16, value, MakeKindFlags(kind, flags, counter / U16), ripLo)
  }

  /** The JIT inline path packs the words with shifts of a 64-bit counter that are then
      stored through 32-bit registers: `(seq << 16) | tid` over the thread-id and low-sequence
      halves, `((seq >> 16) << 16) | kind | flags << 8` over `kind_flags`. */
  function InlineEvent(addr: nat, size: nat, value: nat, kind: nat, flags: nat, threadId: nat,
                       counter: nat, ripLo: nat): Event
  {
    var tidSeq := (counter * U16 + threadId) % U32;
    var kindFlags := (counter / U16 * U16 + kind + flags * 256) % U32;
    Event(addr, size, tidSeq % U16, tidSeq / U16, value, kindFlags, ripLo)
  }

  /** Whatever a clean-call push packs, the engine unpacks: the kind from the lowest byte, the flags
      from the next, the sequence number from the upper half and a word of its own. */
  lemma PushRoundTrip(addr: nat, size: nat, value: nat, kind: nat, flags: nat, threadId: nat,
                      counter: nat, ripLo: nat)
    requires kind < 256 && flags < 256 && counter < U32
    ensures var e := PushedEvent(addr, size, value, kind, flags, threadId, counter, ripLo);
            && e.Kind() == kind && e.Flags() == flags && e.Seq32() == counter && e.kindFlags < 0x1_0000_0000
            && e.kindFlags % 256 == kind && e.kindFlags / 256 % 256 == flags
            && e.kindFlags / 65536 == counter / 65536 && e.seqLo == counter % 65536
            && e.addr == addr && e.size == size && e.value == value && e.threadId == threadId && e.ripLo == ripLo
  {
    var hi := counter / U16;
    var kf := MakeKindFlags(kind, flags, hi);
    assert kf == (flags + hi * 256) * 256 + kind;
    assert kf / 256 == flags + hi * 256;
    assert kf == hi * U16 + (kind + flags * 256) && kind + flags * 256 < U16;
    assert kf / U16 == hi;
  }

  /** The inline packing agrees with the clean-call packing on the counter modulo 2^32. */
  lemma InlineMatchesPush(addr: nat, size: nat, value: nat, kind: nat, flags: nat, threadId: nat,
                          counter: nat, ripLo: nat)
    requires kind < 256 && flags < 256 && threadId < U16
    ensures InlineEvent(addr, size, value, kind, flags, threadId, counter, ripLo)
         == PushedEvent(addr, size, value, kind, flags, threadId, counter % 0x1_0000_0000, ripLo)
  {
    var lo, hi := counter % U16, counter / U16;
    var hiLo := hi % U16;
    SplitMod(hi, lo);
    assert counter % U32 == hiLo * U16 + lo;
    assert counter % U32 / U16 == hiLo && counter % U32 % U16 == lo;
    SplitMod(counter, threadId);
    assert (counter * U16 + threadId) % U32 == counter % U16 * U16 + threadId;
    SplitMod(hi, kind + flags * 256);
  }

  lemma SplitMod(q: nat, r: nat)
    requires r < U16
    ensures (q * U16 + r) % U32 == q % U16 * U16 + r
  {
    var k, m := q / U16, q % U16;
    assert q * U16 + r == k * U32 + (m * U16 + r);
    assert m * U16 + r < U32;
  }

  // ----- runs -----

  function Ahead(from: nat, to: nat): nat { if from <= to then to - from else 0 }

  /** Parsed run by run from position `from`, the stream reaches position `to` exactly. */
  predicate IsBoundary(stream: seq<Event>, from: nat, to: nat)
    decreases Ahead(from, to)
  {
    from == to
    || (from < to && from < |stream| && stream[from].RunLength() > 0
        && IsBoundary(stream, from + stream[from].RunLength(), to))
  }

  /** What the tracer emits as one unit: a single-slot event, a seven-slot snapshot, or a
      compound write of more than eight bytes with its continuations. */
  predicate IsRun(run: seq<Event>) {
    |run| > 0 && run[0].RunLength() == |run|
  }

  lemma {:induction false} BoundaryAgree(s: seq<Event>, s': seq<Event>, from: nat, to: nat)
    requires IsBoundary(s, from, to)
    requires to <= |s'| && to <= |s|
    requires forall i :: from <= i < to ==> s[i] == s'[i]
    ensures IsBoundary(s', from, to)
    decreases Ahead(from, to)
  {
    if from < to {
      assert IsBoundary(s, from + s[from].RunLength(), to);
      assert from + s[from].RunLength() <= to by { BoundaryOrder(s, from + s[from].RunLength(), to); }
      BoundaryAgree(s, s', from + s[from].RunLength(), to);
    }
  }

  lemma BoundaryOrder(s: seq<Event>, from: nat, to: nat)
    requires IsBoundary(s, from, to)
    ensures from <= to
    decreases Ahead(from, to)
  {
  }

  lemma {:induction false} BoundaryTrans(s: seq<Event>, a: nat, b: nat, c: nat)
    requires IsBoundary(s, a, b) && IsBoundary(s, b, c)
    ensures IsBoundary(s, a, c)
    decreases Ahead(a, b)
  {
    BoundaryOrder(s, b, c);
    if a < b {
      BoundaryTrans(s, a + s[a].RunLength(), b, c);
    }
  }

  /** Two boundaries of one stream are themselves a whole number of runs apart. */
  lemma {:induction false} BoundaryBetween(s: seq<Event>, a: nat, b: nat, c: nat)
    requires IsBoundary(s, a, b) && IsBoundary(s, a, c) && b <= c
    ensures IsBoundary(s, b, c)
    decreases Ahead(a, b)
  {
    if a < b {
      BoundaryBetween(s, a + s[a].RunLength(), b, c);
    }
  }
}
