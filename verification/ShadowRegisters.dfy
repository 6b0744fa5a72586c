/** The shadow register file (`engine/src/shadow_regs.rs`): what the engine believes each register
    holds, where the belief comes from, and what a call saves and its return restores. */
module ShadowRegisters {
  import opened OrderedMap
  import opened Words

  const REG_COUNT: nat := 18
  const RAX: nat := 0
  const RSP: nat := 7
  const CALLEE_SAVED: seq<nat> := [1, 6, 12, 13, 14, 15]
  const CALLER_SAVED: seq<nat> := [0, 2, 3, 4, 5, 8, 9, 10, 11]
  const ARG_REGS: seq<nat> := [5, 4, 3, 2, 8, 9]
  const DWARF_TO_IDX: seq<nat> := [0, 3, 2, 1, 4, 5, 6, 7, 8, 9, 10, 11, 12, 13, 14, 15, 16]

  datatype Confidence = Unknown | Stale | Speculative | WriteBack | AbiInferred | CfiVerified | Observed
  {
    function Rank(): nat {
      match this
      case Unknown => 0
      case Stale => 1
      case Speculative => 2
      case WriteBack => 3
      case AbiInferred => 4
      case CfiVerified => 5
      case Observed => 6
    }
  }

  datatype Provenance =
    | FromSnapshot(eventSeq: nat)
    | FromCaller(sinceSeq: nat)
    | FromArgument(calleePc: nat, argIndex: nat)
    | FromWrite(writeSeq: nat, pc: nat)
    | FromReload(fromAddr: nat, reloadSeq: nat)
    | FromReturn(calleePc: nat, retSeq: nat)
    | FromNowhere

  datatype ShadowReg = ShadowReg(
    value: nat, provenance: Provenance, confidence: Confidence, lastSeq: nat, lastPc: nat,
    memSource: Option<nat>, memSourceSize: nat)

  /** `ShadowReg::set`: a new belief with no memory behind it. */
  function Belief(value: nat, provenance: Provenance, confidence: Confidence, at: nat, pc: nat): ShadowReg {
    ShadowReg(value, provenance, confidence, at, pc, None, 0)
  }

  const UNKNOWN_REG: ShadowReg := Belief(0, FromNowhere, Unknown, 0, 0)

  datatype Frame = Frame(calleePc: nat, saved: seq<ShadowReg>)

  datatype RegFile = RegFile(regs: seq<ShadowReg>, stack: seq<Frame>)
  {
    predicate Valid() {
      |regs| == REG_COUNT && forall k :: 0 <= k < |stack| ==> |stack[k].saved| == REG_COUNT
    }
  }

  // ----- events, register by register -----

  /** `position` in `ARG_REGS`, or 0xff. */
  function ArgIndex(i: nat): nat { Position(ARG_REGS, i) }

  function Position(regs: seq<nat>, i: nat): (k: nat)
    ensures if i in regs then k < |regs| && regs[k] == i && i !in regs[..k] else k == 0xff
    decreases |regs|
  {
    if i !in regs then 0xff
    else if regs[|regs| - 1] == i && i !in regs[..|regs| - 1] then |regs| - 1
    else assert regs == regs[..|regs| - 1] + [regs[|regs| - 1]]; Position(regs[..|regs| - 1], i)
  }

  /** What register i looks like on entry to a callee. */
  function Entered(r: ShadowReg, i: nat, calleePc: nat, rsp: nat, at: nat): ShadowReg {
    if i == RSP then Belief(rsp, FromSnapshot(at), Observed, at, calleePc)
    else if i in CALLEE_SAVED then
      if r.confidence.Rank() >= Speculative.Rank() then
        Belief(r.value, FromCaller(at), AbiInferred, at, calleePc)
      else r
    else if i in CALLER_SAVED then Belief(r.value, FromArgument(calleePc, ArgIndex(i)), Speculative, at, calleePc)
    else r
  }

  /** What register i looks like after the return from frame `f`. */
  function Returned(r: ShadowReg, i: nat, f: Frame, at: nat, pc: nat): ShadowReg
    requires |f.saved| == REG_COUNT && i < REG_COUNT
  {
    if i == RAX then Belief(r.value, FromReturn(f.calleePc, at), Speculative, at, pc)
    else if i in CALLEE_SAVED || i in CALLER_SAVED then f.saved[i]
    else r
  }

  function Verified(r: ShadowReg, i: nat, cfiSaved: seq<nat>): ShadowReg {
    if i in cfiSaved && i in CALLEE_SAVED
       && Speculative.Rank() <= r.confidence.Rank() < Observed.Rank()
    then r.(confidence := CfiVerified) else r
  }

  /** Overlap of [written, written+size) with the memory behind a register. */
  function Cohered(r: ShadowReg, written: nat, value: nat, size: nat): ShadowReg {
    if r.memSource.None? then r
    else
      var src, len := r.memSource.value, if r.memSourceSize > 0 then r.memSourceSize else 1;
      var writtenEnd := SatAdd(written, if size > 0 then size else 1);
      if written < SatAdd(src, len) && src < writtenEnd
         && (size > 8 || r.value != value) && r.confidence.Rank() > Stale.Rank()
      then r.(confidence := Stale) else r
  }

  predicate Within(x: nat, lo: nat, hi: nat) { lo <= x < hi }

  /** Some byte lies in both ranges. */
  ghost predicate Shares(a: nat, aEnd: nat, b: nat, bEnd: nat) {
    exists x: nat :: Within(x, a, aEnd) && Within(x, b, bEnd)
  }

  /** A foreign write makes a register stale exactly when it touches a byte the register was loaded
      from, could have changed it, and the register was still believed; nothing else of the register
      changes. Lengths of 0 count as 1, and ends stop at the top of the address space. */
  lemma CoheredExactly(r: ShadowReg, written: nat, value: nat, size: nat)
    ensures var r' := Cohered(r, written, value, size);
            && r' == r.(confidence := r'.confidence)
            && (r' != r <==>
                  && r.memSource.Some? && r.confidence.Rank() > Stale.Rank() && (size > 8 || r.value != value)
                  && Shares(written, SatAdd(written, if size > 0 then size else 1), r.memSource.value,
                            SatAdd(r.memSource.value, if r.memSourceSize > 0 then r.memSourceSize else 1)))
            && (r' != r ==> r'.confidence == Stale)
  {
    if r.memSource.Some? {
      var src := r.memSource.value;
      var srcEnd := SatAdd(src, if r.memSourceSize > 0 then r.memSourceSize else 1);
      var end := SatAdd(written, if size > 0 then size else 1);
      if written < srcEnd && src < end {
        var x := if written < src then src else written;
        assert Within(x, written, end) && Within(x, src, srcEnd);
      }
    }
  }

  /** Locals of the written function that live in registers, in order, overwrite them all. */
  function WrittenBack(regs: seq<ShadowReg>, dwarfRegs: seq<nat>, value: nat, pc: nat, at: nat): (r: seq<ShadowReg>)
    ensures |r| == |regs|
  {
    seq(|regs|, i requires 0 <= i < |regs| =>
      if exists k :: 0 <= k < |dwarfRegs| && dwarfRegs[k] < |DWARF_TO_IDX| && DWARF_TO_IDX[dwarfRegs[k]] == i
      then Belief(value, FromWrite(at, pc), WriteBack, at, pc) else regs[i])
  }

  datatype Op =
    | Snapshot(values: seq<nat>, at: nat, pc: nat)
    | ObserveWrite(dwarfRegs: seq<nat>, value: nat, pc: nat, at: nat)
    | Call(calleePc: nat, rsp: nat, at: nat)
    | Return(at: nat, pc: nat)
    | ReturnCfi(at: nat, pc: nat, cfiSaved: seq<nat>)
    | Reload(reg: nat, value: nat, fromAddr: nat, size: nat, at: nat, pc: nat)
    | Coherence(addr: nat, value: nat, size: nat)

  function Enter(f: RegFile, calleePc: nat, rsp: nat, at: nat): RegFile
    requires f.Valid()
  {
    RegFile(seq(REG_COUNT, i requires 0 <= i < REG_COUNT && |f.regs| == REG_COUNT => Entered(f.regs[i], i, calleePc, rsp, at)),
            f.stack + [Frame(calleePc, f.regs)])
  }

  /** A return with nothing on the stack changes nothing. */
  function Leave(f: RegFile, at: nat, pc: nat): RegFile
    requires f.Valid()
  {
    if f.stack == [] then f
    else
      var top := f.stack[|f.stack| - 1];
      RegFile(seq(REG_COUNT, i requires 0 <= i < REG_COUNT && |f.regs| == REG_COUNT => Returned(f.regs[i], i, top, at, pc)),
              f.stack[..|f.stack| - 1])
  }

  function Apply(f: RegFile, op: Op): (f': RegFile)
    requires f.Valid()
    ensures f'.Valid()
  {
    match op
    case Snapshot(values, at, pc) =>
      f.(regs := seq(REG_COUNT, i requires 0 <= i < REG_COUNT && |f.regs| == REG_COUNT =>
          if i < |values| then Belief(values[i], FromSnapshot(at), Observed, at, pc) else f.regs[i]))
    case ObserveWrite(dwarfRegs, value, pc, at) => f.(regs := WrittenBack(f.regs, dwarfRegs, value, pc, at))
    case Call(calleePc, rsp, at) => Enter(f, calleePc, rsp, at)
    case Return(at, pc) => Leave(f, at, pc)
    case ReturnCfi(at, pc, cfiSaved) =>
      var g := Leave(f, at, pc);
      g.(regs := seq(REG_COUNT, i requires 0 <= i < REG_COUNT && |g.regs| == REG_COUNT => Verified(g.regs[i], i, cfiSaved)))
    case Reload(reg, value, fromAddr, size, at, pc) =>
      if reg >= REG_COUNT then f
      else f.(regs := f.regs[reg := ShadowReg(value, FromReload(fromAddr, at), Observed, at, pc, Some(fromAddr), size)])
    case Coherence(addr, value, size) =>
      f.(regs := seq(REG_COUNT, i requires 0 <= i < REG_COUNT && |f.regs| == REG_COUNT => Cohered(f.regs[i], addr, value, size)))
  }

  function Run(f: RegFile, ops: seq<Op>): (f': RegFile)
    requires f.Valid()
    ensures f'.Valid()
    decreases |ops|
  {
    if ops == [] then f else Run(Apply(f, ops[0]), ops[1..])
  }

  // ----- balanced traces -----

  /** From `depth` open calls, every return closes one of them and all are closed at the end. */
  predicate Balanced(ops: seq<Op>, depth: nat)
    decreases |ops|
  {
    if ops == [] then depth == 0
    else match ops[0]
      case Call(_, _, _) => Balanced(ops[1..], depth + 1)
      case Return(_, _) => depth > 0 && Balanced(ops[1..], depth - 1)
      case ReturnCfi(_, _, _) => depth > 0 && Balanced(ops[1..], depth - 1)
      case _ => Balanced(ops[1..], depth)
  }

  /** A balanced trace leaves the frames below it alone and its own frames gone. */
  lemma {:induction false} BalancedKeepsStack(f: RegFile, ops: seq<Op>, base: seq<Frame>, depth: nat)
    requires f.Valid() && Balanced(ops, depth)
    requires |f.stack| == |base| + depth && f.stack[..|base|] == base
    ensures Run(f, ops).stack == base
    decreases |ops|
  {
    if ops == [] {
      assert f.stack == f.stack[..|base|];
    } else {
      var g := Apply(f, ops[0]);
      var depth' := match ops[0]
        case Call(_, _, _) => depth + 1
        case Return(_, _) => depth - 1
        case ReturnCfi(_, _, _) => depth - 1
        case _ => depth;
      assert g.stack[..|base|] == base;
      BalancedKeepsStack(g, ops[1..], base, depth');
    }
  }

  /** The fourteen registers a return restores. */
  predicate Restored(i: nat) { i < REG_COUNT && i != 0 && i != 7 && i != 16 && i != 17 }

  lemma RestoredAreSaved(i: nat)
    requires i < REG_COUNT
    ensures Restored(i) <==> i != RAX && (i in CALLEE_SAVED || i in CALLER_SAVED)
  {
    assert CALLEE_SAVED[0] == 1 && CALLEE_SAVED[1] == 6 && CALLEE_SAVED[2] == 12
        && CALLEE_SAVED[3] == 13 && CALLEE_SAVED[4] == 14 && CALLEE_SAVED[5] == 15;
    assert CALLER_SAVED[1] == 2 && CALLER_SAVED[2] == 3 && CALLER_SAVED[3] == 4 && CALLER_SAVED[4] == 5
        && CALLER_SAVED[5] == 8 && CALLER_SAVED[6] == 9 && CALLER_SAVED[7] == 10 && CALLER_SAVED[8] == 11;
  }

  /** A call, any balanced trace, and the return: fourteen registers have exactly their pre-call
      shadow back (value, provenance, confidence, memory source), rax carries the callee's value
      as a return value, and rsp, rip and rflags stay as the callee left them. */
  lemma CallRestores(f: RegFile, calleePc: nat, rsp: nat, at: nat, inner: seq<Op>, retAt: nat, retPc: nat)
    requires f.Valid() && Balanced(inner, 0)
    ensures var mid := Run(Enter(f, calleePc, rsp, at), inner);
            var end := Leave(mid, retAt, retPc);
            && end.stack == f.stack
            && (forall i: nat :: Restored(i) ==> end.regs[i] == f.regs[i])
            && end.regs[RAX] == Belief(mid.regs[RAX].value, FromReturn(calleePc, retAt), Speculative, retAt, retPc)
            && end.regs[RSP] == mid.regs[RSP] && end.regs[16] == mid.regs[16] && end.regs[17] == mid.regs[17]
  {
    var entered := Enter(f, calleePc, rsp, at);
    BalancedKeepsStack(entered, inner, entered.stack, 0);
    var mid := Run(entered, inner);
    assert mid.stack[..|mid.stack| - 1] == f.stack;
    forall i | 0 <= i < REG_COUNT ensures Restored(i) <==> i != RAX && (i in CALLEE_SAVED || i in CALLER_SAVED) {
      RestoredAreSaved(i);
    }
    RestoredAreSaved(7);
    RestoredAreSaved(16);
    RestoredAreSaved(17);
  }

  /** A snapshot is believed for all eighteen registers, and what memory they came from is forgotten. */
  lemma SnapshotObserves(f: RegFile, values: seq<nat>, at: nat, pc: nat, i: nat)
    requires f.Valid() && |values| == 18 && i < 18
    ensures var g := Apply(f, Snapshot(values, at, pc));
            g.regs[i] == ShadowReg(values[i], FromSnapshot(at), Observed, at, pc, None, 0) && g.stack == f.stack
  {
  }

  /** A register loaded from memory is believed until another thread writes to the bytes it was loaded
      from, unless that write is known to have left them as they were; no other register changes. */
  lemma {:induction false} ReloadThenWrite(f: RegFile, reg: nat, value: nat, from: nat, len: nat, at: nat, pc: nat,
                                           written: nat, other: nat, size: nat)
    requires f.Valid() && len > 0 && size > 0 && from + len < 0xffff_ffff_ffff_ffff && written + size < 0xffff_ffff_ffff_ffff
    ensures var g := Apply(f, Reload(reg, value, from, len, at, pc));
            && g.stack == f.stack && (forall i :: 0 <= i < 18 && i != reg ==> g.regs[i] == f.regs[i])
            && (reg < 18 ==>
                  && g.regs[reg] == ShadowReg(value, FromReload(from, at), Observed, at, pc, Some(from), len)
                  && var h := Apply(g, Coherence(written, other, size));
                     h.regs[reg] == g.regs[reg].(confidence :=
                       if Overlap(from, len, written, size) && (size > 8 || other != value) then Stale else Observed))
  {
    var g := Apply(f, Reload(reg, value, from, len, at, pc));
    if reg < 18 {
      CoheredExactly(g.regs[reg], written, other, size);
      assert SatAdd(from, len) == from + len && SatAdd(written, size) == written + size;
    }
  }

  /** Two ranges of bytes have one in common. */
  ghost predicate Overlap(a: nat, aLen: nat, b: nat, bLen: nat) { Shares(b, b + bLen, a, a + aLen) }

  // ----- what a callee is believed to be entered with -----

  /** rbx, rbp and r12 to r15. */
  predicate Preserved(i: nat) { i == 1 || i == 6 || 12 <= i <= 15 }

  /** rax, rcx, rdx, rsi, rdi and r8 to r11. */
  predicate Clobberable(i: nat) { i == 0 || 2 <= i <= 5 || 8 <= i <= 11 }

  /** The place among the arguments: rdi, rsi, rdx, rcx, r8, r9. */
  function ArgumentPlace(i: nat): nat {
    match i
    case 5 => 0
    case 4 => 1
    case 3 => 2
    case 2 => 3
    case 8 => 4
    case 9 => 5
    case _ => 255
  }

  lemma ArgumentPlaces(i: nat)
    requires i < 18
    ensures ArgIndex(i) == ArgumentPlace(i)
  {
    assert ARG_REGS[0] == 5 && ARG_REGS[1] == 4 && ARG_REGS[2] == 3 && ARG_REGS[3] == 2 && ARG_REGS[4] == 8 && ARG_REGS[5] == 9;
  }

  lemma SavedLists(i: nat)
    requires i < 18
    ensures i in CALLEE_SAVED <==> Preserved(i)
    ensures i in CALLER_SAVED <==> Clobberable(i)
  {
    assert CALLEE_SAVED[0] == 1 && CALLEE_SAVED[1] == 6 && CALLEE_SAVED[2] == 12
        && CALLEE_SAVED[3] == 13 && CALLEE_SAVED[4] == 14 && CALLEE_SAVED[5] == 15;
    assert CALLER_SAVED[0] == 0 && CALLER_SAVED[1] == 2 && CALLER_SAVED[2] == 3 && CALLER_SAVED[3] == 4
        && CALLER_SAVED[4] == 5 && CALLER_SAVED[5] == 8 && CALLER_SAVED[6] == 9 && CALLER_SAVED[7] == 10 && CALLER_SAVED[8] == 11;
  }

  /** A CFI return differs from the plain one only in confidences: it raises to CfiVerified those of
      the registers the callee had to preserve and the CFI lists, where there is some belief better
      than stale that was not observed. */
  lemma {:induction false} CfiOnlyRaises(f: RegFile, at: nat, pc: nat, cfiSaved: seq<nat>, i: nat)
    requires f.Valid() && i < 18
    ensures var plain, cfi := Apply(f, Return(at, pc)), Apply(f, ReturnCfi(at, pc, cfiSaved));
            && cfi.stack == plain.stack
            && cfi.regs[i] == if Preserved(i) && i in cfiSaved
                                 && plain.regs[i].confidence !in {Unknown, Stale, Observed}
                              then plain.regs[i].(confidence := CfiVerified) else plain.regs[i]
  {
    SavedLists(i);
  }

  /** On entry the stack pointer is what the call says; registers the callee must preserve keep their
      value as the caller's, if there was any belief better than stale, and are left alone otherwise;
      registers it may use keep their value as a guess at an argument; rip and rflags are left alone.
      Only the first two groups lose what was known of their memory source. */
  lemma {:induction false} EntryBeliefs(f: RegFile, calleePc: nat, rsp: nat, at: nat, i: nat)
    requires f.Valid() && i < 18
    ensures var r, r' := f.regs[i], Apply(f, Call(calleePc, rsp, at)).regs[i];
            && (i == 7 ==> r' == ShadowReg(rsp, FromSnapshot(at), Observed, at, calleePc, None, 0))
            && (Preserved(i) && r.confidence != Unknown && r.confidence != Stale ==>
                  r' == ShadowReg(r.value, FromCaller(at), AbiInferred, at, calleePc, None, 0))
            && (Preserved(i) && (r.confidence == Unknown || r.confidence == Stale) ==> r' == r)
            && (Clobberable(i) ==>
                  r' == ShadowReg(r.value, FromArgument(calleePc, ArgumentPlace(i)), Speculative, at, calleePc, None, 0))
            && (i == 16 || i == 17 ==> r' == r)
    ensures Apply(f, Call(calleePc, rsp, at)).stack == f.stack + [Frame(calleePc, f.regs)]
  {
    SavedLists(i);
    ArgumentPlaces(i);
  }

  /** A write to a function's variables overwrites exactly the registers that hold its locals at this
      point. The debug information numbers rdx 1, rcx 2 and rbx 3; all others up to 16 as here. */
  lemma {:induction false} WriteBackHits(f: RegFile, dwarfRegs: seq<nat>, value: nat, pc: nat, at: nat, i: nat)
    requires f.Valid() && i < 18
    ensures var r' := Apply(f, ObserveWrite(dwarfRegs, value, pc, at)).regs[i];
            r' == if i <= 16 && (if i == 1 then 3 else if i == 3 then 1 else i) in dwarfRegs
                  then ShadowReg(value, FromWrite(at, pc), WriteBack, at, pc, None, 0) else f.regs[i]
  {
    var d := if i == 1 then 3 else if i == 3 then 1 else i;
    if i <= 16 && d in dwarfRegs {
      var k: nat :| k < |dwarfRegs| && dwarfRegs[k] == d;
      DwarfNumbers(dwarfRegs[k]);
      assert exists k :: 0 <= k < |dwarfRegs| && dwarfRegs[k] < |DWARF_TO_IDX| && DWARF_TO_IDX[dwarfRegs[k]] == i;
      assert WrittenBack(f.regs, dwarfRegs, value, pc, at)[i] == Belief(value, FromWrite(at, pc), WriteBack, at, pc);
      assert Apply(f, ObserveWrite(dwarfRegs, value, pc, at)).regs == WrittenBack(f.regs, dwarfRegs, value, pc, at);
    } else {
      forall k | 0 <= k < |dwarfRegs| && dwarfRegs[k] < |DWARF_TO_IDX| ensures DWARF_TO_IDX[dwarfRegs[k]] != i {
        DwarfNumbers(dwarfRegs[k]);
        assert dwarfRegs[k] in dwarfRegs;
      }
    }
  }

  lemma DwarfNumbers(e: nat)
    requires e < |DWARF_TO_IDX|
    ensures |DWARF_TO_IDX| == 17
    ensures DWARF_TO_IDX[e] == (if e == 1 then 3 else if e == 3 then 1 else e)
  {
    assert DWARF_TO_IDX[0] == 0 && DWARF_TO_IDX[1] == 3 && DWARF_TO_IDX[2] == 2 && DWARF_TO_IDX[3] == 1
        && DWARF_TO_IDX[4] == 4 && DWARF_TO_IDX[5] == 5 && DWARF_TO_IDX[6] == 6 && DWARF_TO_IDX[7] == 7
        && DWARF_TO_IDX[8] == 8 && DWARF_TO_IDX[9] == 9 && DWARF_TO_IDX[10] == 10 && DWARF_TO_IDX[11] == 11
        && DWARF_TO_IDX[12] == 12 && DWARF_TO_IDX[13] == 13 && DWARF_TO_IDX[14] == 14 && DWARF_TO_IDX[15] == 15
        && DWARF_TO_IDX[16] == 16;
  }

  // ----- the register file as the engine updates it -----

  /** The two save lists name distinct registers, none of them rsp, and have none in common. */
  lemma SaveLists()
    ensures forall k :: 0 <= k < 6 ==> CALLEE_SAVED[k] < REG_COUNT && CALLEE_SAVED[k] != RSP
    ensures forall k :: 0 <= k < 9 ==> CALLER_SAVED[k] < REG_COUNT && CALLER_SAVED[k] != RSP
    ensures forall j, k :: 0 <= j < k < 6 ==> CALLEE_SAVED[j] != CALLEE_SAVED[k]
    ensures forall j, k :: 0 <= j < k < 9 ==> CALLER_SAVED[j] != CALLER_SAVED[k]
    ensures forall k :: 0 <= k < 9 ==> CALLER_SAVED[k] !in CALLEE_SAVED
  {
  }

  class ShadowRegisterFile {
    const regs: array<ShadowReg>
    var callStack: seq<Frame>

    ghost function View(): RegFile
      reads this, regs
    {
      RegFile(regs[..], callStack)
    }

    ghost predicate Valid()
      reads this, regs
    {
      View().Valid()
    }

    constructor ()
      ensures Valid() && fresh(regs) && callStack == []
      ensures regs.Length == 18 && forall i :: 0 <= i < 18 ==> regs[i] == ShadowReg(0, FromNowhere, Unknown, 0, 0, None, 0)
    {
      regs := new ShadowReg[REG_COUNT](_ => UNKNOWN_REG);
      callStack := [];
    }

    method ApplySnapshot(values: seq<nat>, at: nat, pc: nat)
      requires Valid() && |values| == REG_COUNT
      modifies regs
      ensures Valid() && View() == Apply(old(View()), Snapshot(values, at, pc))
    {
      for k := 0 to REG_COUNT
        invariant forall i :: 0 <= i < REG_COUNT ==>
                    regs[i] == if i < k then Belief(values[i], FromSnapshot(at), Observed, at, pc) else old(regs[i])
      {
        regs[k] := Belief(values[k], FromSnapshot(at), Observed, at, pc);
      }
    }

    /** `dwarfRegs`: registers that hold locals of the written function at this pc. */
    method ObserveRegisterWrite(dwarfRegs: seq<nat>, value: nat, pc: nat, at: nat)
      requires Valid()
      modifies regs
      ensures Valid() && View() == Apply(old(View()), ObserveWrite(dwarfRegs, value, pc, at))
    {
      for n := 0 to |dwarfRegs|
        invariant regs[..] == WrittenBack(old(regs[..]), dwarfRegs[..n], value, pc, at)
      {
        ghost var before := regs[..];
        var d := dwarfRegs[n];
        if d < |DWARF_TO_IDX| {
          DwarfInRange(d);
          regs[DWARF_TO_IDX[d]] := Belief(value, FromWrite(at, pc), WriteBack, at, pc);
        }
        WrittenBackNext(old(regs[..]), dwarfRegs, n, value, pc, at);
      }
      assert dwarfRegs[..|dwarfRegs|] == dwarfRegs;
    }

    /** Callee-saved registers keep their values, believed because the callee promises to. */
    method InferCalleeSaved(calleePc: nat, at: nat)
      requires Valid()
      modifies regs
      ensures forall i :: 0 <= i < REG_COUNT ==>
                regs[i] == if i in CALLEE_SAVED then Entered(old(regs[i]), i, calleePc, 0, at) else old(regs[i])
    {
      SaveLists();
      for k := 0 to 6
        invariant forall i :: 0 <= i < REG_COUNT ==>
                    regs[i] == if i in CALLEE_SAVED[..k] then Entered(old(regs[i]), i, calleePc, 0, at) else old(regs[i])
      {
        var idx := CALLEE_SAVED[k];
        if regs[idx].confidence.Rank() >= Speculative.Rank() {
          regs[idx] := Belief(regs[idx].value, FromCaller(at), AbiInferred, at, calleePc);
        }
      }
    }

    /** Caller-saved registers may hold arguments. */
    method GuessArguments(calleePc: nat, at: nat)
      requires Valid()
      modifies regs
      ensures forall i :: 0 <= i < REG_COUNT ==>
                regs[i] == if i in CALLER_SAVED then Entered(old(regs[i]), i, calleePc, 0, at) else old(regs[i])
    {
      SaveLists();
      for k := 0 to 9
        invariant forall i :: 0 <= i < REG_COUNT ==>
                    regs[i] == if i in CALLER_SAVED[..k] then Entered(old(regs[i]), i, calleePc, 0, at) else old(regs[i])
      {
        var idx := CALLER_SAVED[k];
        regs[idx] := Belief(regs[idx].value, FromArgument(calleePc, ArgIndex(idx)), Speculative, at, calleePc);
      }
    }

    method OnCall(calleePc: nat, rsp: nat, at: nat)
      requires Valid()
      modifies this, regs
      ensures Valid() && View() == Apply(old(View()), Call(calleePc, rsp, at))
    {
      callStack := callStack + [Frame(calleePc, regs[..])];
      SaveLists();
      regs[RSP] := Belief(rsp, FromSnapshot(at), Observed, at, calleePc);
      InferCalleeSaved(calleePc, at);
      GuessArguments(calleePc, at);
    }

    /** The restore of the callee-saved registers. */
    method RestoreCalleeSaved(saved: seq<ShadowReg>)
      requires Valid() && |saved| == REG_COUNT
      modifies regs
      ensures forall i :: 0 <= i < REG_COUNT ==> regs[i] == if i in CALLEE_SAVED then saved[i] else old(regs[i])
    {
      SaveLists();
      for k := 0 to 6
        invariant forall i :: 0 <= i < REG_COUNT ==>
                    regs[i] == if i in CALLEE_SAVED[..k] then saved[i] else old(regs[i])
      {
        var idx := CALLEE_SAVED[k];
        regs[idx] := saved[idx];
      }
    }

    /** The restore of the caller-saved registers, all but rax. */
    method RestoreCallerSaved(saved: seq<ShadowReg>)
      requires Valid() && |saved| == REG_COUNT
      modifies regs
      ensures forall i :: 0 <= i < REG_COUNT ==>
                regs[i] == if i != RAX && i in CALLER_SAVED then saved[i] else old(regs[i])
    {
      SaveLists();
      for k := 0 to 9
        invariant forall i :: 0 <= i < REG_COUNT ==>
                    regs[i] == if i != RAX && i in CALLER_SAVED[..k] then saved[i] else old(regs[i])
      {
        var idx := CALLER_SAVED[k];
        if idx != RAX {
          regs[idx] := saved[idx];
        }
      }
    }

    method OnReturn(at: nat, pc: nat)
      requires Valid()
      modifies this, regs
      ensures Valid() && View() == Apply(old(View()), Return(at, pc))
    {
      if callStack == [] { return; }
      var frame := callStack[|callStack| - 1];
      callStack := callStack[..|callStack| - 1];
      RestoreCalleeSaved(frame.saved);
      regs[RAX] := Belief(regs[RAX].value, FromReturn(frame.calleePc, at), Speculative, at, pc);
      RestoreCallerSaved(frame.saved);
    }

    method OnReturnCfi(at: nat, pc: nat, cfiSaved: seq<nat>)
      requires Valid()
      modifies this, regs
      ensures Valid() && View() == Apply(old(View()), ReturnCfi(at, pc, cfiSaved))
    {
      OnReturn(at, pc);
      ghost var plain := regs[..];
      for n := 0 to |cfiSaved|
        invariant callStack == Leave(old(View()), at, pc).stack
        invariant forall i :: 0 <= i < REG_COUNT ==> regs[i] == Verified(plain[i], i, cfiSaved[..n])
      {
        var idx := cfiSaved[n];
        if idx < REG_COUNT && idx in CALLEE_SAVED
           && Speculative.Rank() <= regs[idx].confidence.Rank() < Observed.Rank()
        {
          regs[idx] := regs[idx].(confidence := CfiVerified);
        }
      }
      assert cfiSaved[..|cfiSaved|] == cfiSaved;
    }

    method OnReload(reg: nat, value: nat, fromAddr: nat, size: nat, at: nat, pc: nat)
      requires Valid()
      modifies regs
      ensures Valid() && View() == Apply(old(View()), Reload(reg, value, fromAddr, size, at, pc))
    {
      if reg >= REG_COUNT { return; }
      regs[reg] := Belief(value, FromReload(fromAddr, at), Observed, at, pc);
      regs[reg] := regs[reg].(memSource := Some(fromAddr), memSourceSize := size);
    }

    method CheckCoherence(addr: nat, value: nat, size: nat)
      requires Valid()
      modifies regs
      ensures Valid() && View() == Apply(old(View()), Coherence(addr, value, size))
    {
      for k := 0 to REG_COUNT
        invariant forall i :: 0 <= i < REG_COUNT ==>
                    regs[i] == if i < k then Cohered(old(regs[i]), addr, value, size) else old(regs[i])
      {
        regs[k] := Cohered(regs[k], addr, value, size);
      }
    }
  }

  lemma DwarfInRange(d: nat)
    requires d < |DWARF_TO_IDX|
    ensures DWARF_TO_IDX[d] < REG_COUNT
  {
  }

  lemma WrittenBackNext(regs: seq<ShadowReg>, dwarfRegs: seq<nat>, n: nat, value: nat, pc: nat, at: nat)
    requires n < |dwarfRegs| && |regs| == REG_COUNT
    ensures var before, after := WrittenBack(regs, dwarfRegs[..n], value, pc, at),
                                 WrittenBack(regs, dwarfRegs[..n + 1], value, pc, at);
            forall i :: 0 <= i < REG_COUNT ==>
              after[i] == if dwarfRegs[n] < |DWARF_TO_IDX| && DWARF_TO_IDX[dwarfRegs[n]] == i
                          then Belief(value, FromWrite(at, pc), WriteBack, at, pc) else before[i]
  {
    var a, b := dwarfRegs[..n], dwarfRegs[..n + 1];
    assert forall k :: 0 <= k < n ==> a[k] == b[k];
    assert b[n] == dwarfRegs[n];
  }
}
