/** The reconciler (`process_event` in `engine/src/reconciler.rs`) with the address index it owns:
    each event handler is proved to take the world exactly where `WorldGraph.Apply` says. */
module Reconciling {
  import opened OrderedMap
  import opened Types
  import opened AddressIndexing
  import opened WorldGraph
  import opened Words

  /** A covering place is a registered interval. */
  lemma CoveredIsAnswered(w: World, statics: seq<Interval>, addr: nat, hit: Option<Hit>)
    requires w.statics == multiset(statics)
    requires hit.Some? ==> exists p :: Covers(statics, w.dynamics, p, addr) && hit.value == HitAt(statics, w.dynamics, p, addr)
    ensures Answered(w, addr, hit)
  {
    if hit.Some? {
      var p :| Covers(statics, w.dynamics, p, addr) && hit.value == HitAt(statics, w.dynamics, p, addr);
      var iv := At(statics, w.dynamics, p);
      if p.Static? { assert iv in multiset(statics); } else { assert iv in w.dynamics[p.frame]; }
      assert Registered(w, iv) && iv.Contains(addr) && hit.value == Hit(iv.meta, addr - iv.lo);
    }
  }

  class Reconciler {
    const dwarf: Option<Dwarf>
    var nodes: map<NodeId, Node>
    var edges: map<NodeId, Edge>
    var index: AddressIndex
    var stacks: map<nat, seq<Frame>>
    var nextFrameId: nat
    var returnedFrames: seq<nat>
    var relocationDelta: Option<nat>
    var insnCounter: nat

    ghost function View(): World
      reads this, index
    {
      World(nodes, edges, multiset(index.statics), index.dynamics, stacks, nextFrameId, returnedFrames,
            relocationDelta, insnCounter)
    }

    /** The index is searchable: every handler finds and leaves it so. */
    ghost predicate Ready()
      reads this, index, index.mru
    {
      index.Valid() && index.sorted
    }

    constructor (info: Option<Dwarf>, firstFrame: nat)
      ensures Ready() && fresh(index) && fresh(index.mru) && dwarf == info
      ensures View() == Begin(firstFrame) && Inv(View())
      ensures nodes == map[] && edges == map[] && stacks == map[] && index.statics == [] && index.dynamics == map[]
      ensures nextFrameId == firstFrame && returnedFrames == [] && relocationDelta == None && insnCounter == 0
    {
      dwarf := info;
      nodes, edges, stacks := map[], map[], map[];
      nextFrameId, returnedFrames, relocationDelta, insnCounter := firstFrame, [], None, 0;
      index := new AddressIndex();
      new;
      BeginInv(firstFrame);
    }

    // ----- writes -----

    method UpdateEdge(source: NodeId, target: Option<NodeId>, pointer: nat)
      modifies this`edges
      ensures edges == SetEdge(old(edges), source, target, pointer)
    {
      if target.Some? {
        edges := edges[source := Edge(source, target.value, pointer, false)];
      } else if pointer == 0 {
        edges := edges - {source};
      } else {
        edges := edges[source := Edge(source, NOWHERE, pointer, true)];
      }
    }

    /** One lookup, as a legal answer; with disjoint intervals it is the linear scan's. */
    method Ask(addr: nat) returns (hit: Option<Hit>)
      requires Ready()
      modifies index`mruLen, index.mru
      ensures Ready() && Answered(View(), addr, hit)
      ensures Disjoint(index.statics, index.dynamics) ==> hit == LinearScan(index.statics, index.dynamics, addr)
    {
      hit := index.Lookup(addr);
      CoveredIsAnswered(View(), index.statics, addr, hit);
    }

    /** What a write does once the index has answered. */
    method Record(addr: nat, value: nat, size: nat, truncated: bool, h: Hit, target: Option<Hit>)
      modifies this`nodes, this`edges
      ensures View() == Store(old(View()), addr, value, size, truncated, h, target)
    {
      var id := h.meta.node;
      var node := if id in nodes then nodes[id] else Node(h.meta.name, h.meta.typeInfo, addr, size, 0, 0);
      nodes := nodes[id := node.(value := if truncated then 0 else value, lastWrite := insnCounter)];
      if h.meta.typeInfo.isPointer && size == 8 {
        var to := if value == 0 || target.None? then None else Some(target.value.meta.node);
        UpdateEdge(id, to, value);
      }
    }

    /** `hit` and `target` are what the index answered on the way; the target is only looked up for
        a pointer that is not null. */
    method OnWrite(addr: nat, value: nat, size: nat, truncated: bool)
      returns (changed: bool, ghost hit: Option<Hit>, ghost target: Option<Hit>)
      requires Ready()
      modifies this`nodes, this`edges, index`mruLen, index.mru
      ensures Ready() && (changed <==> hit.Some?)
      ensures Legal(old(View()), Write(addr, value, size, truncated, hit, target))
      ensures View() == Apply(old(View()), dwarf, Write(addr, value, size, truncated, hit, target))
      ensures Disjoint(index.statics, index.dynamics) ==> hit == LinearScan(index.statics, index.dynamics, addr)
    {
      var found := Ask(addr);
      hit, target, changed := found, None, found.Some?;
      if found.None? { return; }
      var to := None;
      if found.value.meta.typeInfo.isPointer && size == 8 && value != 0 { to := Ask(value); }
      target := to;
      Record(addr, value, size, truncated, found.value, to);
    }

    // ----- calls and returns -----

    method EnsureLocals(fid: nat, locals: seq<LocalVar>, resolved: nat -> nat)
      modifies this`nodes
      ensures nodes == LocalNodes(old(nodes), fid, locals, resolved, |locals|)
    {
      for li := 0 to |locals|
        invariant nodes == LocalNodes(old(nodes), fid, locals, resolved, li)
      {
        var id, v := Local(fid, li % U16), locals[li];
        if id !in nodes { nodes := nodes[id := Node(v.name, v.typeInfo, resolved(li), v.size, 0, 0)]; }
      }
    }

    method EnterFunction(tid: nat, pc: nat, frameBase: nat, resolved: nat -> nat, f: Function)
      requires Ready()
      modifies this`nodes, this`stacks, this`nextFrameId, index, index.mru
      ensures Ready() && View() == Enter(old(View()), tid, pc, frameBase, resolved, f)
    {
      var fid := nextFrameId;
      nextFrameId := nextFrameId + 1;
      var stack := if tid in stacks then stacks[tid] else [];
      stacks := stacks[tid := stack + [Frame(fid, pc, f.name)]];
      EnsureLocals(fid, f.locals, resolved);
      if f.locals != [] { index.InsertFrameLocals(fid, frameBase, f.locals); }
    }

    method OnCall(tid: nat, pc: nat, frameBase: nat, resolved: nat -> nat)
      requires Ready()
      modifies this`nodes, this`stacks, this`nextFrameId, index, index.mru
      ensures Ready() && View() == Apply(old(View()), dwarf, Call(tid, pc, frameBase, resolved))
    {
      if dwarf.None? { return; }
      var elfPc := if relocationDelta.Some? then (pc - relocationDelta.value) % U64 else pc;
      if elfPc in dwarf.value.functions {
        EnterFunction(tid, pc, frameBase, resolved, dwarf.value.functions[elfPc]);
      }
    }

    method RemoveFrameNodes(fid: nat)
      modifies this`nodes, this`edges
      ensures View() == Retire(old(View()), fid)
    {
      var dead := set id | id in nodes && id.Local? && id.frame == fid;
      nodes := nodes - dead;
      edges := map s | s in edges && s !in dead && edges[s].target !in dead :: edges[s];
    }

    method PopFrame(tid: nat) returns (popped: bool)
      requires Ready()
      modifies this`stacks, this`returnedFrames, index, index.mru
      ensures Ready() && (popped <==> StackOf(old(View()), tid) != [])
      ensures View() == if popped then Popped(old(View()), tid) else old(View())
    {
      if tid !in stacks || stacks[tid] == [] { return false; }
      var stack := stacks[tid];
      var fid := stack[|stack| - 1].id;
      stacks := stacks[tid := stack[..|stack| - 1]];
      index.RemoveFrame(fid);
      returnedFrames := returnedFrames + [fid];
      popped := true;
    }

    /** Forget the oldest returns beyond the last 32. */
    method RetireOldest()
      modifies this`nodes, this`edges, this`returnedFrames
      ensures View() == RetireExcess(old(View()))
    {
      while |returnedFrames| > KEPT_FRAMES
        invariant RetireExcess(View()) == RetireExcess(old(View()))
        decreases |returnedFrames|
      {
        var oldest := returnedFrames[0];
        returnedFrames := returnedFrames[1..];
        ghost var w := View();
        RemoveFrameNodes(oldest);
        assert View() == Retire(w, oldest);
      }
    }

    method OnReturn(tid: nat)
      requires Ready()
      modifies this`nodes, this`edges, this`stacks, this`returnedFrames, index, index.mru
      ensures Ready() && View() == Apply(old(View()), dwarf, Return(tid))
    {
      var popped := PopFrame(tid);
      if popped { RetireOldest(); }
    }

    // ----- module loads -----

    method RegisterOne(r: Registration)
      requires index.Valid() && r.addr < U64 && !r.node.Local?
      modifies this`nodes, this`edges, index, index.mru
      ensures index.Valid() && View() == Register(old(View()), r)
    {
      index.InsertStatic(r.addr, r.size, r.name, r.typeInfo, r.node);
      nodes := nodes - {r.node};
      edges := edges - {r.node};
      nodes := nodes[r.node := Describe(r)];
      assert nodes == old(nodes)[r.node := Describe(r)];
    }

    method RegisterField(name: string, base: nat, f: FieldInfo, gi: nat, fi: nat, depth: nat) returns (next: nat)
      requires index.Valid() && fi < MAX_FIELD && depth <= MAX_DEPTH
      modifies this`nodes, this`edges, index, index.mru
      ensures index.Valid() && next == FieldReg(name, base, f, gi, fi, depth).1
      ensures View() == RegisterAll(old(View()), FieldReg(name, base, f, gi, fi, depth).0)
      decreases MAX_DEPTH + 1 - depth, 0
    {
      var addr, full := (base + f.byteOffset) % U64, name + "." + f.name;
      var r := Registration(Field(gi, fi), full, f.typeInfo, addr, f.byteSize);
      RegisterOne(r);
      next := fi + 1;
      if Nests(f) {
        RegisterAllFirst(old(View()), r, FieldRegs(full, addr, f.typeInfo.fields, 0, gi, next, depth + 1).0);
        next := RegisterFields(full, addr, f.typeInfo.fields, gi, next, depth + 1);
      } else {
        RegisterAllFirst(old(View()), r, []);
      }
    }

    method RegisterFields(name: string, base: nat, fields: seq<FieldInfo>, gi: nat, counter: nat, depth: nat)
      returns (next: nat)
      requires index.Valid() && counter <= MAX_FIELD
      modifies this`nodes, this`edges, index, index.mru
      ensures index.Valid() && next == FieldRegs(name, base, fields, 0, gi, counter, depth).1
      ensures View() == RegisterAll(old(View()), FieldRegs(name, base, fields, 0, gi, counter, depth).0)
      decreases MAX_DEPTH + 1 - depth, 1
    {
      next := counter;
      if depth > MAX_DEPTH { return; }
      ghost var all := FieldRegs(name, base, fields, 0, gi, counter, depth);
      for from := 0 to |fields|
        invariant index.Valid() && next <= MAX_FIELD
        invariant RegisterAll(View(), FieldRegs(name, base, fields, from, gi, next, depth).0)
               == RegisterAll(old(View()), all.0)
        invariant FieldRegs(name, base, fields, from, gi, next, depth).1 == all.1
      {
        if !Skipped(fields[from]) {
          if next == MAX_FIELD { return; }
          FieldRegsStep(View(), name, base, fields, from, gi, next, depth);
          next := RegisterField(name, base, fields[from], gi, next, depth);
        }
      }
    }

    method RegisterGlobalFields(g: GlobalVar, gi: nat, delta: nat)
      requires index.Valid()
      modifies this`nodes, this`edges, index, index.mru
      ensures index.Valid() && View() == RegisterAll(old(View()), GlobalFields(g, gi, delta))
    {
      if g.typeInfo.isPointer { return; }
      var _ := RegisterFields(g.name, (g.addr + delta) % U64, g.typeInfo.fields, gi, 0, 0);
    }

    method RegisterGlobal(g: GlobalVar, gi: nat, delta: nat)
      requires index.Valid()
      modifies this`nodes, this`edges, index, index.mru
      ensures index.Valid() && View() == RegisterAll(old(View()), GlobalRegs(g, gi, delta))
    {
      GlobalRegsStep(View(), g, gi, delta);
      RegisterOne(GlobalReg(g, gi, delta));
      RegisterGlobalFields(g, gi, delta);
    }

    method RegisterGlobals(globals: seq<GlobalVar>, delta: nat)
      requires index.Valid()
      modifies this`nodes, this`edges, index, index.mru
      ensures index.Valid() && View() == Populate(old(View()), globals, delta, 0)
    {
      ghost var whole := Populate(View(), globals, delta, 0);
      for i := 0 to |globals|
        invariant index.Valid() && Populate(View(), globals, delta, i) == whole
      {
        RegisterGlobal(globals[i], i, delta);
      }
    }

    method PopulateGlobals(globals: seq<GlobalVar>, delta: nat)
      requires index.Valid()
      modifies this`nodes, this`edges, index, index.mru
      ensures Ready() && View() == Populate(old(View()), globals, delta, 0)
    {
      RegisterGlobals(globals, delta);
      index.Finalize();
    }

    /** A fresh index replaces the old one. */
    method ClearIndex(delta: nat)
      modifies this`index, this`relocationDelta
      ensures index.Valid() && fresh(index) && fresh(index.mru) && View() == Cleared(old(View()), delta)
    {
      relocationDelta := Some(delta);
      index := new AddressIndex();
    }

    method OnModuleLoad(base: nat)
      requires Ready()
      modifies this`nodes, this`edges, this`index, this`relocationDelta, index, index.mru
      ensures Ready() && View() == Apply(old(View()), dwarf, ModuleLoad(base))
      ensures index == old(index) || (fresh(index) && fresh(index.mru))
    {
      if relocationDelta.Some? || dwarf.None? { return; }
      var delta := Relocation(dwarf.value, base);
      ClearIndex(delta);
      PopulateGlobals(dwarf.value.globals, delta);
    }

    // ----- any event -----

    /** Every event keeps graph, stacks and index in step. */
    method ProcessEvent(ev: Op) returns (ghost op: Op)
      requires Ready() && Inv(View())
      modifies this, index, index.mru
      ensures Ready() && Inv(View())
      ensures Legal(old(View()), op) && View() == Apply(old(View()), dwarf, op)
      ensures if ev.Write? then op.Write? && op == ev.(hit := op.hit, target := op.target) else op == ev
      ensures index == old(index) || (fresh(index) && fresh(index.mru))
    {
      ghost var w := View();
      op := ev;
      match ev {
        case Write(addr, value, size, truncated, _, _) =>
          var changed;
          ghost var hit, target;
          changed, hit, target := OnWrite(addr, value, size, truncated);
          op := Write(addr, value, size, truncated, hit, target);
        case Call(tid, pc, frameBase, resolved) => OnCall(tid, pc, frameBase, resolved);
        case Return(tid) => OnReturn(tid);
        case ModuleLoad(base) => OnModuleLoad(base);
        case Tick => insnCounter := insnCounter + 1;
      }
      ApplyInv(w, dwarf, op);
    }
  }
}
