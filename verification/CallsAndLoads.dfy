/** What a module load and a call register (`engine/src/reconciler.rs`): the nodes and the intervals
    of the index, one by one, at relocated addresses. */
module CallsAndLoads {
  import opened OrderedMap
  import opened Types
  import opened AddressIndexing
  import opened WorldGraph
  import opened FieldPaths
  import opened EdgeHistories

  // ----- what is indexed -----

  /** The interval of a registration: its bytes, if it has any, and its name, type and node. */
  predicate IntervalOf(r: Registration, iv: Interval) {
    && r.size > 0 && iv.lo == r.addr && iv.hi == r.addr + r.size
    && iv.meta.name == r.name && iv.meta.typeInfo == r.typeInfo && iv.meta.node == r.node
  }

  predicate IndexedBy(rs: seq<Registration>, iv: Interval) { exists k :: 0 <= k < |rs| && IntervalOf(rs[k], iv) }

  lemma IndexedByFirst(rs: seq<Registration>, iv: Interval)
    requires rs != []
    ensures IndexedBy(rs, iv) <==> IntervalOf(rs[0], iv) || IndexedBy(rs[1..], iv)
  {
    if IndexedBy(rs[1..], iv) {
      var k :| 0 <= k < |rs[1..]| && IntervalOf(rs[1..][k], iv);
      assert IntervalOf(rs[k + 1], iv);
    }
    if IndexedBy(rs, iv) && !IntervalOf(rs[0], iv) {
      var k :| 0 <= k < |rs| && IntervalOf(rs[k], iv);
      assert IntervalOf(rs[1..][k - 1], iv);
    }
  }

  /** What registering does to the index. */
  predicate Grown(w: World, w': World, iv: Interval, added: bool) {
    (iv in w'.statics <==> iv in w.statics || added) && w'.dynamics == w.dynamics && w'.delta == w.delta
  }

  lemma RegisterIndexes(w: World, r: Registration, iv: Interval)
    ensures Grown(w, Register(w, r), iv, IntervalOf(r, iv))
  {
  }

  lemma {:induction false} RegisterAllIndexes(w: World, rs: seq<Registration>, iv: Interval)
    ensures Grown(w, RegisterAll(w, rs), iv, IndexedBy(rs, iv))
    decreases |rs|
  {
    if rs != [] {
      RegisterIndexes(w, rs[0], iv);
      RegisterAllIndexes(Register(w, rs[0]), rs[1..], iv);
      IndexedByFirst(rs, iv);
    }
  }

  predicate IndexedFrom(globals: seq<GlobalVar>, delta: nat, from: nat, iv: Interval) {
    exists i: nat :: from <= i < |globals| && IndexedBy(GlobalRegs(globals[i], i, delta), iv)
  }

  lemma IndexedFromFirst(globals: seq<GlobalVar>, delta: nat, from: nat, iv: Interval)
    requires from < |globals|
    ensures IndexedFrom(globals, delta, from, iv)
            <==> IndexedBy(GlobalRegs(globals[from], from, delta), iv) || IndexedFrom(globals, delta, from + 1, iv)
  {
  }

  lemma {:induction false} PopulateIndexes(w: World, globals: seq<GlobalVar>, delta: nat, from: nat, iv: Interval)
    requires from <= |globals|
    ensures Grown(w, Populate(w, globals, delta, from), iv, IndexedFrom(globals, delta, from, iv))
    decreases |globals| - from
  {
    if from < |globals| {
      var rs := GlobalRegs(globals[from], from, delta);
      RegisterAllIndexes(w, rs, iv);
      PopulateIndexes(RegisterAll(w, rs), globals, delta, from + 1, iv);
      IndexedFromFirst(globals, delta, from, iv);
    }
  }

  // ----- which nodes are registered -----

  /** The node of a registration, fresh: not written yet. */
  predicate NodeOf(r: Registration, n: Node) {
    && n.name == r.name && n.typeInfo == r.typeInfo && n.addr == r.addr && n.size == r.size
    && n.value == 0 && n.lastWrite == 0
  }

  /** The node of a registration is in the graph as it describes it, and without an edge. */
  predicate Stands(w: World, r: Registration) {
    r.node in w.nodes && NodeOf(r, w.nodes[r.node]) && r.node !in w.edges
  }

  lemma {:induction false} RegisterAllNode(w: World, rs: seq<Registration>, k: nat)
    requires k < |rs| && forall j :: k < j < |rs| ==> rs[j].node != rs[k].node
    ensures Stands(RegisterAll(w, rs), rs[k])
    decreases |rs|
  {
    var w1 := Register(w, rs[0]);
    if k == 0 {
      RegisterAllEdges(w1, rs[1..], rs[0].node);
      assert !NamedIn(rs[1..], rs[0].node) by {
        forall j | 0 <= j < |rs[1..]| ensures rs[1..][j].node != rs[0].node { assert rs[1..][j] == rs[j + 1]; }
      }
    } else {
      RegisterAllNode(w1, rs[1..], k - 1);
    }
  }

  /** A global and its fields are registered under numbers of their own. */
  lemma {:induction false} OwnNumbers(g: GlobalVar, gi: nat, delta: nat, k: nat)
    requires k < |GlobalRegs(g, gi, delta)|
    ensures GlobalRegs(g, gi, delta)[k].node == if k == 0 then Global(gi) else Field(gi, k - 1)
  {
    FieldsNumbered(g.name, (g.addr + delta) % 0x1_0000_0000_0000_0000, g.typeInfo.fields, 0, gi, 0, 0);
  }

  lemma {:induction false} NodeStays(w: World, globals: seq<GlobalVar>, delta: nat, from: nat, gi: nat, r: Registration)
    requires gi < from <= |globals| && Stands(w, r) && (r.node == Global(gi) || (r.node.Field? && r.node.owner == gi))
    ensures Stands(Populate(w, globals, delta, from), r)
  {
    PopulateEdges(w, globals, delta, from, r.node);
    forall i: nat | from <= i < |globals| ensures !NamedIn(GlobalRegs(globals[i], i, delta), r.node) {
      NotNamed(globals[i], i, delta, r.node, gi);
    }
  }

  lemma {:induction false} GlobalStands(w: World, g: GlobalVar, gi: nat, delta: nat, k: nat)
    requires k < |GlobalRegs(g, gi, delta)|
    ensures Stands(RegisterAll(w, GlobalRegs(g, gi, delta)), GlobalRegs(g, gi, delta)[k])
  {
    var rs := GlobalRegs(g, gi, delta);
    forall j | k < j < |rs| ensures rs[j].node != rs[k].node { OwnNumbers(g, gi, delta, j); OwnNumbers(g, gi, delta, k); }
    RegisterAllNode(w, rs, k);
  }

  lemma PopulateFirst(w: World, globals: seq<GlobalVar>, delta: nat, from: nat)
    requires from < |globals|
    ensures Populate(w, globals, delta, from) == Populate(RegisterAll(w, GlobalRegs(globals[from], from, delta)), globals, delta, from + 1)
  {
  }

  lemma {:induction false} PopulateNode(w: World, globals: seq<GlobalVar>, delta: nat, from: nat, gi: nat, k: nat)
    requires from <= gi < |globals| && k < |GlobalRegs(globals[gi], gi, delta)|
    ensures Stands(Populate(w, globals, delta, from), GlobalRegs(globals[gi], gi, delta)[k])
    decreases |globals| - from
  {
    var w1 := RegisterAll(w, GlobalRegs(globals[from], from, delta));
    PopulateFirst(w, globals, delta, from);
    if from == gi {
      GlobalStands(w, globals[gi], gi, delta, k);
      OwnNumbers(globals[gi], gi, delta, k);
      NodeStays(w1, globals, delta, from + 1, gi, GlobalRegs(globals[gi], gi, delta)[k]);
    } else {
      PopulateNode(w1, globals, delta, from + 1, gi, k);
    }
  }

  lemma {:induction false} NotNamed(g: GlobalVar, i: nat, delta: nat, id: NodeId, gi: nat)
    requires i != gi && (id == Global(gi) || (id.Field? && id.owner == gi))
    ensures !NamedIn(GlobalRegs(g, i, delta), id)
  {
    forall k: nat | k < |GlobalRegs(g, i, delta)| ensures GlobalRegs(g, i, delta)[k].node != id { OwnNumbers(g, i, delta, k); }
  }

  // ----- a load -----

  /** The k-th registration of a global whose module is loaded at `base`: first the global itself, at
      its address moved by the distance from where the module was linked, then its fields. */
  ghost predicate Loads(dwarf: Dwarf, base: nat, gi: nat, k: nat, r: Registration) {
    && gi < |dwarf.globals|
    && var rs := GlobalRegs(dwarf.globals[gi], gi, (base - dwarf.elfBase) % 0x1_0000_0000_0000_0000);
       k < |rs| && rs[k] == r
  }

  lemma LoadedGlobal(dwarf: Dwarf, base: nat, gi: nat, r: Registration)
    requires gi < |dwarf.globals|
    ensures var g := dwarf.globals[gi];
            Loads(dwarf, base, gi, 0, r)
            <==> r == Registration(Global(gi), g.name, g.typeInfo, (g.addr + base - dwarf.elfBase) % 0x1_0000_0000_0000_0000, g.size)
  {
    GlobalThenFields(dwarf.globals[gi], gi, (base - dwarf.elfBase) % 0x1_0000_0000_0000_0000);
  }

  lemma LoadIsPopulate(w: World, dwarf: Dwarf, base: nat)
    ensures var w', delta := Apply(w, Some(dwarf), ModuleLoad(base)), (base - dwarf.elfBase) % 0x1_0000_0000_0000_0000;
            w' == if w.delta.Some? then w else Populate(Cleared(w, delta), dwarf.globals, delta, 0)
  {
  }

  lemma {:induction false} LoadStands(w: World, dwarf: Dwarf, base: nat, gi: nat, k: nat, r: Registration)
    requires Loads(dwarf, base, gi, k, r)
    ensures var delta := (base - dwarf.elfBase) % 0x1_0000_0000_0000_0000;
            Stands(Populate(Cleared(w, delta), dwarf.globals, delta, 0), r)
  {
    var delta := (base - dwarf.elfBase) % 0x1_0000_0000_0000_0000;
    PopulateNode(Cleared(w, delta), dwarf.globals, delta, 0, gi, k);
  }

  /** The first load registers every global and field afresh, without an edge; every further load
      changes nothing. */
  lemma {:induction false} LoadRegisters(w: World, dwarf: Dwarf, base: nat, gi: nat, k: nat, r: Registration)
    requires Loads(dwarf, base, gi, k, r)
    ensures var w' := Apply(w, Some(dwarf), ModuleLoad(base));
            && (w.delta.Some? ==> w' == w)
            && (w.delta.None? ==> Stands(w', r))
  {
    LoadIsPopulate(w, dwarf, base);
    LoadStands(w, dwarf, base, gi, k, r);
  }

  lemma {:induction false} LoadGrown(w: World, dwarf: Dwarf, base: nat, iv: Interval)
    requires w.delta.None?
    ensures var w', delta := Apply(w, Some(dwarf), ModuleLoad(base)), (base - dwarf.elfBase) % 0x1_0000_0000_0000_0000;
            w'.dynamics == map[] && w'.delta == Some(delta) && (iv in w'.statics <==> IndexedFrom(dwarf.globals, delta, 0, iv))
  {
    var delta := (base - dwarf.elfBase) % 0x1_0000_0000_0000_0000;
    PopulateIndexes(Cleared(w, delta), dwarf.globals, delta, 0, iv);
  }

  /** After the first load the index holds exactly the intervals of the globals and fields with a
      size, and none of the frames that were there before. */
  lemma {:induction false} LoadIndexes(w: World, dwarf: Dwarf, base: nat, iv: Interval)
    requires w.delta.None?
    ensures var w' := Apply(w, Some(dwarf), ModuleLoad(base));
            && w'.dynamics == map[] && w'.delta == Some((base - dwarf.elfBase) % 0x1_0000_0000_0000_0000)
            && (iv in w'.statics <==> exists i: nat, k: nat, r :: Loads(dwarf, base, i, k, r) && IntervalOf(r, iv))
  {
    var delta := (base - dwarf.elfBase) % 0x1_0000_0000_0000_0000;
    LoadGrown(w, dwarf, base, iv);
    if IndexedFrom(dwarf.globals, delta, 0, iv) { var i, k, r := IndexedLoads(dwarf, base, iv); }
    forall i: nat, k: nat, r | Loads(dwarf, base, i, k, r) && IntervalOf(r, iv) ensures IndexedFrom(dwarf.globals, delta, 0, iv) {
      LoadsIndexed(dwarf, base, iv, i, k, r);
    }
  }

  lemma {:induction false} IndexedLoads(dwarf: Dwarf, base: nat, iv: Interval) returns (i: nat, k: nat, r: Registration)
    requires IndexedFrom(dwarf.globals, (base - dwarf.elfBase) % 0x1_0000_0000_0000_0000, 0, iv)
    ensures Loads(dwarf, base, i, k, r) && IntervalOf(r, iv)
  {
    var delta := (base - dwarf.elfBase) % 0x1_0000_0000_0000_0000;
    i :| 0 <= i < |dwarf.globals| && IndexedBy(GlobalRegs(dwarf.globals[i], i, delta), iv);
    var rs := GlobalRegs(dwarf.globals[i], i, delta);
    k :| k < |rs| && IntervalOf(rs[k], iv);
    r := rs[k];
  }

  lemma {:induction false} LoadsIndexed(dwarf: Dwarf, base: nat, iv: Interval, i: nat, k: nat, r: Registration)
    requires Loads(dwarf, base, i, k, r) && IntervalOf(r, iv)
    ensures IndexedFrom(dwarf.globals, (base - dwarf.elfBase) % 0x1_0000_0000_0000_0000, 0, iv)
  {
    var rs := GlobalRegs(dwarf.globals[i], i, (base - dwarf.elfBase) % 0x1_0000_0000_0000_0000);
    assert IntervalOf(rs[k], iv);
    assert IndexedBy(rs, iv);
  }

  // ----- a call -----

  /** How far the loaded program stands from where it was linked. */
  function Moved(w: World): nat { if w.delta.Some? then w.delta.value else 0 }

  /** A call at the place where the function at `at` was loaded finds that function. */
  lemma CallFinds(w: World, pc: nat, at: nat)
    requires pc < 0x1_0000_0000_0000_0000 && at < 0x1_0000_0000_0000_0000
    ensures ElfPc(w, pc) == at <==> pc == (at + Moved(w)) % 0x1_0000_0000_0000_0000
  {
  }

  /** The interval of the k-th local: none for a local without a size. */
  predicate LocalAt(fid: nat, frameBase: nat, locals: seq<LocalVar>, k: nat, iv: Interval) {
    && k < |locals| && locals[k].size > 0
    && iv.lo == (frameBase + locals[k].offset) % 0x1_0000_0000_0000_0000 && iv.hi == iv.lo + locals[k].size
    && iv.meta.name == locals[k].name && iv.meta.typeInfo == locals[k].typeInfo && iv.meta.node == Local(fid, k % 65536)
  }

  lemma {:induction false} FrameIntervalsAre(fid: nat, frameBase: nat, locals: seq<LocalVar>, from: nat, iv: Interval)
    requires from <= |locals|
    ensures iv in FrameIntervals(fid, frameBase, locals, from)
            <==> exists k: nat :: from <= k && LocalAt(fid, frameBase, locals, k, iv)
    decreases |locals| - from
  {
    if from < |locals| {
      FrameIntervalsAre(fid, frameBase, locals, from + 1, iv);
      assert LocalAt(fid, frameBase, locals, from, iv)
             <==> locals[from].size > 0 && iv == LocalInterval(fid, frameBase, from, locals[from]);
    }
  }

  lemma {:induction false} LocalNodesHas(nodes: map<NodeId, Node>, fid: nat, locals: seq<LocalVar>, resolved: nat -> nat, n: nat, l: nat)
    requires n <= |locals| && Local(fid, l) !in nodes
    ensures Local(fid, l) in LocalNodes(nodes, fid, locals, resolved, n) <==> exists i :: 0 <= i < n && i % 65536 == l
  {
    if n > 0 { LocalNodesHas(nodes, fid, locals, resolved, n - 1, l); }
  }

  predicate NodeAt(nodes: map<NodeId, Node>, id: NodeId, n: Node) { id in nodes && nodes[id] == n }

  lemma {:induction false} LocalNodeStays(
    nodes: map<NodeId, Node>, fid: nat, locals: seq<LocalVar>, resolved: nat -> nat, n: nat, id: NodeId, node: Node)
    requires n < |locals| && NodeAt(LocalNodes(nodes, fid, locals, resolved, n), id, node)
    ensures NodeAt(LocalNodes(nodes, fid, locals, resolved, n + 1), id, node)
  {
  }

  lemma {:induction false} LocalNodeNew(nodes: map<NodeId, Node>, fid: nat, locals: seq<LocalVar>, resolved: nat -> nat, k: nat)
    requires k < |locals| && k < 65536 && Local(fid, k) !in nodes
    ensures NodeAt(LocalNodes(nodes, fid, locals, resolved, k + 1), Local(fid, k),
                   Node(locals[k].name, locals[k].typeInfo, resolved(k), locals[k].size, 0, 0))
  {
    LocalNodesHas(nodes, fid, locals, resolved, k, k);
  }

  /** The node of a local is that of the first one with its number, wrapped at 65536. */
  lemma {:induction false} LocalNodeIs(nodes: map<NodeId, Node>, fid: nat, locals: seq<LocalVar>, resolved: nat -> nat, n: nat, k: nat)
    requires k < n <= |locals| && k < 65536 && Local(fid, k) !in nodes
    ensures NodeAt(LocalNodes(nodes, fid, locals, resolved, n), Local(fid, k),
                   Node(locals[k].name, locals[k].typeInfo, resolved(k), locals[k].size, 0, 0))
    decreases n
  {
    if n == k + 1 {
      LocalNodeNew(nodes, fid, locals, resolved, k);
    } else {
      LocalNodeIs(nodes, fid, locals, resolved, n - 1, k);
      LocalNodeStays(nodes, fid, locals, resolved, n - 1, Local(fid, k),
                     Node(locals[k].name, locals[k].typeInfo, resolved(k), locals[k].size, 0, 0));
    }
  }

  lemma StackedBelow(w: World, fid: nat)
    requires Inv(w) && Stacked(w.stacks, fid)
    ensures fid < w.nextFrame
  {
  }

  /** A frame that was never numbered has no nodes and no intervals. */
  lemma NothingYet(w: World, l: nat)
    requires Inv(w)
    ensures Local(w.nextFrame, l) !in w.nodes && w.nextFrame !in w.dynamics
  {
    assert !Stacked(w.stacks, w.nextFrame);
  }

  /** A call of a function the debug information knows gets the next frame number, which goes on top
      of its thread's stack; each of its locals gets a node where it was found, and those with a size
      an interval at their offset from the frame base. Other nodes, edges and intervals stay. */
  lemma {:induction false} CallRegisters(w: World, dwarf: Dwarf, tid: nat, pc: nat, frameBase: nat, resolved: nat -> nat,
                                         at: nat, k: nat, iv: Interval)
    requires Inv(w) && pc == (at + Moved(w)) % 0x1_0000_0000_0000_0000 && at < 0x1_0000_0000_0000_0000
    requires at in dwarf.functions
    ensures var w', f, fid := Apply(w, Some(dwarf), Call(tid, pc, frameBase, resolved)), dwarf.functions[at], w.nextFrame;
            && w'.nextFrame == fid + 1 && w'.edges == w.edges && w'.statics == w.statics
            && w'.stacks == w.stacks[tid := (if tid in w.stacks then w.stacks[tid] else []) + [Frame(fid, pc, f.name)]]
            && (forall id :: id in w.nodes ==> id in w'.nodes && w'.nodes[id] == w.nodes[id])
            && (k < |f.locals| && k < 65536 ==>
                  Local(fid, k) in w'.nodes
                  && w'.nodes[Local(fid, k)] == Node(f.locals[k].name, f.locals[k].typeInfo, resolved(k), f.locals[k].size, 0, 0))
            && (fid in w'.dynamics && iv in w'.dynamics[fid]
                <==> exists j: nat :: LocalAt(fid, frameBase, f.locals, j, iv))
            && (forall g :: g in w.dynamics ==> g in w'.dynamics && w'.dynamics[g] == w.dynamics[g])
  {
    CallFinds(w, pc, at);
    var f, fid := dwarf.functions[at], w.nextFrame;
    FrameIntervalsAre(fid, frameBase, f.locals, 0, iv);
    NothingYet(w, k);
    if k < |f.locals| && k < 65536 {
      LocalNodeIs(w.nodes, fid, f.locals, resolved, |f.locals|, k);
    }
  }

  /** A call anywhere else, or without debug information, changes nothing. */
  lemma UnknownCall(w: World, dwarf: Option<Dwarf>, tid: nat, pc: nat, frameBase: nat, resolved: nat -> nat)
    requires pc < 0x1_0000_0000_0000_0000
    requires dwarf.Some? ==> forall at :: at in dwarf.value.functions ==>
               at >= 0x1_0000_0000_0000_0000 || pc != (at + Moved(w)) % 0x1_0000_0000_0000_0000
    ensures Apply(w, dwarf, Call(tid, pc, frameBase, resolved)) == w
  {
    CallFinds(w, pc, ElfPc(w, pc) % 0x1_0000_0000_0000_0000);
  }
}
