/** The variable and pointer graph (`engine/src/world.rs`) under the events that change it
    (`engine/src/reconciler.rs`): writes, calls, returns and module loads touch the nodes, the
    edges, the shadow stacks and the address index together. */
module WorldGraph {
  import opened OrderedMap
  import opened Types
  import opened AddressIndexing
  import opened Words

  const KEPT_FRAMES: nat := 32
  const MAX_DEPTH: nat := 6
  const MAX_FIELD: nat := 0xffff
  const NOWHERE: NodeId := Global(0xffff_ffff)

  datatype Node = Node(name: string, typeInfo: TypeInfo, addr: nat, size: nat, value: nat, lastWrite: nat)

  datatype Edge = Edge(source: NodeId, target: NodeId, pointer: nat, dangling: bool)

  datatype Frame = Frame(id: nat, calleePc: nat, name: string)

  datatype Function = Function(name: string, locals: seq<LocalVar>)

  datatype GlobalVar = GlobalVar(name: string, addr: nat, size: nat, typeInfo: TypeInfo)

  datatype Dwarf = Dwarf(globals: seq<GlobalVar>, functions: map<nat, Function>, elfBase: nat)

  /** `statics` and `dynamics` are what the address index has registered. */
  datatype World = World(
    nodes: map<NodeId, Node>, edges: map<NodeId, Edge>,
    statics: multiset<Interval>, dynamics: map<nat, seq<Interval>>,
    stacks: map<nat, seq<Frame>>, nextFrame: nat, returned: seq<nat>,
    delta: Option<nat>, insns: nat)

  function Begin(firstFrame: nat): World {
    World(map[], map[], multiset{}, map[], map[], firstFrame, [], None, 0)
  }

  // ----- registering globals and their fields -----

  datatype Registration = Registration(node: NodeId, name: string, typeInfo: TypeInfo, addr: nat, size: nat)

  function Describe(r: Registration): Node { Node(r.name, r.typeInfo, r.addr, r.size, 0, 0) }

  /** One field, then what it contains; the second result is the next free field number. */
  function FieldReg(name: string, base: nat, f: FieldInfo, gi: nat, fi: nat, depth: nat): (r: (seq<Registration>, nat))
    requires fi < MAX_FIELD && depth <= MAX_DEPTH
    ensures fi <= r.1 <= MAX_FIELD
    decreases MAX_DEPTH + 1 - depth, 0
  {
    var addr, full := (base + f.byteOffset) % U64, name + "." + f.name;
    var nested :=
      if Nests(f) then FieldRegs(full, addr, f.typeInfo.fields, 0, gi, fi + 1, depth + 1) else ([], fi + 1);
    ([Registration(Field(gi, fi), full, f.typeInfo, addr, f.byteSize)] + nested.0, nested.1)
  }

  predicate Skipped(f: FieldInfo) { f.byteSize == 0 || f.name == "<pointee>" }

  /** The fields of a structure in preorder, numbered without gaps, to seven levels and 65535
      fields. */
  function FieldRegs(name: string, base: nat, fields: seq<FieldInfo>, from: nat, gi: nat, fi: nat, depth: nat)
    : (r: (seq<Registration>, nat))
    requires from <= |fields| && fi <= MAX_FIELD
    ensures fi <= r.1 <= MAX_FIELD
    decreases MAX_DEPTH + 1 - depth, |fields| + 1 - from
  {
    if depth > MAX_DEPTH || from == |fields| then ([], fi)
    else if Skipped(fields[from]) then FieldRegs(name, base, fields, from + 1, gi, fi, depth)
    else if fi == MAX_FIELD then ([], fi)
    else
      var first := FieldReg(name, base, fields[from], gi, fi, depth);
      var rest := FieldRegs(name, base, fields, from + 1, gi, first.1, depth);
      (first.0 + rest.0, rest.1)
  }

  predicate Nests(f: FieldInfo) { !f.typeInfo.isPointer && f.typeInfo.fields != [] && f.byteSize > 8 }

  /** Fields number themselves from `fi` up, without a gap, whatever the nesting. */
  ghost predicate Numbered(rs: seq<Registration>, gi: nat, fi: nat) {
    forall k :: 0 <= k < |rs| ==> rs[k].node == Field(gi, fi + k) && rs[k].addr < U64
  }

  lemma {:induction false} FieldNumbered(name: string, base: nat, f: FieldInfo, gi: nat, fi: nat, depth: nat)
    requires fi < MAX_FIELD && depth <= MAX_DEPTH
    ensures var r := FieldReg(name, base, f, gi, fi, depth); Numbered(r.0, gi, fi) && |r.0| == r.1 - fi
    decreases MAX_DEPTH + 1 - depth, 0
  {
    if Nests(f) {
      FieldsNumbered(name + "." + f.name, (base + f.byteOffset) % U64, f.typeInfo.fields, 0, gi, fi + 1, depth + 1);
    }
  }

  /** The field nodes of a global are numbered consecutively in preorder, so no two of them share
      a number. */
  lemma {:induction false} FieldsNumbered(
    name: string, base: nat, fields: seq<FieldInfo>, from: nat, gi: nat, fi: nat, depth: nat)
    requires from <= |fields| && fi <= MAX_FIELD
    ensures var r := FieldRegs(name, base, fields, from, gi, fi, depth); Numbered(r.0, gi, fi) && |r.0| == r.1 - fi
    decreases MAX_DEPTH + 1 - depth, |fields| + 1 - from
  {
    if depth <= MAX_DEPTH && from < |fields| {
      if Skipped(fields[from]) {
        FieldsNumbered(name, base, fields, from + 1, gi, fi, depth);
      } else if fi < MAX_FIELD {
        FieldNumbered(name, base, fields[from], gi, fi, depth);
        FieldsNumbered(name, base, fields, from + 1, gi, FieldReg(name, base, fields[from], gi, fi, depth).1, depth);
      }
    }
  }

  function GlobalReg(g: GlobalVar, gi: nat, delta: nat): Registration {
    Registration(Global(gi), g.name, g.typeInfo, (g.addr + delta) % U64, g.size)
  }

  function GlobalFields(g: GlobalVar, gi: nat, delta: nat): seq<Registration> {
    if g.typeInfo.isPointer then []
    else FieldRegs(g.name, (g.addr + delta) % U64, g.typeInfo.fields, 0, gi, 0, 0).0
  }

  function GlobalRegs(g: GlobalVar, gi: nat, delta: nat): seq<Registration> {
    [GlobalReg(g, gi, delta)] + GlobalFields(g, gi, delta)
  }

  /** The old node goes with its edge, a fresh one takes its place, and anything with a size is
      indexed. */
  function Register(w: World, r: Registration): World {
    w.(nodes := w.nodes[r.node := Describe(r)], edges := w.edges - {r.node},
       statics := if r.size == 0 then w.statics
                  else w.statics + multiset{Interval(r.addr, r.addr + r.size, Meta(r.name, r.typeInfo, r.node))})
  }

  function RegisterAll(w: World, rs: seq<Registration>): World
    decreases |rs|
  {
    if rs == [] then w else RegisterAll(Register(w, rs[0]), rs[1..])
  }

  lemma GlobalRegsStatic(g: GlobalVar, gi: nat, delta: nat)
    ensures forall r :: r in GlobalRegs(g, gi, delta) ==> !r.node.Local?
  {
    FieldsNumbered(g.name, (g.addr + delta) % U64, g.typeInfo.fields, 0, gi, 0, 0);
  }

  /** `populate_globals`, from one global on. */
  function Populate(w: World, globals: seq<GlobalVar>, delta: nat, from: nat): World
    requires from <= |globals|
    decreases |globals| - from
  {
    if from == |globals| then w
    else Populate(RegisterAll(w, GlobalRegs(globals[from], from, delta)), globals, delta, from + 1)
  }

  lemma {:induction false} RegisterAllJoin(w: World, rs: seq<Registration>, more: seq<Registration>)
    ensures RegisterAll(w, rs + more) == RegisterAll(RegisterAll(w, rs), more)
    decreases |rs|
  {
    if rs == [] {
      assert rs + more == more;
    } else {
      var all := rs + more;
      assert all[0] == rs[0] && all[1..] == rs[1..] + more;
      RegisterAllJoin(Register(w, rs[0]), rs[1..], more);
    }
  }

  /** Registering the rest of the fields is registering one, nested ones included, and then the rest. */
  lemma FieldRegsStep(w: World, name: string, base: nat, fields: seq<FieldInfo>, from: nat, gi: nat, fi: nat, depth: nat)
    requires from < |fields| && fi < MAX_FIELD && depth <= MAX_DEPTH && !Skipped(fields[from])
    ensures var first := FieldReg(name, base, fields[from], gi, fi, depth);
            var all, rest := FieldRegs(name, base, fields, from, gi, fi, depth), FieldRegs(name, base, fields, from + 1, gi, first.1, depth);
            all.1 == rest.1 && RegisterAll(w, all.0) == RegisterAll(RegisterAll(w, first.0), rest.0)
  {
    var first := FieldReg(name, base, fields[from], gi, fi, depth);
    RegisterAllJoin(w, first.0, FieldRegs(name, base, fields, from + 1, gi, first.1, depth).0);
  }

  lemma GlobalRegsStep(w: World, g: GlobalVar, gi: nat, delta: nat)
    ensures RegisterAll(w, GlobalRegs(g, gi, delta))
         == RegisterAll(Register(w, GlobalReg(g, gi, delta)), GlobalFields(g, gi, delta))
  {
    RegisterAllFirst(w, GlobalReg(g, gi, delta), GlobalFields(g, gi, delta));
  }

  lemma RegisterAllFirst(w: World, r: Registration, rest: seq<Registration>)
    ensures RegisterAll(w, [r] + rest) == RegisterAll(Register(w, r), rest)
  {
  }

  // ----- events -----

  /** One drained event; a write carries what the address index answered for its address and, for
      a pointer, for its value, and a call where each local was found. */
  datatype Op =
    | Write(addr: nat, value: nat, size: nat, truncated: bool, hit: Option<Hit>, target: Option<Hit>)
    | Call(tid: nat, pc: nat, frameBase: nat, resolved: nat -> nat)
    | Return(tid: nat)
    | ModuleLoad(base: nat)
    | Tick

  predicate Registered(w: World, iv: Interval) {
    iv in w.statics || exists f :: f in w.dynamics && iv in w.dynamics[f]
  }

  /** An answer of the index: a registered interval around the address, or nothing. */
  ghost predicate Answered(w: World, addr: nat, hit: Option<Hit>) {
    hit.Some? ==> exists iv :: Registered(w, iv) && iv.Contains(addr) && hit.value == Hit(iv.meta, addr - iv.lo)
  }

  ghost predicate Legal(w: World, op: Op) {
    op.Write? ==> Answered(w, op.addr, op.hit) && Answered(w, op.value, op.target)
  }

  /** The value is zeroed when the event is truncated, but not the pointer of the edge. */
  function SetEdge(edges: map<NodeId, Edge>, source: NodeId, target: Option<NodeId>, pointer: nat): map<NodeId, Edge> {
    match target
    case Some(t) => edges[source := Edge(source, t, pointer, false)]
    case None =>
      if pointer == 0 then edges - {source} else edges[source := Edge(source, NOWHERE, pointer, true)]
  }

  function Store(w: World, addr: nat, value: nat, size: nat, truncated: bool, h: Hit, target: Option<Hit>): World {
    var id := h.meta.node;
    var prior := if id in w.nodes then w.nodes[id] else Node(h.meta.name, h.meta.typeInfo, addr, size, 0, 0);
    var to := if value == 0 || target.None? then None else Some(target.value.meta.node);
    w.(nodes := w.nodes[id := prior.(value := if truncated then 0 else value, lastWrite := w.insns)],
       edges := if h.meta.typeInfo.isPointer && size == 8 then SetEdge(w.edges, id, to, value) else w.edges)
  }

  function ElfPc(w: World, pc: nat): nat { if w.delta.Some? then (pc - w.delta.value) % U64 else pc }

  function LocalNodes(nodes: map<NodeId, Node>, fid: nat, locals: seq<LocalVar>, resolved: nat -> nat, n: nat): (r: map<NodeId, Node>)
    requires n <= |locals|
    ensures forall id :: id in nodes ==> id in r && r[id] == nodes[id]
    ensures forall id :: id in r && id !in nodes ==> id.Local? && id.frame == fid
    ensures forall k :: 0 <= k < n ==> Local(fid, k % U16) in r
  {
    if n == 0 then nodes
    else
      var r, id := LocalNodes(nodes, fid, locals, resolved, n - 1), Local(fid, (n - 1) % U16);
      if id in r then r
      else r[id := Node(locals[n - 1].name, locals[n - 1].typeInfo, resolved(n - 1), locals[n - 1].size, 0, 0)]
  }

  function StackOf(w: World, tid: nat): seq<Frame> { if tid in w.stacks then w.stacks[tid] else [] }

  function Enter(w: World, tid: nat, pc: nat, frameBase: nat, resolved: nat -> nat, f: Function): World {
    var fid, ivs := w.nextFrame, FrameIntervals(w.nextFrame, frameBase, f.locals, 0);
    w.(nextFrame := fid + 1,
       stacks := w.stacks[tid := StackOf(w, tid) + [Frame(fid, pc, f.name)]],
       nodes := LocalNodes(w.nodes, fid, f.locals, resolved, |f.locals|),
       dynamics := if ivs == [] then w.dynamics else w.dynamics[fid := ivs])
  }

  /** `remove_frame_nodes`. */
  function Retire(w: World, fid: nat): World {
    var dead := set id | id in w.nodes && id.Local? && id.frame == fid;
    w.(nodes := w.nodes - dead,
       edges := map s | s in w.edges && s !in dead && w.edges[s].target !in dead :: w.edges[s])
  }

  function RetireExcess(w: World): World
    decreases |w.returned|
  {
    if |w.returned| <= KEPT_FRAMES then w
    else RetireExcess(Retire(w, w.returned[0]).(returned := w.returned[1..]))
  }

  /** The stack without its top; the frame leaves the index at once, its nodes stay for a while. */
  function Popped(w: World, tid: nat): World
    requires StackOf(w, tid) != []
  {
    var stack := w.stacks[tid];
    var fid := stack[|stack| - 1].id;
    w.(stacks := w.stacks[tid := stack[..|stack| - 1]], dynamics := w.dynamics - {fid}, returned := w.returned + [fid])
  }

  function Leave(w: World, tid: nat): World {
    if StackOf(w, tid) == [] then w else RetireExcess(Popped(w, tid))
  }

  function Cleared(w: World, delta: nat): World {
    w.(delta := Some(delta), statics := multiset{}, dynamics := map[])
  }

  function Reloaded(w: World, globals: seq<GlobalVar>, delta: nat): World {
    Populate(Cleared(w, delta), globals, delta, 0)
  }

  function Relocation(dwarf: Dwarf, base: nat): nat { (base - dwarf.elfBase) % U64 }

  /** Only the first load relocates: the index starts afresh and the globals are registered again. */
  function Load(w: World, dwarf: Option<Dwarf>, base: nat): World {
    if w.delta.Some? || dwarf.None? then w
    else Reloaded(w, dwarf.value.globals, Relocation(dwarf.value, base))
  }

  function Apply(w: World, dwarf: Option<Dwarf>, op: Op): World {
    match op
    case Write(addr, value, size, truncated, hit, target) =>
      if hit.None? then w else Store(w, addr, value, size, truncated, hit.value, target)
    case Call(tid, pc, frameBase, resolved) =>
      if dwarf.Some? && ElfPc(w, pc) in dwarf.value.functions
      then Enter(w, tid, pc, frameBase, resolved, dwarf.value.functions[ElfPc(w, pc)]) else w
    case Return(tid) => Leave(w, tid)
    case ModuleLoad(base) => Load(w, dwarf, base)
    case Tick => w.(insns := w.insns + 1)
  }

  // ----- what every reachable world satisfies -----

  type Stacks = map<nat, seq<Frame>>

  predicate OnStack(stacks: Stacks, tid: nat, k: nat) { tid in stacks && k < |stacks[tid]| }

  function IdAt(stacks: Stacks, tid: nat, k: nat): nat
    requires OnStack(stacks, tid, k)
  {
    stacks[tid][k].id
  }

  ghost predicate Stacked(stacks: Stacks, fid: nat) {
    exists tid, k :: OnStack(stacks, tid, k) && IdAt(stacks, tid, k) == fid
  }

  predicate EdgeJoins(nodes: map<NodeId, Node>, s: NodeId, e: Edge) {
    e.source == s && s in nodes && (e.dangling || e.target in nodes)
  }

  /** Every edge leaves an existing node, and one that does not dangle reaches one. */
  predicate EdgesJoin(nodes: map<NodeId, Node>, edges: map<NodeId, Edge>) {
    forall s :: s in edges ==> EdgeJoins(nodes, s, edges[s])
  }

  /** No frame is on two stacks, or twice on one. */
  ghost predicate FramesDistinct(stacks: Stacks) {
    forall t, k, u, j ::
      OnStack(stacks, t, k) && OnStack(stacks, u, j) && IdAt(stacks, t, k) == IdAt(stacks, u, j) ==> t == u && k == j
  }

  /** Frame numbers come from the counter. */
  ghost predicate FramesCounted(stacks: Stacks, nextFrame: nat) {
    forall t, k :: OnStack(stacks, t, k) ==> IdAt(stacks, t, k) < nextFrame
  }

  /** A remembered return is off every stack and remembered once. */
  ghost predicate ReturnsOff(stacks: Stacks, nextFrame: nat, returned: seq<nat>) {
    && (forall i :: 0 <= i < |returned| ==> returned[i] < nextFrame && !Stacked(stacks, returned[i]))
    && (forall i, j :: 0 <= i < j < |returned| ==> returned[i] != returned[j])
  }

  /** A local belongs to a frame still on a stack or to a remembered one. */
  ghost predicate LocalsAccounted(nodes: map<NodeId, Node>, stacks: Stacks, returned: seq<nat>) {
    forall id :: id in nodes && id.Local? ==> Stacked(stacks, id.frame) || id.frame in returned
  }

  predicate StaticsExist(nodes: map<NodeId, Node>, statics: multiset<Interval>) {
    forall iv :: iv in statics ==> iv.meta.node in nodes && !iv.meta.node.Local?
  }

  predicate FrameIndexed(nodes: map<NodeId, Node>, f: nat, ivs: seq<Interval>) {
    forall iv :: iv in ivs ==> iv.meta.node in nodes && iv.meta.node.Local? && iv.meta.node.frame == f
  }

  /** Only frames on a stack are indexed, under their own nodes. */
  ghost predicate FramesIndexed(nodes: map<NodeId, Node>, dynamics: map<nat, seq<Interval>>, stacks: Stacks) {
    forall f :: f in dynamics ==> Stacked(stacks, f) && FrameIndexed(nodes, f, dynamics[f])
  }

  ghost predicate Core(w: World) {
    && EdgesJoin(w.nodes, w.edges) && FramesDistinct(w.stacks) && FramesCounted(w.stacks, w.nextFrame)
    && ReturnsOff(w.stacks, w.nextFrame, w.returned) && LocalsAccounted(w.nodes, w.stacks, w.returned)
    && StaticsExist(w.nodes, w.statics) && FramesIndexed(w.nodes, w.dynamics, w.stacks)
  }

  ghost predicate Inv(w: World) { Core(w) && |w.returned| <= 32 }

  // ----- writes -----

  /** Whatever the index answers is a node of the graph. */
  lemma AnswerExists(w: World, addr: nat, hit: Option<Hit>)
    requires Core(w) && hit.Some? && Answered(w, addr, hit)
    ensures hit.value.meta.node in w.nodes
  {
    var iv :| Registered(w, iv) && iv.Contains(addr) && hit.value == Hit(iv.meta, addr - iv.lo);
    if iv !in w.statics {
      var f :| f in w.dynamics && iv in w.dynamics[f];
      assert FrameIndexed(w.nodes, f, w.dynamics[f]);
    }
  }

  /** Existing nodes may change their contents, and others may be added. */
  lemma IndexSurvives(nodes: map<NodeId, Node>, nodes': map<NodeId, Node>, statics: multiset<Interval>,
                      dynamics: map<nat, seq<Interval>>, stacks: Stacks)
    requires nodes.Keys <= nodes'.Keys && StaticsExist(nodes, statics) && FramesIndexed(nodes, dynamics, stacks)
    ensures StaticsExist(nodes', statics) && FramesIndexed(nodes', dynamics, stacks)
  {
    forall f | f in dynamics ensures FrameIndexed(nodes', f, dynamics[f]) {
      assert FrameIndexed(nodes, f, dynamics[f]);
    }
  }

  /** A write to a known node changes contents only: no node is created, because what the index
      answers exists. */
  lemma StoreInv(w: World, addr: nat, value: nat, size: nat, truncated: bool, hit: Option<Hit>, target: Option<Hit>)
    requires Inv(w) && hit.Some? && Answered(w, addr, hit) && Answered(w, value, target)
    ensures Inv(Store(w, addr, value, size, truncated, hit.value, target))
    ensures Store(w, addr, value, size, truncated, hit.value, target).nodes.Keys == w.nodes.Keys
  {
    var w' := Store(w, addr, value, size, truncated, hit.value, target);
    AnswerExists(w, addr, hit);
    if target.Some? { AnswerExists(w, value, target); }
    assert w'.nodes.Keys == w.nodes.Keys;
    IndexSurvives(w.nodes, w'.nodes, w.statics, w.dynamics, w.stacks);
    forall s | s in w'.edges ensures EdgeJoins(w'.nodes, s, w'.edges[s]) {
      if s in w.edges { assert EdgeJoins(w.nodes, s, w.edges[s]); }
    }
  }

  /** After a pointer-sized write to a pointer the edge holds the node's value, a missing edge
      standing for null, exactly when the event was not truncated or wrote null. */
  lemma EdgeAgreesWithValue(w: World, addr: nat, value: nat, truncated: bool, h: Hit, target: Option<Hit>)
    requires h.meta.typeInfo.isPointer
    ensures var w', id := Store(w, addr, value, 8, truncated, h, target), h.meta.node;
            (if id in w'.edges then w'.edges[id].pointer else 0) == w'.nodes[id].value <==> !truncated || value == 0
  {
  }

  // ----- module loads -----

  lemma RegisterCore(w: World, r: Registration)
    requires Inv(w) && !r.node.Local?
    ensures Inv(Register(w, r))
  {
    var w' := Register(w, r);
    IndexSurvives(w.nodes, w'.nodes, w.statics, w.dynamics, w.stacks);
    forall s | s in w'.edges ensures EdgeJoins(w'.nodes, s, w'.edges[s]) { assert EdgeJoins(w.nodes, s, w.edges[s]); }
  }

  lemma {:induction false} RegisterAllInv(w: World, rs: seq<Registration>)
    requires Inv(w) && forall r :: r in rs ==> !r.node.Local?
    ensures Inv(RegisterAll(w, rs))
    decreases |rs|
  {
    if rs != [] {
      RegisterCore(w, rs[0]);
      RegisterAllInv(Register(w, rs[0]), rs[1..]);
    }
  }

  lemma {:induction false} PopulateInv(w: World, globals: seq<GlobalVar>, delta: nat, from: nat)
    requires Inv(w) && from <= |globals|
    ensures Inv(Populate(w, globals, delta, from))
    decreases |globals| - from
  {
    if from < |globals| {
      var rs := GlobalRegs(globals[from], from, delta);
      GlobalRegsStatic(globals[from], from, delta);
      RegisterAllInv(w, rs);
      PopulateInv(RegisterAll(w, rs), globals, delta, from + 1);
    }
  }

  lemma {:induction false} RegisterAllFrames(w: World, rs: seq<Registration>)
    ensures RegisterAll(w, rs).stacks == w.stacks && RegisterAll(w, rs).nextFrame == w.nextFrame
    decreases |rs|
  {
    if rs != [] { RegisterAllFrames(Register(w, rs[0]), rs[1..]); }
  }

  lemma {:induction false} PopulateFrames(w: World, globals: seq<GlobalVar>, delta: nat, from: nat)
    requires from <= |globals|
    ensures Populate(w, globals, delta, from).stacks == w.stacks
    ensures Populate(w, globals, delta, from).nextFrame == w.nextFrame
    decreases |globals| - from
  {
    if from < |globals| {
      var rs := GlobalRegs(globals[from], from, delta);
      RegisterAllFrames(w, rs);
      PopulateFrames(RegisterAll(w, rs), globals, delta, from + 1);
    }
  }

  // ----- calls -----

  function Push(stacks: Stacks, tid: nat, f: Frame): Stacks {
    stacks[tid := (if tid in stacks then stacks[tid] else []) + [f]]
  }

  lemma PushStacked(stacks: Stacks, tid: nat, f: Frame, x: nat)
    ensures Stacked(Push(stacks, tid, f), x) <==> Stacked(stacks, x) || x == f.id
  {
    var after := Push(stacks, tid, f);
    var top := |after[tid]| - 1;
    assert OnStack(after, tid, top) && IdAt(after, tid, top) == f.id;
    if Stacked(stacks, x) {
      var t, k :| OnStack(stacks, t, k) && IdAt(stacks, t, k) == x;
      assert OnStack(after, t, k) && IdAt(after, t, k) == x;
    }
    if Stacked(after, x) && x != f.id {
      var t, k :| OnStack(after, t, k) && IdAt(after, t, k) == x;
      assert OnStack(stacks, t, k) && IdAt(stacks, t, k) == x;
    }
  }

  lemma PushFrames(stacks: Stacks, tid: nat, f: Frame)
    requires FramesDistinct(stacks) && FramesCounted(stacks, f.id)
    ensures FramesDistinct(Push(stacks, tid, f)) && FramesCounted(Push(stacks, tid, f), f.id + 1)
  {
    var after := Push(stacks, tid, f);
    forall t, k | OnStack(after, t, k)
      ensures if OnStack(stacks, t, k) then IdAt(after, t, k) == IdAt(stacks, t, k) < f.id
              else t == tid && k == |after[tid]| - 1 && IdAt(after, t, k) == f.id
    {
    }
  }

  lemma EnterInv(w: World, tid: nat, pc: nat, frameBase: nat, resolved: nat -> nat, f: Function)
    requires Inv(w)
    ensures Inv(Enter(w, tid, pc, frameBase, resolved, f))
  {
    var w', fid := Enter(w, tid, pc, frameBase, resolved, f), w.nextFrame;
    assert w'.stacks == Push(w.stacks, tid, Frame(fid, pc, f.name));
    PushFrames(w.stacks, tid, Frame(fid, pc, f.name));
    forall x ensures Stacked(w'.stacks, x) <==> Stacked(w.stacks, x) || x == fid {
      PushStacked(w.stacks, tid, Frame(fid, pc, f.name), x);
    }
    forall s | s in w'.edges ensures EdgeJoins(w'.nodes, s, w'.edges[s]) { assert EdgeJoins(w.nodes, s, w.edges[s]); }
    IndexSurvives(w.nodes, w'.nodes, w.statics, w.dynamics, w.stacks);
    EnterIndexed(w, tid, pc, frameBase, resolved, f);
  }

  lemma EnterIndexed(w: World, tid: nat, pc: nat, frameBase: nat, resolved: nat -> nat, f: Function)
    ensures var w' := Enter(w, tid, pc, frameBase, resolved, f);
            w.nextFrame in w'.dynamics && w.nextFrame !in w.dynamics
            ==> FrameIndexed(w'.nodes, w.nextFrame, w'.dynamics[w.nextFrame])
  {
    var fid, ivs := w.nextFrame, FrameIntervals(w.nextFrame, frameBase, f.locals, 0);
    forall iv | iv in ivs ensures exists k: nat :: k < |f.locals| && iv.meta.node == Local(fid, k % U16) {
      IntervalsNameLocals(fid, frameBase, f.locals, 0, iv);
    }
  }

  /** The index names the same local nodes that the call created. */
  lemma {:induction false} IntervalsNameLocals(fid: nat, frameBase: nat, locals: seq<LocalVar>, from: nat, iv: Interval)
    requires from <= |locals| && iv in FrameIntervals(fid, frameBase, locals, from)
    ensures exists k: nat :: k < |locals| && iv.meta.node == Local(fid, k % U16)
    decreases |locals| - from
  {
    if locals[from].size == 0 || iv != LocalInterval(fid, frameBase, from, locals[from]) {
      IntervalsNameLocals(fid, frameBase, locals, from + 1, iv);
    }
  }

  // ----- returns -----

  lemma PopStacked(stacks: Stacks, tid: nat, x: nat)
    requires FramesDistinct(stacks) && OnStack(stacks, tid, 0)
    ensures var stack := stacks[tid];
            Stacked(stacks[tid := stack[..|stack| - 1]], x) <==> Stacked(stacks, x) && x != stack[|stack| - 1].id
  {
    var stack := stacks[tid];
    var after, top := stacks[tid := stack[..|stack| - 1]], |stack| - 1;
    assert OnStack(stacks, tid, top) && IdAt(stacks, tid, top) == stack[top].id;
    if Stacked(stacks, x) && x != stack[top].id {
      var t, k :| OnStack(stacks, t, k) && IdAt(stacks, t, k) == x;
      assert OnStack(after, t, k) && IdAt(after, t, k) == x;
    }
    if Stacked(after, x) {
      var t, k :| OnStack(after, t, k) && IdAt(after, t, k) == x;
      assert OnStack(stacks, t, k) && IdAt(stacks, t, k) == x;
    }
  }

  lemma PopFrames(stacks: Stacks, tid: nat, nextFrame: nat)
    requires FramesDistinct(stacks) && FramesCounted(stacks, nextFrame) && OnStack(stacks, tid, 0)
    ensures var after := stacks[tid := stacks[tid][..|stacks[tid]| - 1]];
            FramesDistinct(after) && FramesCounted(after, nextFrame)
  {
    var after := stacks[tid := stacks[tid][..|stacks[tid]| - 1]];
    forall t, k | OnStack(after, t, k) ensures OnStack(stacks, t, k) && IdAt(after, t, k) == IdAt(stacks, t, k) {}
  }

  lemma PoppedCore(w: World, tid: nat)
    requires Inv(w) && StackOf(w, tid) != []
    ensures Core(Popped(w, tid))
  {
    var w', stack := Popped(w, tid), w.stacks[tid];
    var fid := stack[|stack| - 1].id;
    assert OnStack(w.stacks, tid, |stack| - 1) && IdAt(w.stacks, tid, |stack| - 1) == fid;
    PopFrames(w.stacks, tid, w.nextFrame);
    forall x ensures Stacked(w'.stacks, x) <==> Stacked(w.stacks, x) && x != fid { PopStacked(w.stacks, tid, x); }
    forall f | f in w'.dynamics ensures FrameIndexed(w'.nodes, f, w'.dynamics[f]) {
      assert FrameIndexed(w.nodes, f, w.dynamics[f]);
    }
  }

  /** Forgetting the oldest return removes its nodes, every edge from them and every edge to them. */
  lemma RetireCore(w: World)
    requires Core(w) && w.returned != []
    ensures Core(Retire(w, w.returned[0]).(returned := w.returned[1..]))
  {
    var fid := w.returned[0];
    var w' := Retire(w, fid).(returned := w.returned[1..]);
    forall s | s in w'.edges ensures EdgeJoins(w'.nodes, s, w'.edges[s]) { assert EdgeJoins(w.nodes, s, w.edges[s]); }
    forall f | f in w'.dynamics ensures FrameIndexed(w'.nodes, f, w'.dynamics[f]) {
      assert FrameIndexed(w.nodes, f, w.dynamics[f]) && f != fid;
    }
    forall id | id in w'.nodes && id.Local? ensures Stacked(w'.stacks, id.frame) || id.frame in w'.returned {
      if id.frame in w.returned {
        var i :| 0 <= i < |w.returned| && w.returned[i] == id.frame;
        assert w'.returned[i - 1] == id.frame;
      }
    }
  }

  lemma {:induction false} RetireExcessInv(w: World)
    requires Core(w)
    ensures Inv(RetireExcess(w))
    ensures RetireExcess(w).stacks == w.stacks && RetireExcess(w).nextFrame == w.nextFrame
    decreases |w.returned|
  {
    if |w.returned| > KEPT_FRAMES {
      RetireCore(w);
      RetireExcessInv(Retire(w, w.returned[0]).(returned := w.returned[1..]));
    }
  }

  lemma LeaveInv(w: World, tid: nat)
    requires Inv(w)
    ensures Inv(Leave(w, tid))
    ensures forall x :: Stacked(Leave(w, tid).stacks, x) ==> Stacked(w.stacks, x)
    ensures Leave(w, tid).nextFrame == w.nextFrame
  {
    if StackOf(w, tid) != [] {
      PoppedCore(w, tid);
      RetireExcessInv(Popped(w, tid));
      forall x | Stacked(Leave(w, tid).stacks, x) ensures Stacked(w.stacks, x) { PopStacked(w.stacks, tid, x); }
    }
  }

  // ----- whole runs -----

  lemma ClearedInv(w: World, delta: nat)
    requires Inv(w)
    ensures Inv(Cleared(w, delta))
  {
  }

  lemma ReloadedInv(w: World, globals: seq<GlobalVar>, delta: nat)
    requires Inv(w)
    ensures Inv(Reloaded(w, globals, delta))
  {
    ClearedInv(w, delta);
    PopulateInv(Cleared(w, delta), globals, delta, 0);
  }

  lemma ReloadedFrames(w: World, globals: seq<GlobalVar>, delta: nat)
    ensures Reloaded(w, globals, delta).stacks == w.stacks && Reloaded(w, globals, delta).nextFrame == w.nextFrame
  {
    PopulateFrames(Cleared(w, delta), globals, delta, 0);
  }

  lemma LoadInv(w: World, dwarf: Option<Dwarf>, base: nat)
    requires Inv(w)
    ensures Inv(Load(w, dwarf, base))
  {
    if w.delta.None? && dwarf.Some? { ReloadedInv(w, dwarf.value.globals, Relocation(dwarf.value, base)); }
  }

  lemma ApplyInv(w: World, dwarf: Option<Dwarf>, op: Op)
    requires Inv(w) && Legal(w, op)
    ensures Inv(Apply(w, dwarf, op))
  {
    match op
    case Write(addr, value, size, truncated, hit, target) =>
      if hit.Some? { StoreInv(w, addr, value, size, truncated, hit, target); }
    case Call(tid, pc, frameBase, resolved) =>
      if dwarf.Some? && ElfPc(w, pc) in dwarf.value.functions {
        EnterInv(w, tid, pc, frameBase, resolved, dwarf.value.functions[ElfPc(w, pc)]);
      }
    case Return(tid) => LeaveInv(w, tid);
    case ModuleLoad(base) => LoadInv(w, dwarf, base);
    case Tick =>
  }

  /** The state after the first n events; every answer of the index along the way is legal. */
  function Run(w: World, dwarf: Option<Dwarf>, ops: seq<Op>, n: nat): World
    requires n <= |ops|
  {
    if n == 0 then w else Apply(Run(w, dwarf, ops, n - 1), dwarf, ops[n - 1])
  }

  ghost predicate LegalRun(w: World, dwarf: Option<Dwarf>, ops: seq<Op>) {
    forall k: nat {:trigger Legal(Run(w, dwarf, ops, k), ops[k])} :: k < |ops| ==> Legal(Run(w, dwarf, ops, k), ops[k])
  }

  lemma BeginInv(firstFrame: nat)
    ensures Inv(Begin(firstFrame))
  {
  }

  lemma {:induction false} RunKeepsInv(w: World, dwarf: Option<Dwarf>, ops: seq<Op>, n: nat)
    requires n <= |ops| && Inv(w) && LegalRun(w, dwarf, ops)
    ensures Inv(Run(w, dwarf, ops, n))
  {
    if n > 0 {
      RunKeepsInv(w, dwarf, ops, n - 1);
      assert Legal(Run(w, dwarf, ops, n - 1), ops[n - 1]);
      ApplyInv(Run(w, dwarf, ops, n - 1), dwarf, ops[n - 1]);
    }
  }

  /** From any starting frame number, with any globals registered at the start, every event trace
      keeps the graph, the stacks and the index in step. */
  lemma RunInv(firstFrame: nat, atStart: seq<GlobalVar>, dwarf: Option<Dwarf>, ops: seq<Op>, n: nat)
    requires n <= |ops| && LegalRun(Populate(Begin(firstFrame), atStart, 0, 0), dwarf, ops)
    ensures Inv(Run(Populate(Begin(firstFrame), atStart, 0, 0), dwarf, ops, n))
  {
    BeginInv(firstFrame);
    PopulateInv(Begin(firstFrame), atStart, 0, 0);
    RunKeepsInv(Populate(Begin(firstFrame), atStart, 0, 0), dwarf, ops, n);
  }

  lemma {:induction false} RegisterAllKeepsNodes(w: World, rs: seq<Registration>)
    ensures w.nodes.Keys <= RegisterAll(w, rs).nodes.Keys
    decreases |rs|
  {
    if rs != [] { RegisterAllKeepsNodes(Register(w, rs[0]), rs[1..]); }
  }

  lemma {:induction false} PopulateKeepsNodes(w: World, globals: seq<GlobalVar>, delta: nat, from: nat)
    requires from <= |globals|
    ensures w.nodes.Keys <= Populate(w, globals, delta, from).nodes.Keys
    decreases |globals| - from
  {
    if from < |globals| {
      var rs := GlobalRegs(globals[from], from, delta);
      RegisterAllKeepsNodes(w, rs);
      PopulateKeepsNodes(RegisterAll(w, rs), globals, delta, from + 1);
    }
  }

  /** A return forgets at most one frame, the oldest of 32, and with it exactly that frame's nodes
      and the edges that touch them. */
  lemma LeaveForgets(w: World, tid: nat)
    requires Inv(w) && StackOf(w, tid) != []
    ensures Leave(w, tid) == if |w.returned| < 32 then Popped(w, tid)
                             else Retire(Popped(w, tid), w.returned[0]).(returned := Popped(w, tid).returned[1..])
  {
    if |w.returned| == 32 {
      var r := Retire(Popped(w, tid), w.returned[0]).(returned := Popped(w, tid).returned[1..]);
      assert Popped(w, tid).returned[0] == w.returned[0];
      assert RetireExcess(r) == r;
    }
  }

  lemma LeaveKeepsOthers(w: World, tid: nat, id: NodeId)
    requires Inv(w) && id in w.nodes && id !in Leave(w, tid).nodes
    ensures id.Local? && |w.returned| == 32 && id.frame == w.returned[0]
  {
    if StackOf(w, tid) != [] { LeaveForgets(w, tid); }
  }

  lemma LoadKeepsNodes(w: World, dwarf: Option<Dwarf>, base: nat)
    ensures w.nodes.Keys <= Load(w, dwarf, base).nodes.Keys
  {
    if w.delta.None? && dwarf.Some? {
      var delta := Relocation(dwarf.value, base);
      PopulateKeepsNodes(Cleared(w, delta), dwarf.value.globals, delta, 0);
    }
  }

  /** Nodes leave the graph in one way only: a local, when its frame is the oldest of 32 remembered
      returns and one more function returns. */
  lemma NodesLeaveByRetirement(w: World, dwarf: Option<Dwarf>, op: Op, id: NodeId)
    requires Inv(w) && id in w.nodes && id !in Apply(w, dwarf, op).nodes
    ensures op.Return? && id.Local? && |w.returned| == 32 && id.frame == w.returned[0]
  {
    match op
    case Return(tid) => LeaveKeepsOthers(w, tid, id);
    case ModuleLoad(base) => LoadKeepsNodes(w, dwarf, base);
    case _ =>
  }

  /** One event puts only the frame it numbers on a stack, and only a call numbers one. */
  lemma ApplyFrames(w: World, dwarf: Option<Dwarf>, op: Op, x: nat)
    requires Inv(w) && Legal(w, op)
    ensures var w' := Apply(w, dwarf, op);
            && w.nextFrame <= w'.nextFrame <= w.nextFrame + 1
            && (Stacked(w'.stacks, x) ==> Stacked(w.stacks, x) || (op.Call? && x == w.nextFrame < w'.nextFrame))
  {
    match op
    case Write(_, _, _, _, _, _) =>
    case Call(tid, pc, frameBase, resolved) =>
      if dwarf.Some? && ElfPc(w, pc) in dwarf.value.functions {
        PushStacked(w.stacks, tid, Frame(w.nextFrame, pc, dwarf.value.functions[ElfPc(w, pc)].name), x);
      }
    case Return(tid) => LeaveInv(w, tid);
    case ModuleLoad(base) => LoadFrames(w, dwarf, base);
    case Tick =>
  }

  lemma LoadFrames(w: World, dwarf: Option<Dwarf>, base: nat)
    ensures Load(w, dwarf, base).stacks == w.stacks && Load(w, dwarf, base).nextFrame == w.nextFrame
  {
    if w.delta.None? && dwarf.Some? { ReloadedFrames(w, dwarf.value.globals, Relocation(dwarf.value, base)); }
  }

  /** A frame number is never used again: a frame that was numbered and is off the stacks stays off
      them, whatever happens afterwards. */
  lemma {:induction false} FramesNeverReturn(w: World, dwarf: Option<Dwarf>, ops: seq<Op>, n: nat, fid: nat)
    requires Inv(w) && n <= |ops| && LegalRun(w, dwarf, ops)
    requires fid < w.nextFrame && !Stacked(w.stacks, fid)
    ensures var w' := Run(w, dwarf, ops, n); Inv(w') && fid < w'.nextFrame && !Stacked(w'.stacks, fid)
  {
    if n > 0 {
      FramesNeverReturn(w, dwarf, ops, n - 1, fid);
      var before := Run(w, dwarf, ops, n - 1);
      assert Legal(before, ops[n - 1]);
      ApplyInv(before, dwarf, ops[n - 1]);
      ApplyFrames(before, dwarf, ops[n - 1], fid);
    }
  }
}
