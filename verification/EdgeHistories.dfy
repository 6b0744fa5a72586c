/** Where the pointer edges of the variable graph come from: one write at a time, and over whole event
    traces, in terms of what was written and what the address index answered. */
module EdgeHistories {
  import opened OrderedMap
  import opened Types
  import opened AddressIndexing
  import opened WorldGraph

  /** An eight-byte write to a node of pointer type. */
  predicate PointerWriteTo(op: Op, id: NodeId) {
    && op.Write? && op.hit.Some? && op.hit.value.meta.node == id
    && op.hit.value.meta.typeInfo.isPointer && op.size == 8
  }

  predicate WriteTo(op: Op, id: NodeId) { op.Write? && op.hit.Some? && op.hit.value.meta.node == id }

  /** The edge of such a write: to the node that was answered for the value, or to nowhere. */
  predicate EdgeOf(op: Op, id: NodeId, e: Edge)
    requires op.Write?
  {
    && e.source == id && e.pointer == op.value
    && (e.dangling <==> op.target.None?)
    && e.target == if op.target.Some? then op.target.value.meta.node else Global(0xffff_ffff)
  }

  /** After an eight-byte write to a pointer an edge leaves it exactly when the value is not null, and
      it dangles exactly when nothing was answered for the value; no other edge changes. */
  lemma PointerWriteEdge(w: World, dwarf: Option<Dwarf>, op: Op, id: NodeId)
    requires PointerWriteTo(op, id)
    ensures var w' := Apply(w, dwarf, op);
            && (id in w'.edges <==> op.value != 0)
            && (id in w'.edges ==> EdgeOf(op, id, w'.edges[id]))
            && (forall s :: s != id ==> (s in w'.edges <==> s in w.edges))
            && (forall s :: s != id && s in w.edges ==> w'.edges[s] == w.edges[s])
  {
  }

  /** A write to a node sets its value, null if the event was truncated, and nothing else of the
      nodes; one that is not eight bytes to a pointer leaves every edge alone. */
  lemma WriteValue(w: World, dwarf: Option<Dwarf>, op: Op, id: NodeId)
    requires WriteTo(op, id) && id in w.nodes
    ensures var w' := Apply(w, dwarf, op);
            && w'.nodes.Keys == w.nodes.Keys
            && w'.nodes[id] == w.nodes[id].(value := if op.truncated then 0 else op.value, lastWrite := w.insns)
            && (forall s :: s in w.nodes && s != id ==> w'.nodes[s] == w.nodes[s])
            && (!PointerWriteTo(op, id) ==> w'.edges == w.edges)
  {
  }

  // ----- what takes an edge away -----

  /** A module load that takes effect and names the node among the globals and fields registered. */
  ghost predicate Registers(w: World, dwarf: Option<Dwarf>, op: Op, id: NodeId) {
    && op.ModuleLoad? && w.delta.None? && dwarf.Some?
    && exists i: nat :: i < |dwarf.value.globals| && Names(dwarf.value, op.base, i, id)
  }

  predicate Names(dwarf: Dwarf, base: nat, i: nat, id: NodeId)
    requires i < |dwarf.globals|
  {
    NamedIn(GlobalRegs(dwarf.globals[i], i, Relocation(dwarf, base)), id)
  }

  predicate NamedIn(rs: seq<Registration>, id: NodeId) { exists k :: 0 <= k < |rs| && rs[k].node == id }

  lemma {:induction false} RegisterAllEdges(w: World, rs: seq<Registration>, id: NodeId)
    ensures Renewed(w, RegisterAll(w, rs), id, NamedIn(rs, id))
    decreases |rs|
  {
    if rs != [] {
      RegisterAllEdges(Register(w, rs[0]), rs[1..], id);
      assert NamedIn(rs, id) <==> rs[0].node == id || NamedIn(rs[1..], id) by {
        if NamedIn(rs[1..], id) { var k :| 0 <= k < |rs[1..]| && rs[1..][k].node == id; assert rs[k + 1].node == id; }
        if NamedIn(rs, id) && rs[0].node != id {
          var k :| 0 <= k < |rs| && rs[k].node == id;
          assert rs[1..][k - 1].node == id;
        }
      }
    }
  }

  predicate NamedFrom(globals: seq<GlobalVar>, delta: nat, from: nat, id: NodeId) {
    exists i: nat :: from <= i < |globals| && NamedIn(GlobalRegs(globals[i], i, delta), id)
  }

  lemma NamedFromFirst(globals: seq<GlobalVar>, delta: nat, from: nat, id: NodeId)
    requires from < |globals|
    ensures NamedFrom(globals, delta, from, id)
            <==> NamedIn(GlobalRegs(globals[from], from, delta), id) || NamedFrom(globals, delta, from + 1, id)
  {
  }

  /** The node and its edge after nodes were registered, this one among them or not. */
  predicate Renewed(w: World, w': World, id: NodeId, named: bool) {
    && (id in w'.edges <==> id in w.edges && !named)
    && (id in w'.edges ==> w'.edges[id] == w.edges[id])
    && (id in w.nodes && !named ==> id in w'.nodes && w'.nodes[id] == w.nodes[id])
  }

  lemma {:induction false} PopulateEdges(w: World, globals: seq<GlobalVar>, delta: nat, from: nat, id: NodeId)
    requires from <= |globals|
    ensures Renewed(w, Populate(w, globals, delta, from), id, NamedFrom(globals, delta, from, id))
    decreases |globals| - from
  {
    if from < |globals| {
      var rs := GlobalRegs(globals[from], from, delta);
      RegisterAllEdges(w, rs, id);
      PopulateEdges(RegisterAll(w, rs), globals, delta, from + 1, id);
      NamedFromFirst(globals, delta, from, id);
    }
  }

  lemma LoadEdges(w: World, dwarf: Option<Dwarf>, base: nat, id: NodeId)
    ensures Renewed(w, Load(w, dwarf, base), id, Registers(w, dwarf, ModuleLoad(base), id))
  {
    if w.delta.None? && dwarf.Some? {
      var delta := Relocation(dwarf.value, base);
      PopulateEdges(Cleared(w, delta), dwarf.value.globals, delta, 0, id);
      assert NamedFrom(dwarf.value.globals, delta, 0, id) <==> Registers(w, dwarf, ModuleLoad(base), id) by {
        if NamedFrom(dwarf.value.globals, delta, 0, id) {
          var i: nat :| 0 <= i < |dwarf.value.globals| && NamedIn(GlobalRegs(dwarf.value.globals[i], i, delta), id);
          assert Names(dwarf.value, base, i, id);
        }
        if Registers(w, dwarf, ModuleLoad(base), id) {
          var i: nat :| i < |dwarf.value.globals| && Names(dwarf.value, base, i, id);
          assert NamedIn(GlobalRegs(dwarf.value.globals[i], i, delta), id);
        }
      }
    }
  }

  /** The event spares an edge: its source is not registered anew, and neither its source nor its
      target leaves the graph. */
  ghost predicate Spares(w: World, dwarf: Option<Dwarf>, op: Op, id: NodeId, e: Edge) {
    && !Registers(w, dwarf, op, id) && id in Apply(w, dwarf, op).nodes
    && (e.target.Local? ==> e.target in Apply(w, dwarf, op).nodes)
  }

  lemma LeaveEdges(w: World, tid: nat, id: NodeId)
    requires Inv(w) && id in w.edges && (w.edges[id].dangling ==> !w.edges[id].target.Local?)
    ensures var w', e := Leave(w, tid), w.edges[id];
            && (id in w'.edges <==> id in w'.nodes && (e.target.Local? ==> e.target in w'.nodes))
            && (id in w'.edges ==> w'.edges[id] == e)
  {
    assert EdgeJoins(w.nodes, id, w.edges[id]);
    if StackOf(w, tid) != [] { LeaveForgets(w, tid); }
  }

  lemma NoNewEdge(w: World, tid: nat, id: NodeId)
    requires Inv(w) && id !in w.edges
    ensures id !in Leave(w, tid).edges
  {
    if StackOf(w, tid) != [] { LeaveForgets(w, tid); }
  }

  /** The edge from a node over one event: kept as it is, or gone. */
  predicate Kept(edges: map<NodeId, Edge>, edges': map<NodeId, Edge>, id: NodeId, spared: bool) {
    (id in edges' <==> id in edges && spared) && (id in edges' ==> edges'[id] == edges[id])
  }

  lemma OtherWrite(w: World, dwarf: Option<Dwarf>, op: Op, id: NodeId)
    requires Inv(w) && Legal(w, op) && op.Write? && !PointerWriteTo(op, id)
    ensures Apply(w, dwarf, op).nodes.Keys == w.nodes.Keys
    ensures Kept(w.edges, Apply(w, dwarf, op).edges, id, true)
  {
    if op.hit.Some? { StoreInv(w, op.addr, op.value, op.size, op.truncated, op.hit, op.target); }
  }

  lemma CallKeepsNodes(w: World, dwarf: Option<Dwarf>, op: Op)
    requires op.Call? || op.Tick?
    ensures w.nodes.Keys <= Apply(w, dwarf, op).nodes.Keys && Apply(w, dwarf, op).edges == w.edges
  {
  }

  /** Any event but such a write keeps an edge exactly when it spares it, and makes none. */
  lemma OtherEvents(w: World, dwarf: Option<Dwarf>, op: Op, id: NodeId)
    requires Inv(w) && Legal(w, op) && !PointerWriteTo(op, id)
    requires id in w.edges && w.edges[id].dangling ==> !w.edges[id].target.Local?
    ensures Kept(w.edges, Apply(w, dwarf, op).edges, id, id in w.edges && Spares(w, dwarf, op, id, w.edges[id]))
  {
    if id in w.edges { assert EdgeJoins(w.nodes, id, w.edges[id]); }
    match op
    case Write(_, _, _, _, _, _) => OtherWrite(w, dwarf, op, id);
    case Return(tid) => if id in w.edges { LeaveEdges(w, tid, id); } else { NoNewEdge(w, tid, id); }
    case ModuleLoad(base) =>
      LoadEdges(w, dwarf, base, id);
      LoadKeepsNodes(w, dwarf, base);
    case _ => CallKeepsNodes(w, dwarf, op);
  }

  // ----- whole traces -----

  /** Every event of the stretch spares the edge. */
  ghost predicate AllSpare(w: World, dwarf: Option<Dwarf>, ops: seq<Op>, k: nat, n: nat, id: NodeId, e: Edge)
    requires n <= |ops|
  {
    forall j: nat :: k < j < n ==> Spares(Run(w, dwarf, ops, j), dwarf, ops[j], id, e)
  }

  lemma OtherEventAt(w: World, dwarf: Option<Dwarf>, ops: seq<Op>, j: nat, id: NodeId)
    requires Inv(w) && LegalRun(w, dwarf, ops) && j < |ops| && !PointerWriteTo(ops[j], id)
    requires var edges := Run(w, dwarf, ops, j).edges; id in edges && edges[id].dangling ==> !edges[id].target.Local?
    ensures var before := Run(w, dwarf, ops, j);
            Kept(before.edges, Run(w, dwarf, ops, j + 1).edges, id,
                 id in before.edges && Spares(before, dwarf, ops[j], id, before.edges[id]))
  {
    RunKeepsInv(w, dwarf, ops, j);
    assert Legal(Run(w, dwarf, ops, j), ops[j]);
    OtherEvents(Run(w, dwarf, ops, j), dwarf, ops[j], id);
  }

  /** The edge from the node is this one, or there is none. */
  predicate Has(edges: map<NodeId, Edge>, id: NodeId, e: Edge, there: bool) {
    (id in edges <==> there) && (id in edges ==> edges[id] == e)
  }

  lemma AfterWrite(w: World, dwarf: Option<Dwarf>, ops: seq<Op>, k: nat, id: NodeId, e: Edge)
    requires k < |ops| && PointerWriteTo(ops[k], id) && EdgeOf(ops[k], id, e)
    ensures Has(Run(w, dwarf, ops, k + 1).edges, id, e, ops[k].value != 0)
    ensures e.dangling ==> !e.target.Local?
  {
    PointerWriteEdge(Run(w, dwarf, ops, k), dwarf, ops[k], id);
  }

  lemma AfterOther(w: World, dwarf: Option<Dwarf>, ops: seq<Op>, j: nat, id: NodeId, e: Edge, there: bool)
    requires Inv(w) && LegalRun(w, dwarf, ops) && j < |ops| && !PointerWriteTo(ops[j], id)
    requires Has(Run(w, dwarf, ops, j).edges, id, e, there) && (e.dangling ==> !e.target.Local?)
    ensures Has(Run(w, dwarf, ops, j + 1).edges, id, e, there && Spares(Run(w, dwarf, ops, j), dwarf, ops[j], id, e))
  {
    OtherEventAt(w, dwarf, ops, j, id);
  }

  lemma SparesMore(w: World, dwarf: Option<Dwarf>, ops: seq<Op>, k: nat, n: nat, id: NodeId, e: Edge)
    requires k < n < |ops|
    ensures AllSpare(w, dwarf, ops, k, n + 1, id, e)
            <==> AllSpare(w, dwarf, ops, k, n, id, e) && Spares(Run(w, dwarf, ops, n), dwarf, ops[n], id, e)
  {
  }

  /** Over any trace, since the last eight-byte write to a pointer: the edge that leaves it is that
      write's, and it is there exactly when the write was not of null and no event since has
      registered the pointer anew or removed it or its target. */
  lemma {:induction false} EdgeIsLastWrites(w: World, dwarf: Option<Dwarf>, ops: seq<Op>, k: nat, n: nat, id: NodeId, e: Edge)
    requires Inv(w) && LegalRun(w, dwarf, ops) && k < n <= |ops|
    requires PointerWriteTo(ops[k], id) && EdgeOf(ops[k], id, e)
    requires forall j :: k < j < n ==> !PointerWriteTo(ops[j], id)
    ensures Has(Run(w, dwarf, ops, n).edges, id, e, ops[k].value != 0 && AllSpare(w, dwarf, ops, k, n, id, e))
    decreases n
  {
    AfterWrite(w, dwarf, ops, k, id, e);
    if n > k + 1 {
      EdgeIsLastWrites(w, dwarf, ops, k, n - 1, id, e);
      AfterOther(w, dwarf, ops, n - 1, id, e, ops[k].value != 0 && AllSpare(w, dwarf, ops, k, n - 1, id, e));
      SparesMore(w, dwarf, ops, k, n - 1, id, e);
    }
  }

  /** A pointer that was never written has no edge. */
  lemma {:induction false} NoWriteNoEdge(w: World, dwarf: Option<Dwarf>, ops: seq<Op>, n: nat, id: NodeId)
    requires Inv(w) && LegalRun(w, dwarf, ops) && n <= |ops| && id !in w.edges
    requires forall j :: 0 <= j < n ==> !PointerWriteTo(ops[j], id)
    ensures id !in Run(w, dwarf, ops, n).edges
  {
    if n > 0 {
      NoWriteNoEdge(w, dwarf, ops, n - 1, id);
      OtherEventAt(w, dwarf, ops, n - 1, id);
    }
  }
}
