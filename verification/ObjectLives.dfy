/** What a write leaves in a known heap object and which objects are given up
    (`engine/src/heap_graph.rs`), field by field and object by object. */
module ObjectLives {
  import opened OrderedMap
  import opened TypeConfidence
  import opened HeapGraphs

  // ----- a write into a known object -----

  /** An eight-byte value from the second page up to 2^56. */
  predicate LooksLikePointer(w: Write) { w.size == 8 && 4096 <= w.value < 0x100_0000_0000_0000 }

  /** The field after a write: the size is that of the first write to it, everything else of this one. */
  predicate FieldAfter(fields: map<nat, HeapField>, off: nat, w: Write, f: HeapField) {
    && f.size == (if off in fields then fields[off].size else w.size)
    && f.lastValue == w.value && f.lastSeq == w.at && (f.isPointer <==> LooksLikePointer(w))
    && f.writeCount == 1 + if off in fields then fields[off].writeCount else 0
  }

  /** A write to an address that resolves to an object is recorded in the field there and nowhere
      else; the base, the size and the first sequence number of the object stay. */
  lemma {:induction false} WriteRecords(g: Graph, cands: Option<seq<Candidate>>, w: Write, base: nat)
    requires Linked(g) && FindBase(g, w.addr) == Some(base)
    ensures var g' := Stored(g, cands, w);
            && base in g.objects && base <= w.addr && g'.objects.Keys == g.objects.Keys && g'.owner == g.owner
            && (forall b :: b in g.objects && b != base ==> g'.objects[b] == g.objects[b])
            && var o, o', off := g.objects[base], g'.objects[base], w.addr - base;
               && o'.base == o.base && o'.size == o.size && o'.firstSeq == o.firstSeq && o'.lastSeq == w.at
               && off in o'.fields && FieldAfter(o.fields, off, w, o'.fields[off])
               && (forall x :: x != off ==> (x in o'.fields <==> x in o.fields))
               && (forall x :: x != off && x in o.fields ==> o'.fields[x] == o.fields[x])
               && (!LooksLikePointer(w) ==> o'.edges == o.edges)
  {
    FoundIsLive(g, w.addr);
    var judged := WriteIntoShape(g.(recent := Noted(g.recent, w)), cands, base, w);
  }

  predicate EdgeAfter(e: HeapEdge, w: Write, off: nat, count: nat) {
    e.source == w.addr && e.target == w.value && e.offset == off && e.lastSeq == w.at && e.writeCount == count
  }

  /** A pointer written to a field takes over the edge of the field, or adds one; the other edges
      stay, in their order. */
  lemma {:induction false} PointerEdgeMoves(edges: seq<HeapEdge>, off: nat, w: Write)
    requires EdgesDistinct(edges) && forall k :: 0 <= k < |edges| && edges[k].offset == off ==> edges[k].source == w.addr
    ensures var r := PutEdge(edges, off, w);
            && (forall k :: 0 <= k < |edges| && edges[k].offset != off ==> r[k] == edges[k])
            && (forall k :: 0 <= k < |edges| && edges[k].offset == off ==>
                  |r| == |edges| && EdgeAfter(r[k], w, off, edges[k].writeCount + 1))
            && ((forall k :: 0 <= k < |edges| ==> edges[k].offset != off) ==>
                  |r| == |edges| + 1 && EdgeAfter(r[|edges|], w, off, 1))
  {
  }

  /** Without layouts to compare with, no belief is formed and nothing is counted. */
  lemma {:induction false} NoLayoutsNoBelief(g: Graph, w: Write)
    requires Linked(g)
    ensures var g' := Stored(g, None, w);
            && g'.rescores == g.rescores && g'.contradictions == g.contradictions
            && forall b :: b in g.objects ==> b in g'.objects && g'.objects[b].belief == g.objects[b].belief
  {
    if FindBase(g, w.addr).Some? { FoundIsLive(g, w.addr); }
  }

  // ----- objects given up -----

  /** Some object that was there and is not any more had a field at the address. */
  predicate FieldLost(g: Graph, g': Graph, addr: nat) {
    exists b :: b in g.objects && b !in g'.objects && FieldAtAddress(g.objects[b], b, addr)
  }

  predicate FieldAtAddress(o: HeapObject, base: nat, addr: nat) { base <= addr && addr - base in o.fields }

  /** Objects stay as they are or go, and the reverse entries of the fields of those that go, also
      where another object has claimed the address since. */
  ghost predicate OnlyLoses(g: Graph, g': Graph) {
    && g'.objects.Keys <= g.objects.Keys && (forall b :: b in g'.objects ==> g'.objects[b] == g.objects[b])
    && (forall a :: a in g'.owner <==> a in g.owner && !FieldLost(g, g', a))
    && (forall a :: a in g'.owner ==> g'.owner[a] == g.owner[a])
    && g'.recent == g.recent && g'.rescores == g.rescores && g'.contradictions == g.contradictions
  }

  lemma {:induction false} WithoutLoses(g: Graph, gone: set<nat>)
    requires gone <= g.objects.Keys
    ensures OnlyLoses(g, Without(g, gone)) && Without(g, gone).objects.Keys == g.objects.Keys - gone
  {
    var g' := Without(g, gone);
    forall a | a in g.owner
      ensures FieldLost(g, g', a) <==> exists b :: b in gone && b in g.objects && a in Slots(g.objects[b], b)
    {
      if b :| b in gone && b in g.objects && a in Slots(g.objects[b], b) { assert FieldAtAddress(g.objects[b], b, a); }
      if b :| b in g.objects && b !in g'.objects && FieldAtAddress(g.objects[b], b, a) {
        assert a == b + (a - b);
        assert a in Slots(g.objects[b], b);
      }
    }
  }

  /** A free takes exactly the objects that start in the freed range, whose end stops at the top of the
      address space. */
  lemma {:induction false} FreeLoses(g: Graph, cands: Option<seq<Candidate>>, addr: nat, size: nat, base: nat)
    requires Linked(g)
    ensures var g' := Apply(g, cands, Free(addr, size));
            && OnlyLoses(g, g')
            && (base in g'.objects <==>
                  base in g.objects && !(addr <= base < addr + size && base < 0xffff_ffff_ffff_ffff))
  {
    WithoutLoses(g, Freed(g, addr, size));
  }

  /** A collection takes exactly the objects last written more than the age ago. */
  lemma {:induction false} CollectLoses(g: Graph, cands: Option<seq<Candidate>>, current: nat, maxAge: nat, base: nat)
    requires Linked(g)
    ensures var g' := Apply(g, cands, Collect(current, maxAge));
            && OnlyLoses(g, g')
            && (base in g'.objects <==> base in g.objects && current <= g.objects[base].lastSeq + maxAge)
  {
    WithoutLoses(g, Stale(g, current, maxAge));
  }
}
