/** The heap graph (`engine/src/heap_graph.rs`): objects inferred from clusters of nearby writes, a
    reverse map from written addresses to the object they belong to, and pointer edges. */
module HeapGraphs {
  import opened OrderedMap
  import opened TypeConfidence
  import opened Words

  const CLUSTER_WINDOW: nat := 64
  const CLUSTER_RADIUS: nat := 256
  const MIN_CLUSTER_WRITES: nat := 3

  datatype Write = Write(addr: nat, size: nat, value: nat, at: nat)
  {
    /** An eight-byte value in the user address range. */
    predicate StoresPointer() { size == 8 && 0x1000 <= value < 0x0100_0000_0000_0000 }
  }

  datatype HeapEdge = HeapEdge(source: nat, target: nat, offset: nat, lastSeq: nat, writeCount: nat)

  datatype HeapObject = HeapObject(
    base: nat, size: nat, belief: Belief, fields: map<nat, HeapField>, edges: seq<HeapEdge>,
    firstSeq: nat, lastSeq: nat)

  /** `owner` is the reverse map, written address to object base. */
  datatype Graph = Graph(
    objects: map<nat, HeapObject>, owner: map<nat, nat>, recent: seq<Write>, rescores: nat, contradictions: nat)

  const EMPTY: Graph := Graph(map[], map[], [], 0, 0)

  // ----- what every reachable graph satisfies -----

  predicate EdgesDistinct(edges: seq<HeapEdge>) {
    forall i, j :: 0 <= i < j < |edges| ==> edges[i].offset != edges[j].offset
  }

  /** Each edge leaves from a field of the object. */
  predicate EdgesLeaveFields(base: nat, o: HeapObject) {
    forall k :: 0 <= k < |o.edges| ==> o.edges[k].offset in o.fields && o.edges[k].source == base + o.edges[k].offset
  }

  predicate HasEdge(edges: seq<HeapEdge>, offset: nat, target: nat) {
    exists k :: 0 <= k < |edges| && edges[k].offset == offset && edges[k].target == target
  }

  /** Each field that last held a pointer has the edge to what it held. */
  predicate PointersHaveEdges(o: HeapObject) {
    forall off :: off in o.fields && o.fields[off].isPointer ==> HasEdge(o.edges, off, o.fields[off].lastValue)
  }

  /** An object sits under its own base; it has at most one edge per field, and the right one for
      each field that holds a pointer. */
  predicate WellFormed(base: nat, o: HeapObject) {
    o.base == base && EdgesDistinct(o.edges) && EdgesLeaveFields(base, o) && PointersHaveEdges(o)
  }

  /** The reverse map leads from an address to a live object with a field there. */
  predicate Owned(g: Graph, addr: nat)
    requires addr in g.owner
  {
    g.owner[addr] in g.objects && g.owner[addr] <= addr && addr - g.owner[addr] in g.objects[g.owner[addr]].fields
  }

  predicate Linked(g: Graph) {
    && (forall addr :: addr in g.owner ==> Owned(g, addr))
    && (forall base :: base in g.objects ==> WellFormed(base, g.objects[base]))
    && |g.recent| <= CLUSTER_WINDOW
  }

  ghost predicate Believable(g: Graph, cands: seq<Candidate>) {
    forall base :: base in g.objects ==> Sound(g.objects[base].belief, cands)
  }

  // ----- finding the object of an address -----

  /** Reverse map first, then the object with the greatest base at or below the address. */
  function FindBase(g: Graph, addr: nat): Option<nat> {
    if addr in g.owner then Some(g.owner[addr])
    else match Floor(g.objects.Keys, addr)
      case Some(base) => if addr < g.objects[base].base + g.objects[base].size then Some(base) else None
      case None => None
  }

  /** In a linked graph the search only ever names a live object at or below the address, so
      taking it out of the map cannot fail and the field offset cannot underflow. */
  lemma FoundIsLive(g: Graph, addr: nat)
    requires Linked(g) && FindBase(g, addr).Some?
    ensures FindBase(g, addr).value in g.objects && FindBase(g, addr).value <= addr
  {
    if addr in g.owner { assert Owned(g, addr); }
  }

  // ----- a write into a known object -----

  function Recorded(fields: map<nat, HeapField>, offset: nat, w: Write): map<nat, HeapField> {
    var count := if offset in fields then fields[offset].writeCount + 1 else 1;
    var size := if offset in fields then fields[offset].size else w.size;
    fields[offset := HeapField(size, w.value, w.StoresPointer(), count, w.at)]
  }

  function EdgeAt(edges: seq<HeapEdge>, offset: nat): (k: nat)
    ensures k <= |edges|
    ensures k < |edges| ==> edges[k].offset == offset
    ensures forall i :: 0 <= i < k ==> edges[i].offset != offset
  {
    if edges == [] || edges[0].offset == offset then 0 else 1 + EdgeAt(edges[1..], offset)
  }

  function PutEdge(edges: seq<HeapEdge>, offset: nat, w: Write): seq<HeapEdge> {
    var k := EdgeAt(edges, offset);
    if k < |edges|
    then edges[k := edges[k].(target := w.value, lastSeq := w.at, writeCount := edges[k].writeCount + 1)]
    else edges + [HeapEdge(w.addr, w.value, offset, w.at, 1)]
  }

  /** Recording a write in an object and moving its edge. */
  function Revised(o: HeapObject, offset: nat, w: Write): HeapObject {
    o.(fields := Recorded(o.fields, offset, w), lastSeq := w.at,
       edges := if w.StoresPointer() then PutEdge(o.edges, offset, w) else o.edges)
  }

  /** `cands` is None when no layouts are known. */
  function Judged(o: HeapObject, cands: Option<seq<Candidate>>, offset: nat, w: Write): Outcome {
    if cands.None? then Outcome(o.belief, false, false)
    else Update(o.belief, cands.value, o.fields, o.size, offset, w.size, w.StoresPointer(), w.at)
  }

  function Count(b: bool): nat { if b then 1 else 0 }

  /** Put an object back with its new belief and count what happened to it. */
  function Installed(g: Graph, base: nat, o: HeapObject, judged: Outcome): Graph {
    g.(objects := g.objects[base := o.(belief := judged.belief)],
       rescores := g.rescores + Count(judged.rescored),
       contradictions := g.contradictions + Count(judged.contradicted))
  }

  function WriteInto(g: Graph, cands: Option<seq<Candidate>>, base: nat, w: Write): Graph
    requires base in g.objects && base <= w.addr
  {
    var offset := w.addr - base;
    var o := Revised(g.objects[base], offset, w);
    Installed(g, base, o, Judged(o, cands, offset, w))
  }

  // ----- a cluster of recent writes becomes an object -----

  function Dist(a: nat, b: nat): nat { if a <= b then b - a else a - b }

  function Nearby(recent: seq<Write>, addr: nat, n: nat): (r: seq<Write>)
    requires n <= |recent|
    ensures |r| <= n
    ensures forall k :: 0 <= k < |r| ==> r[k] in recent && Dist(r[k].addr, addr) <= CLUSTER_RADIUS
  {
    if n == 0 then []
    else
      var before := Nearby(recent, addr, n - 1);
      if Dist(recent[n - 1].addr, addr) <= CLUSTER_RADIUS then before + [recent[n - 1]] else before
  }

  function LowestAddr(ws: seq<Write>, n: nat): (r: nat)
    requires 0 < n <= |ws|
    ensures forall k :: 0 <= k < n ==> r <= ws[k].addr
    ensures exists k :: 0 <= k < n && r == ws[k].addr
  {
    if n == 1 then ws[0].addr
    else
      var r := LowestAddr(ws, n - 1);
      if ws[n - 1].addr < r then ws[n - 1].addr else r
  }

  function HighestEnd(ws: seq<Write>, n: nat): (r: nat)
    requires 0 < n <= |ws|
    ensures forall k :: 0 <= k < n ==> ws[k].addr + ws[k].size <= r
    ensures exists k :: 0 <= k < n && r == ws[k].addr + ws[k].size
  {
    if n == 1 then ws[0].addr + ws[0].size
    else
      var r := HighestEnd(ws, n - 1);
      if ws[n - 1].addr + ws[n - 1].size > r then ws[n - 1].addr + ws[n - 1].size else r
  }

  function EarliestSeq(ws: seq<Write>, n: nat): nat
    requires 0 < n <= |ws|
  {
    if n == 1 then ws[0].at
    else
      var r := EarliestSeq(ws, n - 1);
      if ws[n - 1].at < r then ws[n - 1].at else r
  }

  predicate Written(ws: seq<Write>, n: nat, addr: nat)
    requires n <= |ws|
  {
    exists k :: 0 <= k < n && ws[k].addr == addr
  }

  /** The fields of a cluster, in the order of its writes. */
  function Gathered(ws: seq<Write>, base: nat, n: nat): map<nat, HeapField>
    requires n <= |ws| && forall k :: 0 <= k < |ws| ==> base <= ws[k].addr
  {
    if n == 0 then map[] else Recorded(Gathered(ws, base, n - 1), ws[n - 1].addr - base, ws[n - 1])
  }

  lemma {:induction false} GatheredAt(ws: seq<Write>, base: nat, n: nat, off: nat)
    requires n <= |ws| && forall k :: 0 <= k < |ws| ==> base <= ws[k].addr
    ensures off in Gathered(ws, base, n) <==> Written(ws, n, base + off)
    ensures off in Gathered(ws, base, n) && Gathered(ws, base, n)[off].isPointer
            ==> Gathered(ws, base, n)[off].lastValue != 0
  {
    if n > 0 {
      GatheredAt(ws, base, n - 1, off);
      if ws[n - 1].addr == base + off {
        assert Written(ws, n, base + off);
      } else {
        assert Written(ws, n, base + off) <==> Written(ws, n - 1, base + off);
      }
    }
  }

  /** Every written address of the cluster now belongs to the new object, whoever had it before. */
  function Claimed(owner: map<nat, nat>, ws: seq<Write>, base: nat, n: nat): map<nat, nat>
    requires n <= |ws|
  {
    if n == 0 then owner else Claimed(owner, ws, base, n - 1)[ws[n - 1].addr := base]
  }

  lemma {:induction false} ClaimedAt(owner: map<nat, nat>, ws: seq<Write>, base: nat, n: nat, addr: nat)
    requires n <= |ws|
    ensures addr in Claimed(owner, ws, base, n) <==> addr in owner || Written(ws, n, addr)
    ensures addr in Claimed(owner, ws, base, n)
            ==> Claimed(owner, ws, base, n)[addr] == if Written(ws, n, addr) then base else owner[addr]
  {
    if n > 0 {
      ClaimedAt(owner, ws, base, n - 1, addr);
      if ws[n - 1].addr == addr {
        assert Written(ws, n, addr);
      } else {
        assert Written(ws, n, addr) <==> Written(ws, n - 1, addr);
      }
    }
  }

  /** Edges of the pointer fields at offsets below n, by offset. */
  function PointerEdges(fields: map<nat, HeapField>, base: nat, n: nat): (r: seq<HeapEdge>)
    ensures forall k :: 0 <= k < |r| ==> r[k].offset < n && r[k].offset in fields && r[k].source == base + r[k].offset
    ensures forall i, j :: 0 <= i < j < |r| ==> r[i].offset < r[j].offset
  {
    if n == 0 then []
    else
      var before, off := PointerEdges(fields, base, n - 1), n - 1;
      if off in fields && fields[off].isPointer && fields[off].lastValue != 0
      then before + [HeapEdge(base + off, fields[off].lastValue, off, fields[off].lastSeq, 1)]
      else before
  }

  /** No cluster reaches further than this from its base. */
  const SPAN: nat := 2 * CLUSTER_RADIUS + 1

  function Cluster(g: Graph, ws: seq<Write>, at: nat): Graph
    requires 0 < |ws|
  {
    var base := LowestAddr(ws, |ws|);
    if base in g.objects then g
    else
      var extent := HighestEnd(ws, |ws|) - base;
      var fields := Gathered(ws, base, |ws|);
      var o := HeapObject(base, if extent >= 8 then extent else 8, NO_BELIEF, fields,
                          PointerEdges(fields, base, SPAN), EarliestSeq(ws, |ws|), at);
      g.(objects := g.objects[base := o], owner := Claimed(g.owner, ws, base, |ws|))
  }

  /** No two writes of a cluster are further apart than twice the radius. */
  predicate Compact(ws: seq<Write>) {
    forall i, j :: 0 <= i < |ws| && 0 <= j < |ws| ==> ws[i].addr < ws[j].addr + SPAN
  }

  lemma NearbyCompact(recent: seq<Write>, addr: nat)
    ensures Compact(Nearby(recent, addr, |recent|))
  {
  }

  /** The span covers every field, so no pointer field is left without its edge. */
  lemma {:induction false} PointerEdgesComplete(fields: map<nat, HeapField>, base: nat, n: nat, off: nat)
    requires off < n && off in fields && fields[off].isPointer && fields[off].lastValue != 0
    ensures HasEdge(PointerEdges(fields, base, n), off, fields[off].lastValue)
  {
    var r := PointerEdges(fields, base, n);
    if off < n - 1 {
      PointerEdgesComplete(fields, base, n - 1, off);
      var before := PointerEdges(fields, base, n - 1);
      var k :| 0 <= k < |before| && before[k].offset == off && before[k].target == fields[off].lastValue;
      assert r[k] == before[k];
    } else {
      assert r[|r| - 1].offset == off;
    }
  }

  // ----- the operations -----

  function Noted(recent: seq<Write>, w: Write): (r: seq<Write>)
    ensures |recent| <= CLUSTER_WINDOW ==> 0 < |r| <= CLUSTER_WINDOW && r[|r| - 1] == w
  {
    var r := recent + [w];
    if |r| > CLUSTER_WINDOW then r[1..] else r
  }

  function Stored(g: Graph, cands: Option<seq<Candidate>>, w: Write): Graph
    requires Linked(g)
  {
    var g1 := g.(recent := Noted(g.recent, w));
    match FindBase(g, w.addr)
    case Some(base) =>
      FoundIsLive(g, w.addr);
      WriteInto(g1, cands, base, w)
    case None =>
      var ws := Nearby(g1.recent, w.addr, |g1.recent|);
      if |ws| >= MIN_CLUSTER_WRITES then Cluster(g1, ws, w.at) else g1
  }

  predicate FreedBy(base: nat, addr: nat, size: nat) {
    addr <= base < SatAdd(addr, size)
  }

  predicate StaleAt(o: HeapObject, current: nat, maxAge: nat) {
    o.lastSeq < if current >= maxAge then current - maxAge else 0
  }

  function Freed(g: Graph, addr: nat, size: nat): set<nat> {
    set base | base in g.objects && FreedBy(base, addr, size)
  }

  function Stale(g: Graph, current: nat, maxAge: nat): set<nat> {
    set base | base in g.objects && StaleAt(g.objects[base], current, maxAge)
  }

  /** The addresses of an object's own fields. */
  function Slots(o: HeapObject, base: nat): set<nat> {
    set off | off in o.fields :: base + off
  }

  /** Removal through the field lists of the removed objects, whoever owns those addresses now. */
  function Without(g: Graph, gone: set<nat>): Graph {
    g.(objects := g.objects - gone,
       owner := map a | a in g.owner
                        && (forall base :: base in gone && base in g.objects ==> a !in Slots(g.objects[base], base))
                      :: g.owner[a])
  }

  datatype Op = Store(w: Write) | Free(addr: nat, size: nat) | Collect(current: nat, maxAge: nat)

  function Apply(g: Graph, cands: Option<seq<Candidate>>, op: Op): Graph
    requires Linked(g)
  {
    match op
    case Store(w) => Stored(g, cands, w)
    case Free(addr, size) => Without(g, Freed(g, addr, size))
    case Collect(current, maxAge) => Without(g, Stale(g, current, maxAge))
  }

  // ----- every operation keeps the graph linked -----

  lemma PutEdgeKeeps(edges: seq<HeapEdge>, offset: nat, w: Write, off: nat, target: nat)
    requires off != offset && HasEdge(edges, off, target)
    ensures HasEdge(PutEdge(edges, offset, w), off, target)
  {
    var k :| 0 <= k < |edges| && edges[k].offset == off && edges[k].target == target;
    assert PutEdge(edges, offset, w)[k] == edges[k];
  }

  lemma PutEdgePlaces(edges: seq<HeapEdge>, offset: nat, w: Write)
    ensures HasEdge(PutEdge(edges, offset, w), offset, w.value)
  {
    var r, k := PutEdge(edges, offset, w), EdgeAt(edges, offset);
    assert r[k].offset == offset && r[k].target == w.value;
  }

  lemma RevisedWellFormed(base: nat, o: HeapObject, offset: nat, w: Write)
    requires WellFormed(base, o) && w.addr == base + offset
    ensures WellFormed(base, Revised(o, offset, w)) && o.fields.Keys <= Revised(o, offset, w).fields.Keys
  {
    var r := Revised(o, offset, w);
    forall off | off in r.fields && r.fields[off].isPointer
      ensures HasEdge(r.edges, off, r.fields[off].lastValue)
    {
      if off == offset {
        PutEdgePlaces(o.edges, offset, w);
      } else if w.StoresPointer() {
        PutEdgeKeeps(o.edges, offset, w, off, o.fields[off].lastValue);
      }
    }
  }

  /** An object may be replaced by one with more fields. */
  lemma {:induction false} InstalledLinked(g: Graph, base: nat, o: HeapObject, judged: Outcome)
    requires Linked(g) && base in g.objects && WellFormed(base, o) && g.objects[base].fields.Keys <= o.fields.Keys
    ensures Linked(Installed(g, base, o, judged))
  {
    var g' := Installed(g, base, o, judged);
    assert g'.objects[base].edges == o.edges && g'.objects[base].fields == o.fields;
    forall a | a in g'.owner ensures Owned(g', a) { assert Owned(g, a); }
  }

  /** However the write is judged, it installs the revised object. */
  lemma {:induction false} WriteIntoShape(g: Graph, cands: Option<seq<Candidate>>, base: nat, w: Write)
    returns (judged: Outcome)
    requires base in g.objects && base <= w.addr
    ensures WriteInto(g, cands, base, w) == Installed(g, base, Revised(g.objects[base], w.addr - base, w), judged)
  {
    judged := Judged(Revised(g.objects[base], w.addr - base, w), cands, w.addr - base, w);
  }

  lemma {:induction false} RevisedInstalled(g: Graph, base: nat, w: Write, judged: Outcome)
    requires Linked(g) && base in g.objects && base <= w.addr
    ensures Linked(Installed(g, base, Revised(g.objects[base], w.addr - base, w), judged))
  {
    assert WellFormed(base, g.objects[base]);
    RevisedWellFormed(base, g.objects[base], w.addr - base, w);
    InstalledLinked(g, base, Revised(g.objects[base], w.addr - base, w), judged);
  }

  lemma {:induction false} WriteIntoLinked(g: Graph, cands: Option<seq<Candidate>>, base: nat, w: Write)
    requires Linked(g) && base in g.objects && base <= w.addr
    ensures Linked(WriteInto(g, cands, base, w))
  {
    var judged := WriteIntoShape(g, cands, base, w);
    RevisedInstalled(g, base, w, judged);
  }

  lemma {:induction false} ClusterObjectWellFormed(g: Graph, ws: seq<Write>, at: nat)
    requires 0 < |ws| && Compact(ws) && LowestAddr(ws, |ws|) !in g.objects
    ensures var base := LowestAddr(ws, |ws|); WellFormed(base, Cluster(g, ws, at).objects[base])
  {
    var base := LowestAddr(ws, |ws|);
    var o := Cluster(g, ws, at).objects[base];
    forall off | off in o.fields && o.fields[off].isPointer
      ensures HasEdge(o.edges, off, o.fields[off].lastValue)
    {
      GatheredAt(ws, base, |ws|, off);
      PointerEdgesComplete(o.fields, base, SPAN, off);
    }
  }

  /** Addresses claimed by the new object are its fields, the others stay where they were. */
  lemma {:induction false} ClusterOwned(g: Graph, ws: seq<Write>, at: nat, addr: nat)
    requires Linked(g) && 0 < |ws| && LowestAddr(ws, |ws|) !in g.objects && addr in Cluster(g, ws, at).owner
    ensures Owned(Cluster(g, ws, at), addr)
  {
    var base := LowestAddr(ws, |ws|);
    ClaimedAt(g.owner, ws, base, |ws|, addr);
    if Written(ws, |ws|, addr) {
      GatheredAt(ws, base, |ws|, addr - base);
    } else {
      assert Owned(g, addr);
    }
  }

  lemma {:induction false} ClusterLinked(g: Graph, ws: seq<Write>, at: nat)
    requires Linked(g) && 0 < |ws| && Compact(ws)
    ensures Linked(Cluster(g, ws, at))
  {
    var g', base := Cluster(g, ws, at), LowestAddr(ws, |ws|);
    if base !in g.objects {
      ClusterObjectWellFormed(g, ws, at);
      forall a | a in g'.owner ensures Owned(g', a) { ClusterOwned(g, ws, at, a); }
    }
  }

  /** Removal leaves no address pointing at a removed object, although clusters overlap and an
      object's field list may name addresses that another object has claimed since. */
  lemma WithoutLinked(g: Graph, gone: set<nat>)
    requires Linked(g)
    ensures Linked(Without(g, gone))
    ensures forall a :: a in Without(g, gone).owner ==> Without(g, gone).owner[a] !in gone
  {
    var g' := Without(g, gone);
    forall a | a in g'.owner ensures Owned(g', a) && g'.owner[a] !in gone {
      assert Owned(g, a);
      var base := g.owner[a];
      assert a in Slots(g.objects[base], base) by { assert a == base + (a - base); }
    }
  }

  lemma ApplyLinked(g: Graph, cands: Option<seq<Candidate>>, op: Op)
    requires Linked(g)
    ensures Linked(Apply(g, cands, op))
  {
    match op {
      case Store(w) =>
        var g1 := g.(recent := Noted(g.recent, w));
        forall a | a in g1.owner ensures Owned(g1, a) { assert Owned(g, a); }
        if FindBase(g, w.addr).Some? {
          FoundIsLive(g, w.addr);
          WriteIntoLinked(g1, cands, FindBase(g, w.addr).value, w);
        } else {
          var ws := Nearby(g1.recent, w.addr, |g1.recent|);
          NearbyCompact(g1.recent, w.addr);
          if |ws| >= MIN_CLUSTER_WRITES { ClusterLinked(g1, ws, w.at); }
        }
      case Free(addr, size) => WithoutLinked(g, Freed(g, addr, size));
      case Collect(current, maxAge) => WithoutLinked(g, Stale(g, current, maxAge));
    }
  }

  /** Every step also keeps every object's type belief sound. */
  lemma ApplyBelievable(g: Graph, cands: seq<Candidate>, op: Op)
    requires Linked(g) && Believable(g, cands)
    ensures Believable(Apply(g, Some(cands), op), cands)
  {
    if op.Store? {
      var g1 := g.(recent := Noted(g.recent, op.w));
      if FindBase(g, op.w.addr).Some? {
        FoundIsLive(g, op.w.addr);
        WriteIntoBelievable(g1, cands, FindBase(g, op.w.addr).value, op.w);
      }
    }
  }

  lemma JudgedSound(o: HeapObject, cands: seq<Candidate>, offset: nat, w: Write)
    requires Sound(o.belief, cands)
    ensures Sound(Judged(o, Some(cands), offset, w).belief, cands)
  {
    UpdateSound(o.belief, cands, o.fields, o.size, offset, w.size, w.StoresPointer(), w.at);
  }

  lemma WriteIntoSound(g: Graph, cands: seq<Candidate>, base: nat, w: Write) returns (o: HeapObject, judged: Outcome)
    requires base in g.objects && base <= w.addr && Sound(g.objects[base].belief, cands)
    ensures Sound(judged.belief, cands) && WriteInto(g, Some(cands), base, w) == Installed(g, base, o, judged)
  {
    o := Revised(g.objects[base], w.addr - base, w);
    judged := Judged(o, Some(cands), w.addr - base, w);
    JudgedSound(o, cands, w.addr - base, w);
  }

  lemma WriteIntoBelievable(g: Graph, cands: seq<Candidate>, base: nat, w: Write)
    requires Believable(g, cands) && base in g.objects && base <= w.addr
    ensures Believable(WriteInto(g, Some(cands), base, w), cands)
  {
    var o, judged := WriteIntoSound(g, cands, base, w);
    InstalledBelievable(g, cands, base, o, judged);
  }

  lemma InstalledBelievable(g: Graph, cands: seq<Candidate>, base: nat, o: HeapObject, judged: Outcome)
    requires Believable(g, cands) && Sound(judged.belief, cands)
    ensures Believable(Installed(g, base, o, judged), cands)
  {
  }

  // ----- the graph remembers the last write -----

  /** Field `offset` of the object at `base` is exactly what this write left there. */
  predicate Remembers(g: Graph, base: nat, w: Write) {
    && base in g.objects && base <= w.addr && w.addr - base in g.objects[base].fields
    && var f := g.objects[base].fields[w.addr - base];
       f.lastValue == w.value && f.isPointer == w.StoresPointer() && f.lastSeq == w.at && g.objects[base].lastSeq == w.at
  }

  lemma NearbyEndsWith(recent: seq<Write>, w: Write)
    requires recent != [] && recent[|recent| - 1] == w
    ensures var ws := Nearby(recent, w.addr, |recent|); ws != [] && ws[|ws| - 1] == w
  {
  }

  lemma {:induction false} ClusterRemembers(g: Graph, ws: seq<Write>, w: Write)
    requires Linked(g) && ws != [] && ws[|ws| - 1] == w && FindBase(g, w.addr).None?
    ensures var g' := Cluster(g, ws, w.at);
            FindBase(g', w.addr).Some? ==> Remembers(g', FindBase(g', w.addr).value, w)
  {
    var base := LowestAddr(ws, |ws|);
    if base !in g.objects {
      assert Written(ws, |ws|, w.addr);
      ClaimedAt(g.owner, ws, base, |ws|, w.addr);
    }
  }

  /** Whatever object the written address resolves to after a write, known before or just
      clustered, its field there holds that write. */
  lemma WriteIsRemembered(g: Graph, cands: Option<seq<Candidate>>, w: Write)
    requires Linked(g)
    ensures var g' := Stored(g, cands, w);
            FindBase(g', w.addr).Some? ==> Remembers(g', FindBase(g', w.addr).value, w)
  {
    var g1 := g.(recent := Noted(g.recent, w));
    assert FindBase(g1, w.addr) == FindBase(g, w.addr);
    if FindBase(g, w.addr).Some? {
      FoundIsLive(g, w.addr);
      WriteIntoRemembers(g1, cands, FindBase(g, w.addr).value, w);
    } else {
      assert Linked(g1) by { forall a | a in g1.owner ensures Owned(g1, a) { assert Owned(g, a); } }
      NearbyEndsWith(g1.recent, w);
      ClusterRemembers(g1, Nearby(g1.recent, w.addr, |g1.recent|), w);
    }
  }

  lemma WriteIntoRemembers(g: Graph, cands: Option<seq<Candidate>>, base: nat, w: Write)
    requires FindBase(g, w.addr) == Some(base) && base in g.objects && base <= w.addr
    ensures var g' := WriteInto(g, cands, base, w); FindBase(g', w.addr) == Some(base) && Remembers(g', base, w)
  {
    var g' := WriteInto(g, cands, base, w);
    assert g'.objects.Keys == g.objects.Keys;
  }

  // ----- whole runs -----

  function Run(cands: Option<seq<Candidate>>, ops: seq<Op>, n: nat): (g: Graph)
    requires n <= |ops|
    ensures Linked(g)
  {
    if n == 0 then EMPTY
    else
      var g := Run(cands, ops, n - 1);
      ApplyLinked(g, cands, ops[n - 1]);
      Apply(g, cands, ops[n - 1])
  }

  /** In every reachable graph each object's confidence is a fraction, and the object is named
      exactly when it is at least one half, by the layout on top. */
  lemma {:induction false} RunBelievable(cands: seq<Candidate>, ops: seq<Op>, n: nat)
    requires n <= |ops|
    ensures Believable(Run(Some(cands), ops, n), cands)
  {
    if n > 0 {
      RunBelievable(cands, ops, n - 1);
      ApplyBelievable(Run(Some(cands), ops, n - 1), cands, ops[n - 1]);
    }
  }

  // ----- when an edge is current -----

  predicate HasField(g: Graph, base: nat, off: nat) {
    base in g.objects && off in g.objects[base].fields && EdgeAt(g.objects[base].edges, off) < |g.objects[base].edges|
  }

  /** The target of the edge of a field, and what the field last held. */
  function Target(g: Graph, base: nat, off: nat): nat
    requires HasField(g, base, off)
  {
    g.objects[base].edges[EdgeAt(g.objects[base].edges, off)].target
  }

  function Held(g: Graph, base: nat, off: nat): nat
    requires HasField(g, base, off)
  {
    g.objects[base].fields[off].lastValue
  }

  /** The store is recorded in this field of this object. */
  predicate Hits(g: Graph, op: Op, base: nat, off: nat) {
    op.Store? && FindBase(g, op.w.addr) == Some(base) && op.w.addr == base + off
  }

  lemma {:induction false} PutEdgeElsewhere(edges: seq<HeapEdge>, offset: nat, w: Write, off: nat)
    requires off != offset && EdgeAt(edges, off) < |edges|
    ensures EdgeAt(PutEdge(edges, offset, w), off) == EdgeAt(edges, off)
    ensures PutEdge(edges, offset, w)[EdgeAt(edges, off)] == edges[EdgeAt(edges, off)]
  {
    var r, k := PutEdge(edges, offset, w), EdgeAt(edges, off);
    EdgeAtIs(r, off, k);
  }

  lemma {:induction false} EdgeAtIs(edges: seq<HeapEdge>, off: nat, k: nat)
    requires k < |edges| && edges[k].offset == off && forall i :: 0 <= i < k ==> edges[i].offset != off
    ensures EdgeAt(edges, off) == k
  {
    if k > 0 { EdgeAtIs(edges[1..], off, k - 1); }
  }

  lemma {:induction false} PutEdgeHere(edges: seq<HeapEdge>, offset: nat, w: Write)
    ensures var r := PutEdge(edges, offset, w); EdgeAt(r, offset) < |r| && r[EdgeAt(r, offset)].target == w.value
  {
    EdgeAtIs(PutEdge(edges, offset, w), offset, EdgeAt(edges, offset));
  }

  /** One write to a field that has an edge: afterwards the edge points to what the field holds
      exactly when the write stored a pointer, or the very value the edge pointed to already. */
  lemma {:induction false} RevisedEdgeCurrent(o: HeapObject, offset: nat, w: Write)
    requires EdgeAt(o.edges, offset) < |o.edges|
    ensures var r := Revised(o, offset, w);
            && EdgeAt(r.edges, offset) < |r.edges|
            && (r.edges[EdgeAt(r.edges, offset)].target == r.fields[offset].lastValue
                <==> w.StoresPointer() || o.edges[EdgeAt(o.edges, offset)].target == w.value)
  {
    if w.StoresPointer() { PutEdgeHere(o.edges, offset, w); }
  }

  /** The edge and the held value of a field after a write to its object. */
  lemma {:induction false} RevisedField(o: HeapObject, offset: nat, w: Write, off: nat)
    requires off in o.fields && EdgeAt(o.edges, off) < |o.edges|
    ensures var r := Revised(o, offset, w);
            && off in r.fields && EdgeAt(r.edges, off) < |r.edges|
            && r.fields[off].lastValue == (if offset == off then w.value else o.fields[off].lastValue)
            && r.edges[EdgeAt(r.edges, off)].target
               == (if offset == off && w.StoresPointer() then w.value else o.edges[EdgeAt(o.edges, off)].target)
  {
    if w.StoresPointer() {
      if offset == off { PutEdgeHere(o.edges, off, w); } else { PutEdgeElsewhere(o.edges, offset, w, off); }
    }
  }

  /** An operation that does not write into the object leaves it as it is, while it lives. */
  lemma {:induction false} OthersUntouched(g: Graph, cands: Option<seq<Candidate>>, op: Op, base: nat)
    requires Linked(g) && base in g.objects && base in Apply(g, cands, op).objects
    requires op.Store? ==> FindBase(g, op.w.addr) != Some(base)
    ensures Apply(g, cands, op).objects[base] == g.objects[base]
  {
    if op.Store? && FindBase(g, op.w.addr).Some? { FoundIsLive(g, op.w.addr); }
  }

  lemma {:induction false} WrittenIsRevised(g: Graph, cands: Option<seq<Candidate>>, w: Write, base: nat)
    requires Linked(g) && FindBase(g, w.addr) == Some(base)
    ensures base in g.objects && base <= w.addr && base in Stored(g, cands, w).objects
    ensures var r, o := Revised(g.objects[base], w.addr - base, w), Stored(g, cands, w).objects[base];
            o.edges == r.edges && o.fields == r.fields
  {
    FoundIsLive(g, w.addr);
  }

  /** What one operation does to a field that has an edge: a write recorded there changes what is
      held, and the edge only if it stores a pointer. */
  predicate FieldMoves(g: Graph, hit: bool, w: Write, g': Graph, base: nat, off: nat) {
    && HasField(g, base, off) && HasField(g', base, off)
    && Held(g', base, off) == (if hit then w.value else Held(g, base, off))
    && Target(g', base, off) == (if hit && w.StoresPointer() then w.value else Target(g, base, off))
  }

  lemma {:induction false} HitMoves(g: Graph, g': Graph, w: Write, base: nat, off: nat)
    requires HasField(g, base, off) && base <= w.addr && base in g'.objects
    requires var r, o := Revised(g.objects[base], w.addr - base, w), g'.objects[base];
             o.edges == r.edges && o.fields == r.fields
    ensures FieldMoves(g, w.addr == base + off, w, g', base, off)
  {
    RevisedField(g.objects[base], w.addr - base, w, off);
  }

  lemma {:induction false} MissMoves(g: Graph, g': Graph, w: Write, base: nat, off: nat)
    requires HasField(g, base, off) && base in g'.objects && g'.objects[base] == g.objects[base]
    ensures FieldMoves(g, false, w, g', base, off)
  {
  }

  const NO_WRITE: Write := Write(0, 0, 0, 0)

  function WriteOf(op: Op): Write { if op.Store? then op.w else NO_WRITE }

  lemma {:induction false} FieldHit(g: Graph, cands: Option<seq<Candidate>>, w: Write, base: nat, off: nat)
    requires Linked(g) && HasField(g, base, off) && FindBase(g, w.addr) == Some(base)
    ensures FieldMoves(g, w.addr == base + off, w, Stored(g, cands, w), base, off)
  {
    WrittenIsRevised(g, cands, w, base);
    HitMoves(g, Stored(g, cands, w), w, base, off);
  }

  lemma {:induction false} FieldMiss(g: Graph, cands: Option<seq<Candidate>>, op: Op, base: nat, off: nat)
    requires Linked(g) && HasField(g, base, off) && base in Apply(g, cands, op).objects
    requires op.Store? ==> FindBase(g, op.w.addr) != Some(base)
    ensures FieldMoves(g, false, WriteOf(op), Apply(g, cands, op), base, off)
  {
    OthersUntouched(g, cands, op, base);
    MissMoves(g, Apply(g, cands, op), WriteOf(op), base, off);
  }

  lemma {:induction false} FieldStep(g: Graph, cands: Option<seq<Candidate>>, op: Op, base: nat, off: nat)
    requires Linked(g) && HasField(g, base, off) && base in Apply(g, cands, op).objects
    ensures FieldMoves(g, Hits(g, op, base, off), WriteOf(op), Apply(g, cands, op), base, off)
  {
    if op.Store? && FindBase(g, op.w.addr) == Some(base) {
      FieldHit(g, cands, op.w, base, off);
    } else {
      FieldMiss(g, cands, op, base, off);
    }
  }

  /** Graphs one operation apart, from any linked graph on. */
  predicate Steps(g: Graph, cands: Option<seq<Candidate>>, op: Op, g': Graph) {
    Linked(g) && g' == Apply(g, cands, op)
  }

  predicate IsTrace(cands: Option<seq<Candidate>>, gs: seq<Graph>, ops: seq<Op>) {
    |gs| == |ops| + 1 && forall i :: 0 <= i < |ops| ==> Steps(gs[i], cands, ops[i], gs[i + 1])
  }

  /** The marked ones of the first n writes. */
  function Marked(hits: seq<bool>, ws: seq<Write>, n: nat): seq<Write>
    requires n <= |hits| == |ws|
  {
    if n == 0 then [] else Marked(hits, ws, n - 1) + if hits[n - 1] then [ws[n - 1]] else []
  }

  function WritesOf(ops: seq<Op>): (r: seq<Write>)
    ensures |r| == |ops|
  {
    seq(|ops|, i requires 0 <= i < |ops| => WriteOf(ops[i]))
  }

  function HitsOf(gs: seq<Graph>, ops: seq<Op>, base: nat, off: nat): (r: seq<bool>)
    requires |ops| < |gs|
    ensures |r| == |ops|
  {
    seq(|ops|, i requires 0 <= i < |ops| => Hits(gs[i], ops[i], base, off))
  }

  /** The writes recorded in a field by the first n operations of a trace, in order. */
  function WrittenTo(gs: seq<Graph>, ops: seq<Op>, base: nat, off: nat, n: nat): seq<Write>
    requires n <= |ops| < |gs|
  {
    Marked(HitsOf(gs, ops, base, off), WritesOf(ops), n)
  }

  function LastValue(ws: seq<Write>, otherwise: nat): nat {
    if ws == [] then otherwise else ws[|ws| - 1].value
  }

  function LastPointer(ws: seq<Write>, otherwise: nat): nat {
    if ws == [] then otherwise
    else if ws[|ws| - 1].StoresPointer() then ws[|ws| - 1].value
    else LastPointer(ws[..|ws| - 1], otherwise)
  }

  /** What a field holds and what its edge points to, one write after the other. */
  lemma {:induction false} LastOnes(hits: seq<bool>, ws: seq<Write>, held: seq<nat>, target: seq<nat>, n: nat)
    requires n <= |hits| == |ws| && |held| == |target| == |ws| + 1
    requires forall i :: 0 <= i < |ws| ==>
               && held[i + 1] == (if hits[i] then ws[i].value else held[i])
               && target[i + 1] == (if hits[i] && ws[i].StoresPointer() then ws[i].value else target[i])
    ensures held[n] == LastValue(Marked(hits, ws, n), held[0])
    ensures target[n] == LastPointer(Marked(hits, ws, n), target[0])
  {
    if n > 0 {
      LastOnes(hits, ws, held, target, n - 1);
      var before := Marked(hits, ws, n - 1);
      if hits[n - 1] {
        assert (before + [ws[n - 1]])[..|before|] == before;
      } else {
        assert before + [] == before;
      }
    }
  }

  lemma {:induction false} FieldStays(cands: Option<seq<Candidate>>, gs: seq<Graph>, ops: seq<Op>, base: nat, off: nat, n: nat)
    requires n <= |ops| && IsTrace(cands, gs, ops) && HasField(gs[0], base, off)
    requires forall i :: 0 <= i < |gs| ==> base in gs[i].objects
    ensures HasField(gs[n], base, off)
  {
    if n > 0 {
      FieldStays(cands, gs, ops, base, off, n - 1);
      assert Steps(gs[n - 1], cands, ops[n - 1], gs[n]);
      FieldStep(gs[n - 1], cands, ops[n - 1], base, off);
    }
  }

  lemma {:induction false} TraceMoves(cands: Option<seq<Candidate>>, gs: seq<Graph>, ops: seq<Op>, base: nat, off: nat, i: nat)
    requires i < |ops| && IsTrace(cands, gs, ops) && HasField(gs[i], base, off) && base in gs[i + 1].objects
    ensures FieldMoves(gs[i], HitsOf(gs, ops, base, off)[i], WritesOf(ops)[i], gs[i + 1], base, off)
  {
    assert Steps(gs[i], cands, ops[i], gs[i + 1]);
    FieldStep(gs[i], cands, ops[i], base, off);
  }

  /** Over any trace, while the object lives: the field holds the last value written to it, and its
      edge points to the last pointer written to it. */
  lemma {:induction false} EdgeHistory(
    cands: Option<seq<Candidate>>, gs: seq<Graph>, ops: seq<Op>, base: nat, off: nat, n: nat)
    requires n <= |ops| && IsTrace(cands, gs, ops) && HasField(gs[0], base, off)
    requires forall i :: 0 <= i < |gs| ==> base in gs[i].objects
    ensures HasField(gs[n], base, off)
    ensures Held(gs[n], base, off) == LastValue(WrittenTo(gs, ops, base, off, n), Held(gs[0], base, off))
    ensures Target(gs[n], base, off) == LastPointer(WrittenTo(gs, ops, base, off, n), Target(gs[0], base, off))
  {
    forall i: nat | i < |gs| ensures HasField(gs[i], base, off) { FieldStays(cands, gs, ops, base, off, i); }
    var held := seq(|gs|, i requires 0 <= i < |gs| && HasField(gs[i], base, off) => Held(gs[i], base, off));
    var target := seq(|gs|, i requires 0 <= i < |gs| && HasField(gs[i], base, off) => Target(gs[i], base, off));
    var hits, ws := HitsOf(gs, ops, base, off), WritesOf(ops);
    forall i | 0 <= i < |ws|
      ensures held[i + 1] == (if hits[i] then ws[i].value else held[i])
      ensures target[i + 1] == (if hits[i] && ws[i].StoresPointer() then ws[i].value else target[i])
    {
      TraceMoves(cands, gs, ops, base, off, i);
    }
    LastOnes(hits, ws, held, target, n);
  }

  /** So an edge that was current is current later exactly when the last write to its field, if
      there was one, repeats the last pointer written there: a plain value written over a pointer
      leaves a stale edge behind, until a pointer is written or the object goes. */
  lemma {:induction false} EdgeCurrentExactly(
    cands: Option<seq<Candidate>>, gs: seq<Graph>, ops: seq<Op>, base: nat, off: nat, n: nat)
    requires n <= |ops| && IsTrace(cands, gs, ops) && HasField(gs[0], base, off)
    requires forall i :: 0 <= i < |gs| ==> base in gs[i].objects
    requires Target(gs[0], base, off) == Held(gs[0], base, off)
    ensures HasField(gs[n], base, off)
    ensures var ws := WrittenTo(gs, ops, base, off, n);
            Target(gs[n], base, off) == Held(gs[n], base, off)
            <==> ws == [] || ws[|ws| - 1].value == LastPointer(ws, Target(gs[0], base, off))
  {
    EdgeHistory(cands, gs, ops, base, off, n);
  }

  lemma {:induction false} RunSteps(cands: Option<seq<Candidate>>, ops: seq<Op>, n: nat)
    requires n < |ops|
    ensures Steps(Run(cands, ops, n), cands, ops[n], Run(cands, ops, n + 1))
  {
  }

  /** Any stretch of a run from the empty graph is such a trace. */
  lemma {:induction false} RunIsTrace(cands: Option<seq<Candidate>>, ops: seq<Op>, gs: seq<Graph>, m: nat)
    requires m <= |ops| && |gs| == |ops| - m + 1
    requires forall i :: 0 <= i < |gs| ==> gs[i] == Run(cands, ops, m + i)
    ensures IsTrace(cands, gs, ops[m..])
  {
    forall i | 0 <= i < |ops| - m ensures Steps(gs[i], cands, ops[m..][i], gs[i + 1]) {
      RunSteps(cands, ops, m + i);
    }
  }

  // ----- the loops of the engine -----

  method CollectNearby(recent: seq<Write>, addr: nat) returns (ws: seq<Write>)
    ensures ws == Nearby(recent, addr, |recent|)
  {
    ws := [];
    for k := 0 to |recent|
      invariant ws == Nearby(recent, addr, k)
    {
      if Dist(recent[k].addr, addr) <= CLUSTER_RADIUS { ws := ws + [recent[k]]; }
    }
  }

  method Extent(ws: seq<Write>) returns (base: nat, end: nat, first: nat)
    requires 0 < |ws|
    ensures base == LowestAddr(ws, |ws|) && end == HighestEnd(ws, |ws|) && first == EarliestSeq(ws, |ws|)
  {
    base, end, first := ws[0].addr, ws[0].addr + ws[0].size, ws[0].at;
    for k := 1 to |ws|
      invariant base == LowestAddr(ws, k) && end == HighestEnd(ws, k) && first == EarliestSeq(ws, k)
    {
      if ws[k].addr < base { base := ws[k].addr; }
      if ws[k].addr + ws[k].size > end { end := ws[k].addr + ws[k].size; }
      if ws[k].at < first { first := ws[k].at; }
    }
  }

  method ListPointerEdges(fields: map<nat, HeapField>, base: nat) returns (edges: seq<HeapEdge>)
    ensures edges == PointerEdges(fields, base, SPAN)
  {
    edges := [];
    for off := 0 to SPAN
      invariant edges == PointerEdges(fields, base, off)
    {
      if off in fields && fields[off].isPointer && fields[off].lastValue != 0 {
        edges := edges + [HeapEdge(base + off, fields[off].lastValue, off, fields[off].lastSeq, 1)];
      }
    }
  }

  class HeapGraph {
    var objects: map<nat, HeapObject>
    var addrToBase: map<nat, nat>
    var recentWrites: seq<Write>
    var rescores: nat
    var contradictions: nat
    const candidates: Option<seq<Candidate>>

    /** Layouts are taken once, before any event; an empty list counts as none. */
    constructor (layouts: seq<Candidate>)
      ensures View() == EMPTY && Linked(View())
      ensures objects == map[] && addrToBase == map[] && recentWrites == [] && rescores == contradictions == 0
      ensures candidates == if layouts == [] then None else Some(layouts)
    {
      objects, addrToBase, recentWrites, rescores, contradictions := map[], map[], [], 0, 0;
      candidates := if layouts == [] then None else Some(layouts);
    }

    ghost function View(): Graph
      reads this
    {
      Graph(objects, addrToBase, recentWrites, rescores, contradictions)
    }

    method FindObjectBase(addr: nat) returns (r: Option<nat>)
      ensures r == FindBase(View(), addr)
    {
      if addr in addrToBase { return Some(addrToBase[addr]); }
      r := Floor(objects.Keys, addr);
      if r.Some? && addr >= objects[r.value].base + objects[r.value].size { r := None; }
    }

    method UpdateEdge(base: nat, offset: nat, w: Write)
      requires base in objects
      modifies this`objects
      ensures objects == old(objects)[base := old(objects)[base].(edges := PutEdge(old(objects)[base].edges, offset, w))]
    {
      var o := objects[base];
      var k := EdgeAt(o.edges, offset);
      if k < |o.edges| {
        var e := o.edges[k].(target := w.value, lastSeq := w.at, writeCount := o.edges[k].writeCount + 1);
        objects := objects[base := o.(edges := o.edges[k := e])];
      } else {
        objects := objects[base := o.(edges := o.edges + [HeapEdge(w.addr, w.value, offset, w.at, 1)])];
      }
    }

    /** The belief of an object after a write that is already recorded in it. */
    method Judge(o: HeapObject, offset: nat, w: Write) returns (belief: Belief)
      modifies this`rescores, this`contradictions
      ensures var judged := Judged(o, candidates, offset, w);
              && belief == judged.belief
              && rescores == old(rescores) + Count(judged.rescored)
              && contradictions == old(contradictions) + Count(judged.contradicted)
    {
      belief := o.belief;
      if candidates.Some? {
        var rescored, contradicted;
        belief, rescored, contradicted := UpdateConfidence(
          o.belief, candidates.value, o.fields, o.size, offset, w.size, w.StoresPointer(), w.at);
        rescores := rescores + Count(rescored);
        contradictions := contradictions + Count(contradicted);
      }
    }

    method UpdateObject(base: nat, w: Write)
      requires base in objects && base <= w.addr
      modifies this
      ensures View() == WriteInto(old(View()), candidates, base, w)
    {
      var offset, o := w.addr - base, objects[base];
      o := o.(fields := Recorded(o.fields, offset, w), lastSeq := w.at);
      var belief := Judge(o, offset, w);
      objects := objects[base := o.(belief := belief)];
      if w.StoresPointer() { UpdateEdge(base, offset, w); }
    }

    method AddCluster(ws: seq<Write>, at: nat)
      requires 0 < |ws|
      modifies this`objects, this`addrToBase
      ensures View() == Cluster(old(View()), ws, at)
    {
      var base, end, first := Extent(ws);
      if base in objects { return; }
      var size := if end - base >= 8 then end - base else 8;
      var fields: map<nat, HeapField> := map[];
      for k := 0 to |ws|
        invariant fields == Gathered(ws, base, k) && addrToBase == Claimed(old(addrToBase), ws, base, k)
        invariant objects == old(objects)
      {
        addrToBase := addrToBase[ws[k].addr := base];
        fields := Recorded(fields, ws[k].addr - base, ws[k]);
      }
      var edges := ListPointerEdges(fields, base);
      objects := objects[base := HeapObject(base, size, NO_BELIEF, fields, edges, first, at)];
    }

    method ProcessWrite(w: Write)
      requires Linked(View())
      modifies this
      ensures Linked(View()) && View() == Stored(old(View()), candidates, w)
    {
      ApplyLinked(View(), candidates, Store(w));
      recentWrites := Noted(recentWrites, w);
      var found := FindObjectBase(w.addr);
      assert found == FindBase(old(View()), w.addr);
      if found.Some? {
        FoundIsLive(old(View()), w.addr);
        UpdateObject(found.value, w);
      } else {
        var ws := CollectNearby(recentWrites, w.addr);
        if |ws| >= MIN_CLUSTER_WRITES { AddCluster(ws, w.at); }
      }
    }

    /** Remove objects one by one, each with the reverse entries of its own fields. */
    method Remove(gone: set<nat>)
      requires gone <= objects.Keys
      modifies this`objects, this`addrToBase
      ensures View() == Without(old(View()), gone)
    {
      var rest := gone;
      while rest != {}
        invariant rest <= gone
        invariant objects == old(objects) - (gone - rest)
        invariant addrToBase == Without(old(View()), gone - rest).owner
        decreases |rest|
      {
        var base :| base in rest;
        addrToBase := addrToBase - Slots(objects[base], base);
        objects := objects - {base};
        rest := rest - {base};
      }
      assert gone - rest == gone;
    }

    method OnFree(addr: nat, size: nat)
      requires Linked(View())
      modifies this
      ensures Linked(View()) && View() == Apply(old(View()), candidates, Free(addr, size))
    {
      ApplyLinked(View(), candidates, Free(addr, size));
      var hi := SatAdd(addr, size);
      var gone := set base | base in objects && addr <= base < hi;
      assert gone == Freed(View(), addr, size);
      Remove(gone);
    }

    method GcStale(current: nat, maxAge: nat)
      requires Linked(View())
      modifies this
      ensures Linked(View()) && View() == Apply(old(View()), candidates, Collect(current, maxAge))
    {
      ApplyLinked(View(), candidates, Collect(current, maxAge));
      var threshold := if current >= maxAge then current - maxAge else 0;
      var gone := set base | base in objects && objects[base].lastSeq < threshold;
      assert gone == Stale(View(), current, maxAge);
      Remove(gone);
    }
  }
}
