/** Where the retrospective scan finds pointers (`retrospective_scan` in `engine/src/world.rs`), said
    without the scan's own functions. */
module FollowedPointers {
  import opened OrderedMap
  import opened Types
  import opened ShadowTypes
  import opened RetrospectiveScan
  import opened PropagatedTypes
  import Births = ClusterBirths
  import Heap = HeapGraphs

  /** The heap graph remembers a value other than null at this distance from the address: the object
      that the address resolves to has a field there. */
  predicate Remembered(g: Heap.Graph, base: nat, offset: nat, v: nat) {
    exists owner: nat :: owner in g.objects && RememberedBy(g, base, offset, v, owner)
  }

  predicate RememberedBy(g: Heap.Graph, base: nat, offset: nat, v: nat, owner: nat)
    requires owner in g.objects
  {
    && Births.ResolvesTo(g, base, owner) && owner <= base
    && base - owner + offset in g.objects[owner].fields
    && g.objects[owner].fields[base - owner + offset].lastValue == v && v != 0
  }

  /** The target's memory, if it can be read, holds a value other than null at the wrapped address. */
  predicate InMemory(memory: Option<map<nat, nat>>, base: nat, offset: nat, v: nat) {
    && memory.Some? && v != 0
    && var at := (base + offset) % 0x1_0000_0000_0000_0000;
       at in memory.value && memory.value[at] == v
  }

  /** The value of a field: what the heap graph remembers, or else what is in memory. */
  ghost predicate Holds(src: Sources, base: nat, offset: nat, v: nat) {
    if exists u :: Remembered(src.heap, base, offset, u) then Remembered(src.heap, base, offset, v)
    else InMemory(src.memory, base, offset, v)
  }

  lemma RememberedIs(g: Heap.Graph, base: nat, offset: nat, v: nat)
    requires Heap.Linked(g) && base < 0x1_0000_0000_0000_0000
    ensures Remembered(g, base, offset, v) <==> HeapValue(g, base, offset) == Some(v)
  {
    var found := Heap.FindBase(g, base);
    if found.Some? {
      Heap.FoundIsLive(g, base);
      Births.FindBaseResolves(g, base, found.value);
      assert (base - found.value) % 0x1_0000_0000_0000_0000 == base - found.value;
      if HeapValue(g, base, offset) == Some(v) { assert RememberedBy(g, base, offset, v, found.value); }
    }
    if Remembered(g, base, offset, v) {
      var owner: nat :| owner in g.objects && RememberedBy(g, base, offset, v, owner);
      Births.FindBaseResolves(g, base, owner);
    }
  }

  lemma HoldsIs(src: Sources, base: nat, f: FieldInfo, v: nat)
    requires Heap.Linked(src.heap) && base < 0x1_0000_0000_0000_0000
    ensures Holds(src, base, f.byteOffset, v) <==> FieldValue(src, base, f) == Some(v)
  {
    var held := HeapValue(src.heap, base, f.byteOffset);
    RememberedIs(src.heap, base, f.byteOffset, v);
    if held.Some? { RememberedIs(src.heap, base, f.byteOffset, held.value); }
    if u :| Remembered(src.heap, base, f.byteOffset, u) { RememberedIs(src.heap, base, f.byteOffset, u); }
  }

  /** A value is taken for a pointer if an allocation starts there or, when memory can be read, if it
      is a multiple of eight above the first page. */
  predicate Believed(src: Sources, v: nat) {
    v in src.env.allocs || (src.memory.Some? && v > 4096 && v % 8 == 0)
  }

  /** A field leads somewhere exactly when it is a pointer of eight bytes, it holds a believed value,
      and what it points to is registered; the target is that value with that type, under the field's
      name. */
  lemma FollowMeaning(src: Sources, base: nat, f: FieldInfo, t: Target)
    requires Heap.Linked(src.heap) && base < 0x1_0000_0000_0000_0000
    ensures Follow(src, base, f) == Some(t)
            <==> f.byteSize == 8 && f.typeInfo.isPointer && t.name == f.name
                 && Holds(src, base, f.byteOffset, t.addr) && Believed(src, t.addr)
                 && exists n: string :: PointsTo(f, n) && n in src.env.registry && t.ti == src.env.registry[n]
  {
    HoldsIs(src, base, f, t.addr);
    if f.typeInfo.isPointer {
      PointeeIs(f, Pointee(f.typeInfo.name));
      if n: string :| PointsTo(f, n) && n in src.env.registry && t.ti == src.env.registry[n] { PointeeIs(f, n); }
    }
  }

  // ----- arrays found on the way -----

  /** The field is a pointer of eight bytes to pointers to a registered type, the pointer type itself
      not registered, and holds a believed value. */
  ghost predicate FindsArray(src: Sources, base: nat, f: FieldInfo, v: nat, element: string) {
    && f.byteSize == 8 && PointsTo(f, "*" + element) && "*" + element !in src.env.registry && element in src.env.registry
    && Holds(src, base, f.byteOffset, v) && Believed(src, v)
  }

  lemma {:induction false} ArrayFound(src: Sources, base: nat, f: FieldInfo, v: nat, element: string)
    requires Heap.Linked(src.heap) && base < 0x1_0000_0000_0000_0000
    ensures FindsArray(src, base, f, v, element)
            <==> f.byteSize == 8 && f.typeInfo.isPointer && Pointee(f.typeInfo.name) == "*" + element
                 && "*" + element !in src.env.registry && element in src.env.registry
                 && FieldValue(src, base, f) == Some(v) && Believed(src, v)
  {
    HoldsIs(src, base, f, v);
    if f.typeInfo.isPointer { PointeeIs(f, "*" + element); }
  }

  /** Reading such a field registers its value as an array of the inner type, unless the value is
      registered already; reading any other field registers nothing. */
  lemma {:induction false} ArraysRegistered(s: Shadow, src: Sources, base: nat, f: FieldInfo)
    requires Heap.Linked(src.heap) && base < 0x1_0000_0000_0000_0000
    ensures var s' := RegisterField(s, src, base, f);
            && (forall v: nat, n: string :: FindsArray(src, base, f, v, n) && v !in s.indirect ==>
                  s' == s.(indirect := s.indirect[v := src.env.registry[n]], indirectRegistrations := s.indirectRegistrations + 1))
            && ((forall v: nat, n: string :: FindsArray(src, base, f, v, n) ==> v in s.indirect) ==> s' == s)
  {
    forall v: nat, n: string | FindsArray(src, base, f, v, n) && v !in s.indirect
      ensures RegisterField(s, src, base, f)
           == s.(indirect := s.indirect[v := src.env.registry[n]], indirectRegistrations := s.indirectRegistrations + 1)
    {
      ArrayFound(src, base, f, v, n);
      StarPointee(n);
    }
    if RegisterField(s, src, base, f) != s {
      var v, p := FieldValue(src, base, f).value, Pointee(f.typeInfo.name);
      StarPointee(p);
      ArrayFound(src, base, f, v, Pointee(p));
      assert FindsArray(src, base, f, v, Pointee(p));
    }
  }

  /** What a field makes an array, as the scan computes it: the address and the element type. */
  function ArrayIn(src: Sources, base: nat, f: FieldInfo): Option<(nat, TypeInfo)> {
    if !PointerField(f) || FieldValue(src, base, f).None? then None
    else
      var v, p := FieldValue(src, base, f).value, Pointee(f.typeInfo.name);
      if p !in src.env.registry && p != "" && p[0] == '*' && Pointee(p) in src.env.registry && Plausible(src, v)
      then Some((v, src.env.registry[Pointee(p)])) else None
  }

  lemma {:induction false} ArrayInIs(src: Sources, base: nat, f: FieldInfo, v: nat, ti: TypeInfo)
    requires Heap.Linked(src.heap) && base < 0x1_0000_0000_0000_0000
    ensures ArrayIn(src, base, f) == Some((v, ti))
            <==> exists n: string :: FindsArray(src, base, f, v, n) && ti == src.env.registry[n]
  {
    var p := Pointee(f.typeInfo.name);
    StarPointee(p);
    if ArrayIn(src, base, f) == Some((v, ti)) { ArrayFound(src, base, f, v, Pointee(p)); }
    if n: string :| FindsArray(src, base, f, v, n) && ti == src.env.registry[n] {
      ArrayFound(src, base, f, v, n);
      StarPointee(n);
    }
  }

  /** Field k of the node makes that address an array of that type. */
  predicate Makes(types: map<nat, Projection>, src: Sources, base: nat, k: nat, v: nat, ti: TypeInfo) {
    base in types && k < |types[base].typeInfo.fields| && ArrayIn(src, base, types[base].typeInfo.fields[k]) == Some((v, ti))
  }

  ghost predicate MadeBy(sc: Scan, src: Sources, v: nat, ti: TypeInfo) {
    exists base: nat, k: nat :: base in sc.visited && Makes(sc.s.types, src, base, k, v, ti)
  }

  /** All arrays that the node makes are registered. */
  ghost predicate AllMade(sc: Scan, src: Sources, base: nat) {
    forall k: nat, v: nat, ti :: Makes(sc.s.types, src, base, k, v, ti) ==> v in sc.s.indirect
  }

  /** Arrays stay registered as they were, new ones were made by a field of a visited node, and the
      nodes that were taken up have all of theirs. */
  ghost predicate Arrays(sc: Scan, s0: Shadow, src: Sources) {
    && (forall v :: v in s0.indirect ==> v in sc.s.indirect && sc.s.indirect[v] == s0.indirect[v])
    && (forall v :: v in sc.s.indirect && v !in s0.indirect ==> MadeBy(sc, src, v, sc.s.indirect[v]))
    && forall a :: a in sc.visited && a !in sc.queue ==> AllMade(sc, src, a)
  }

  predicate MadeIn(src: Sources, base: nat, fields: seq<FieldInfo>, n: nat, v: nat, ti: TypeInfo)
    requires n <= |fields|
  {
    exists k :: 0 <= k < n && ArrayIn(src, base, fields[k]) == Some((v, ti))
  }

  /** One field registers what it makes and nothing else. */
  lemma FieldMakes(s: Shadow, src: Sources, base: nat, f: FieldInfo)
    ensures var r, made := RegisterField(s, src, base, f), ArrayIn(src, base, f);
            && (made.None? || made.value.0 in s.indirect ==> r.indirect == s.indirect)
            && (made.Some? && made.value.0 !in s.indirect ==> r.indirect == s.indirect[made.value.0 := made.value.1])
  {
  }

  lemma MadeInNext(src: Sources, base: nat, fields: seq<FieldInfo>, n: nat, v: nat, ti: TypeInfo)
    requires n < |fields|
    ensures MadeIn(src, base, fields, n + 1, v, ti) <==> MadeIn(src, base, fields, n, v, ti) || ArrayIn(src, base, fields[n]) == Some((v, ti))
  {
  }

  lemma {:induction false} RegisterMakes(s: Shadow, src: Sources, base: nat, fields: seq<FieldInfo>, n: nat)
    requires n <= |fields|
    ensures var r := Register(s, src, base, fields, n);
            && (forall v :: v in s.indirect ==> v in r.indirect && r.indirect[v] == s.indirect[v])
            && (forall v :: v in r.indirect && v !in s.indirect ==> MadeIn(src, base, fields, n, v, r.indirect[v]))
            && (forall v: nat, ti :: MadeIn(src, base, fields, n, v, ti) ==> v in r.indirect)
  {
    if n > 0 {
      RegisterMakes(s, src, base, fields, n - 1);
      FieldMakes(Register(s, src, base, fields, n - 1), src, base, fields[n - 1]);
      var made := ArrayIn(src, base, fields[n - 1]);
      forall v: nat, ti ensures MadeIn(src, base, fields, n, v, ti) <==> MadeIn(src, base, fields, n - 1, v, ti) || made == Some((v, ti)) {
        MadeInNext(src, base, fields, n - 1, v, ti);
      }
    }
  }

  lemma {:induction false} VisitAllKeepsArrays(sc: Scan, parent: nat, ts: seq<Target>, at: nat, n: nat)
    requires n <= |ts|
    ensures VisitAll(sc, parent, ts, at, n).s.indirect == sc.s.indirect
  {
    if n > 0 { VisitAllKeepsArrays(sc, parent, ts, at, n - 1); }
  }

  /** A later state knows the nodes visited before as they were. */
  lemma {:induction false} SameMakes(sc: Scan, r: Scan, src: Sources, base: nat, k: nat, v: nat, ti: TypeInfo)
    requires Grows(sc, r) && base in sc.visited
    ensures Makes(sc.s.types, src, base, k, v, ti) <==> Makes(r.s.types, src, base, k, v, ti)
  {
  }

  /** Dropping a node without a projection. */
  lemma {:induction false} DropArrays(sc: Scan, s0: Shadow, src: Sources)
    requires Arrays(sc, s0, src) && sc.queue != [] && sc.queue[0] !in sc.s.types
    ensures Arrays(sc.(queue := sc.queue[1..]), s0, src)
  {
    var r := sc.(queue := sc.queue[1..]);
    forall v | v in r.s.indirect && v !in s0.indirect ensures MadeBy(r, src, v, r.s.indirect[v]) {
      assert MadeBy(sc, src, v, sc.s.indirect[v]);
    }
    forall a | a in r.visited && a !in r.queue ensures AllMade(r, src, a) {
      if a != sc.queue[0] { assert a !in sc.queue && AllMade(sc, src, a); }
    }
  }

  /** Taking up a node: `r` grows out of `sc1`, which is `sc` with the node off the queue. */
  lemma {:induction false} TakeUpArrays(sc: Scan, sc1: Scan, r: Scan, s0: Shadow, src: Sources, base: nat)
    requires Arrays(sc, s0, src) && sc.queue != [] && sc.queue[0] == base && base in sc.s.types && base in sc.visited
    requires sc1.queue == sc.queue[1..] && sc1.visited == sc.visited && sc1.s.types == sc.s.types
    requires var fields := sc.s.types[base].typeInfo.fields; sc1.s == Register(sc.s, src, base, fields, |fields|)
    requires Grows(sc1, r) && r.s.indirect == sc1.s.indirect
    ensures Arrays(r, s0, src)
  {
    var fields := sc.s.types[base].typeInfo.fields;
    RegisterMakes(sc.s, src, base, fields, |fields|);
    forall v | v in r.s.indirect && v !in s0.indirect ensures MadeBy(r, src, v, r.s.indirect[v]) {
      if v in sc.s.indirect {
        assert MadeBy(sc, src, v, sc.s.indirect[v]);
        var b: nat, k: nat :| b in sc.visited && Makes(sc.s.types, src, b, k, v, sc.s.indirect[v]);
        SameMakes(sc1, r, src, b, k, v, r.s.indirect[v]);
      } else {
        var k: nat :| k < |fields| && ArrayIn(src, base, fields[k]) == Some((v, r.s.indirect[v]));
        assert Makes(sc1.s.types, src, base, k, v, r.s.indirect[v]);
        SameMakes(sc1, r, src, base, k, v, r.s.indirect[v]);
      }
    }
    forall a | a in r.visited && a !in r.queue ensures AllMade(r, src, a) {
      forall k: nat, v: nat, ti | Makes(r.s.types, src, a, k, v, ti) ensures v in r.s.indirect {
        SameMakes(sc1, r, src, a, k, v, ti);
        if a == base {
          assert MadeIn(src, base, fields, |fields|, v, ti);
        } else {
          assert a !in sc1.queue;
          assert a !in sc.queue && AllMade(sc, src, a);
        }
      }
    }
  }

  lemma {:induction false} ExpandArrays(sc: Scan, s0: Shadow, src: Sources, seed: nat, at: nat)
    requires Inv(sc, s0, src, seed, at) && Arrays(sc, s0, src) && sc.queue != []
    ensures Arrays(Expand(sc, src, at), s0, src)
  {
    var base := sc.queue[0];
    if base !in sc.s.types {
      DropArrays(sc, s0, src);
    } else {
      var fields, ts := sc.s.types[base].typeInfo.fields, NodeTargets(sc, src, base);
      NodeTargetsFresh(sc, s0, src, base);
      var sc1 := sc.(queue := sc.queue[1..], s := Register(sc.s, src, base, fields, |fields|));
      RegisterInner(sc, sc1, s0, src, seed, at);
      VisitAllInner(sc1, s0, src, seed, at, base, ts, |ts|);
      VisitAllKeepsArrays(sc1, base, ts, at, |ts|);
      TakeUpArrays(sc, sc1, Expand(sc, src, at), s0, src, base);
    }
  }

  lemma {:induction false} WalkArrays(sc: Scan, s0: Shadow, src: Sources, seed: nat, at: nat, fuel: nat)
    requires Inv(sc, s0, src, seed, at) && Arrays(sc, s0, src)
    ensures Arrays(Walk(sc, src, at, fuel), s0, src)
    decreases if sc.stamped < fuel then fuel - sc.stamped else 0, |sc.queue|
  {
    if !Done(sc, fuel) {
      ExpandInv(sc, s0, src, seed, at);
      ExpandArrays(sc, s0, src, seed, at);
      WalkArrays(Expand(sc, src, at), s0, src, seed, at, fuel);
    }
  }

  /** The scan registers arrays and keeps those there were. A new one was found in a field of a visited
      node, and unless the fuel ran out every one found in such a field is registered. */
  lemma {:induction false} ArraysOfScan(s: Shadow, src: Sources, seed: nat, at: nat)
    ensures var r := Retrospect(s, src, seed, at);
            && (forall v :: v in s.indirect ==> v in r.s.indirect && r.s.indirect[v] == s.indirect[v])
            && (forall v :: v in r.s.indirect && v !in s.indirect ==> MadeBy(r, src, v, r.s.indirect[v]))
            && (r.stamped < Fuel(s, seed) ==> forall a :: a in r.visited ==> AllMade(r, src, a))
  {
    var fuel := Fuel(s, seed);
    assert Inv(Begin(s, seed), s, src, seed, at);
    assert Arrays(Begin(s, seed), s, src);
    WalkArrays(Begin(s, seed), s, src, seed, at, fuel);
    WalkInv(Begin(s, seed), s, src, seed, at, fuel);
  }

  // ----- how far the scan goes, and in which order -----

  function PointersOf(fields: seq<FieldInfo>, n: nat): set<nat>
    requires n <= |fields|
  {
    set k: nat | k < n && fields[k].typeInfo.isPointer && fields[k].byteSize == 8
  }

  lemma {:induction false} PointersCounted(fields: seq<FieldInfo>, n: nat)
    requires n <= |fields|
    ensures PointerFields(fields, n) == |PointersOf(fields, n)|
  {
    if n > 0 {
      PointersCounted(fields, n - 1);
      var before := PointersOf(fields, n - 1);
      assert PointersOf(fields, n) == if fields[n - 1].typeInfo.isPointer && fields[n - 1].byteSize == 8 then before + {n - 1} else before;
    }
  }

  /** The fuel is four stamps for each pointer field of the seed, no less than 64 and no more than
      256; it is 64 for a seed without a type. */
  lemma {:induction false} FuelMeaning(s: Shadow, seed: nat)
    ensures seed !in s.types ==> Fuel(s, seed) == 64
    ensures seed in s.types ==>
              var pointers := |PointersOf(s.types[seed].typeInfo.fields, |s.types[seed].typeInfo.fields|)|;
              && (pointers <= 16 ==> Fuel(s, seed) == 64)
              && (16 <= pointers <= 64 ==> Fuel(s, seed) == 4 * pointers)
              && (64 <= pointers ==> Fuel(s, seed) == 256)
  {
    if seed in s.types { PointersCounted(s.types[seed].typeInfo.fields, |s.types[seed].typeInfo.fields|); }
  }

  /** The nodes in the order in which they are taken up: the seed, then whatever was stamped. */
  function Order(seed: nat, log: seq<Link>): (r: seq<nat>)
    ensures |r| == |log| + 1
  {
    [seed] + Stamped(log)
  }

  function Stamped(log: seq<Link>): (r: seq<nat>)
    ensures |r| == |log|
  {
    seq(|log|, i requires 0 <= i < |log| => log[i].target.addr)
  }

  /** `ps[i]` is the place, in that order, of the node whose field led to the i-th stamp: an earlier
      one, and never one before that of the stamp before; stamps from one node go by field name. */
  predicate InOrder(seed: nat, log: seq<Link>, ps: seq<nat>) {
    && |ps| == |log|
    && (forall i :: 0 <= i < |ps| ==> ps[i] <= i && log[i].parent == Order(seed, log)[ps[i]])
    && (forall i, j :: 0 <= i < j < |ps| ==>
          ps[i] < ps[j] || (ps[i] == ps[j] && AtMost(log[i].target.name, log[j].target.name)))
  }

  /** One node's stamps: its own, in the order of their names, all queued. */
  predicate Batch(parent: nat, more: seq<Link>) {
    && (forall i :: 0 <= i < |more| ==> more[i].parent == parent)
    && forall i, j :: 0 <= i < j < |more| ==> AtMost(more[i].target.name, more[j].target.name)
  }

  lemma {:induction false} VisitAllAppends(sc: Scan, parent: nat, ts: seq<Target>, at: nat, n: nat) returns (more: seq<Link>)
    requires n <= |ts| && Ascending(ts)
    ensures Batch(parent, more) && (forall i :: 0 <= i < |more| ==> exists k :: 0 <= k < n && ts[k] == more[i].target)
    ensures var r := VisitAll(sc, parent, ts, at, n); r.log == sc.log + more && r.queue == sc.queue + Stamped(more)
  {
    if n == 0 {
      more := [];
    } else {
      var before := VisitAllAppends(sc, parent, ts, at, n - 1);
      var t := ts[n - 1];
      if t.addr in VisitAll(sc, parent, ts, at, n - 1).visited {
        more := before;
      } else {
        more := before + [Link(parent, t)];
        assert Stamped(more) == Stamped(before) + [t.addr];
      }
    }
  }

  /** Before the walk takes up the node at place k: what is queued is the order from there on. */
  ghost predicate AtPlace(sc: Scan, seed: nat, ps: seq<nat>, k: nat) {
    && InOrder(seed, sc.log, ps) && k <= |sc.log| + 1
    && sc.queue == Order(seed, sc.log)[k..] && forall i :: 0 <= i < |ps| ==> ps[i] < k
  }

  lemma {:induction false} BatchInOrder(seed: nat, log: seq<Link>, ps: seq<nat>, k: nat, more: seq<Link>)
    requires InOrder(seed, log, ps) && k <= |log| && (forall i :: 0 <= i < |ps| ==> ps[i] < k)
    requires Batch(Order(seed, log)[k], more)
    ensures InOrder(seed, log + more, ps + seq(|more|, i => k))
    ensures Order(seed, log + more) == Order(seed, log) + Stamped(more)
  {
    var all, qs := log + more, ps + seq(|more|, i => k);
    assert Order(seed, all) == Order(seed, log) + Stamped(more);
    forall i | 0 <= i < |qs| ensures qs[i] <= i && all[i].parent == Order(seed, all)[qs[i]] {
      if i < |log| { assert all[i] == log[i]; } else { assert all[i] == more[i - |log|]; }
    }
    forall i, j | 0 <= i < j < |qs|
      ensures qs[i] < qs[j] || (qs[i] == qs[j] && AtMost(all[i].target.name, all[j].target.name))
    {
      if i >= |log| { assert all[i] == more[i - |log|] && all[j] == more[j - |log|]; }
    }
  }

  /** Taking up a node stamps one batch of targets and queues them. */
  lemma {:induction false} ExpandAppends(sc: Scan, src: Sources, at: nat) returns (more: seq<Link>)
    requires sc.queue != []
    ensures var r := Expand(sc, src, at);
            r.log == sc.log + more && r.queue == sc.queue[1..] + Stamped(more) && Batch(sc.queue[0], more)
  {
    var base := sc.queue[0];
    more := [];
    if base in sc.s.types {
      var fields, ts := sc.s.types[base].typeInfo.fields, NodeTargets(sc, src, base);
      var all := Targets(sc.s.types, src, base, fields, |fields|);
      SortedAscends(all, |all|);
      var sc1 := sc.(queue := sc.queue[1..], s := Register(sc.s, src, base, fields, |fields|));
      more := VisitAllAppends(sc1, base, ts, at, |ts|);
    }
  }

  lemma {:induction false} OrderFrom(seed: nat, log: seq<Link>, more: seq<Link>, k: nat)
    requires k <= |log| && Order(seed, log + more) == Order(seed, log) + Stamped(more)
    ensures Order(seed, log + more)[k + 1..] == Order(seed, log)[k..][1..] + Stamped(more)
  {
    assert Order(seed, log)[k..][1..] == Order(seed, log)[k + 1..];
  }

  lemma {:induction false} ExpandPlace(sc: Scan, src: Sources, seed: nat, at: nat, ps: seq<nat>, k: nat) returns (qs: seq<nat>)
    requires AtPlace(sc, seed, ps, k) && sc.queue != []
    ensures AtPlace(Expand(sc, src, at), seed, qs, k + 1)
  {
    var more := ExpandAppends(sc, src, at);
    assert sc.queue[0] == Order(seed, sc.log)[k];
    BatchInOrder(seed, sc.log, ps, k, more);
    OrderFrom(seed, sc.log, more, k);
    qs := ps + seq(|more|, i => k);
  }

  lemma {:induction false} WalkPlace(sc: Scan, src: Sources, seed: nat, at: nat, fuel: nat, ps: seq<nat>, k: nat)
    returns (qs: seq<nat>, last: nat)
    requires AtPlace(sc, seed, ps, k)
    ensures AtPlace(Walk(sc, src, at, fuel), seed, qs, last)
    decreases if sc.stamped < fuel then fuel - sc.stamped else 0, |sc.queue|
  {
    qs, last := ps, k;
    if !Done(sc, fuel) {
      var next := ExpandPlace(sc, src, seed, at, ps, k);
      qs, last := WalkPlace(Expand(sc, src, at), src, seed, at, fuel, next, k + 1);
    }
  }

  /** The scan is breadth-first: its stamps come in the order of the nodes they were reached from,
      and from one node in the order of the field names. When it stops, every node up to some place
      has been taken up, and none after it. */
  lemma {:induction false} BreadthFirst(s: Shadow, src: Sources, seed: nat, at: nat) returns (ps: seq<nat>, last: nat)
    ensures var r := Retrospect(s, src, seed, at);
            && InOrder(seed, r.log, ps) && (forall i :: 0 <= i < |ps| ==> ps[i] < last)
            && last <= |r.log| + 1 && r.queue == Order(seed, r.log)[last..]
  {
    assert Order(seed, []) == [seed];
    ps, last := WalkPlace(Begin(s, seed), src, seed, at, Fuel(s, seed), [], 0);
  }
}
