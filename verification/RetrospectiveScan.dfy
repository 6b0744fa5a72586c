/** The retrospective scan (`ShadowTypeMap::retrospective_scan` in `engine/src/world.rs`): from a
    freshly stamped address, a fuelled breadth-first walk along pointer fields whose values were
    written before the stamp. */
module RetrospectiveScan {
  import opened OrderedMap
  import opened Types
  import opened ShadowTypes
  import Heap = HeapGraphs
  import opened Words

  const MIN_FUEL: nat := 64
  const MAX_FUEL: nat := 256

  /** Where field values come from: the heap graph first, then the target's memory if it can be
      read, as an arbitrary partial function. */
  datatype Sources = Sources(env: Env, heap: Heap.Graph, memory: Option<map<nat, nat>>)

  // ----- one field -----

  predicate PointerField(f: FieldInfo) { f.typeInfo.isPointer && f.byteSize == 8 }

  function PointerFields(fields: seq<FieldInfo>, n: nat): (r: nat)
    requires n <= |fields|
    ensures r <= n
  {
    if n == 0 then 0 else PointerFields(fields, n - 1) + if PointerField(fields[n - 1]) then 1 else 0
  }

  function Width(p: Projection): nat { PointerFields(p.typeInfo.fields, |p.typeInfo.fields|) }

  /** Differences and sums of addresses wrap at 64 bits. */
  function HeapValue(g: Heap.Graph, base: nat, offset: nat): (v: Option<nat>)
    ensures v.Some? ==> v.value != 0
  {
    match Heap.FindBase(g, base)
    case Some(owner) =>
      var at := (base - owner) % U64 + offset;
      if owner in g.objects && at in g.objects[owner].fields && g.objects[owner].fields[at].lastValue != 0
      then Some(g.objects[owner].fields[at].lastValue) else None
    case None => None
  }

  function FieldValue(src: Sources, base: nat, f: FieldInfo): (v: Option<nat>)
    ensures v.Some? ==> v.value != 0
  {
    var held := HeapValue(src.heap, base, f.byteOffset);
    if held.Some? || src.memory.None? then held
    else
      var at := (base + f.byteOffset) % U64;
      if at in src.memory.value && src.memory.value[at] != 0 then Some(src.memory.value[at]) else None
  }

  /** A known allocation, or with live memory any aligned value above the first page. */
  predicate Plausible(src: Sources, v: nat) {
    v in src.env.allocs || (src.memory.Some? && v > 0x1000 && v % 8 == 0)
  }

  datatype Target = Target(name: string, addr: nat, ti: TypeInfo)

  /** The address and type a field of the node at `base` leads to, known or not. */
  function Follow(src: Sources, base: nat, f: FieldInfo): (t: Option<Target>)
    ensures t.Some? ==> t.value.addr != 0
  {
    if !PointerField(f) || FieldValue(src, base, f).None? then None
    else
      var v, pointee := FieldValue(src, base, f).value, Pointee(f.typeInfo.name);
      if pointee in src.env.registry && Plausible(src, v)
      then Some(Target(f.name, v, src.env.registry[pointee])) else None
  }

  /** What the fields lead to, addresses already typed left out. */
  function Targets(types: map<nat, Projection>, src: Sources, base: nat, fields: seq<FieldInfo>, n: nat): (r: seq<Target>)
    requires n <= |fields|
    ensures |r| <= PointerFields(fields, n)
    ensures forall t :: t in r ==> t.addr != 0 && t.addr !in types
  {
    if n == 0 then []
    else
      var before, t := Targets(types, src, base, fields, n - 1), Follow(src, base, fields[n - 1]);
      if t.Some? && t.value.addr !in types then before + [t.value] else before
  }

  /** A pointer to pointer field makes its value an array of the inner pointee. */
  function RegisterField(s: Shadow, src: Sources, base: nat, f: FieldInfo): Shadow {
    if !PointerField(f) || FieldValue(src, base, f).None? then s
    else
      var v, pointee := FieldValue(src, base, f).value, Pointee(f.typeInfo.name);
      if pointee !in src.env.registry && |pointee| > 0 && pointee[0] == '*' && Pointee(pointee) in src.env.registry
         && Plausible(src, v) && v !in s.indirect
      then s.(indirect := s.indirect[v := src.env.registry[Pointee(pointee)]],
              indirectRegistrations := s.indirectRegistrations + 1)
      else s
  }

  function Register(s: Shadow, src: Sources, base: nat, fields: seq<FieldInfo>, n: nat): (r: Shadow)
    requires n <= |fields|
    ensures r.types == s.types && r.addrSchisms == s.addrSchisms && r.schisms == s.schisms
         && r.reuses == s.reuses && r.deferred == s.deferred
  {
    if n == 0 then s else RegisterField(Register(s, src, base, fields, n - 1), src, base, fields[n - 1])
  }

  // ----- targets are taken in the order of their field names -----

  predicate AtMost(a: string, b: string) {
    if a == [] then true
    else if b == [] then false
    else a[0] < b[0] || (a[0] == b[0] && AtMost(a[1..], b[1..]))
  }

  function Insert(ts: seq<Target>, t: Target): (r: seq<Target>)
    ensures |r| == |ts| + 1 && forall x :: x in r <==> x in ts || x == t
  {
    if ts == [] || AtMost(ts[|ts| - 1].name, t.name) then ts + [t]
    else
      assert ts == ts[..|ts| - 1] + [ts[|ts| - 1]];
      Insert(ts[..|ts| - 1], t) + [ts[|ts| - 1]]
  }

  function Sorted(ts: seq<Target>, n: nat): (r: seq<Target>)
    requires n <= |ts|
    ensures |r| == n && forall x :: x in r <==> x in ts[..n]
  {
    if n == 0 then []
    else
      assert ts[..n] == ts[..n - 1] + [ts[n - 1]];
      Insert(Sorted(ts, n - 1), ts[n - 1])
  }

  lemma {:induction false} AtMostTrans(a: string, b: string, c: string)
    requires AtMost(a, b) && AtMost(b, c)
    ensures AtMost(a, c)
  {
    if a != [] && a[0] == b[0] && b[0] == c[0] { AtMostTrans(a[1..], b[1..], c[1..]); }
  }

  lemma {:induction false} AtMostTotal(a: string, b: string)
    ensures AtMost(a, b) || AtMost(b, a)
  {
    if a != [] && b != [] { AtMostTotal(a[1..], b[1..]); }
  }

  predicate Ascending(ts: seq<Target>) {
    forall i, j :: 0 <= i < j < |ts| ==> AtMost(ts[i].name, ts[j].name)
  }

  lemma {:induction false} InsertAscends(ts: seq<Target>, t: Target)
    requires Ascending(ts)
    ensures Ascending(Insert(ts, t))
  {
    if ts != [] {
      var init, last := ts[..|ts| - 1], ts[|ts| - 1];
      AtMostTotal(last.name, t.name);
      if AtMost(last.name, t.name) {
        forall i | 0 <= i < |ts| - 1 ensures AtMost(ts[i].name, t.name) {
          AtMostTrans(ts[i].name, last.name, t.name);
        }
        AtMostTotal(t.name, t.name);
      } else {
        InsertAscends(init, t);
        var r := Insert(init, t);
        forall i | 0 <= i < |r| ensures AtMost(r[i].name, last.name) { assert r[i] in r; }
      }
    }
  }

  /** The targets of a node are taken in the order of their field names. */
  lemma {:induction false} SortedAscends(ts: seq<Target>, n: nat)
    requires n <= |ts|
    ensures Ascending(Sorted(ts, n))
  {
    if n > 0 {
      SortedAscends(ts, n - 1);
      InsertAscends(Sorted(ts, n - 1), ts[n - 1]);
    }
  }

  // ----- the walk -----

  /** A stamp made by the scan and the node whose field led to it. */
  datatype Link = Link(parent: nat, target: Target)

  /** `log` is the history of the stamps that `stamped` counts. */
  datatype Scan = Scan(s: Shadow, queue: seq<nat>, visited: set<nat>, stamped: nat, log: seq<Link>)

  function Visit(sc: Scan, parent: nat, t: Target, at: nat): Scan {
    if t.addr in sc.visited then sc
    else Scan(Stamp(sc.s, t.addr, t.ti, t.name, at).0, sc.queue + [t.addr], sc.visited + {t.addr},
              sc.stamped + 1, sc.log + [Link(parent, t)])
  }

  function VisitAll(sc: Scan, parent: nat, ts: seq<Target>, at: nat, n: nat): (r: Scan)
    requires n <= |ts|
    ensures sc.stamped <= r.stamped <= sc.stamped + n
    ensures |r.queue| - |sc.queue| == r.stamped - sc.stamped
  {
    if n == 0 then sc else Visit(VisitAll(sc, parent, ts, at, n - 1), parent, ts[n - 1], at)
  }

  function NodeTargets(sc: Scan, src: Sources, base: nat): (r: seq<Target>)
    requires base in sc.s.types
  {
    var fields := sc.s.types[base].typeInfo.fields;
    var ts := Targets(sc.s.types, src, base, fields, |fields|);
    Sorted(ts, |ts|)
  }

  /** Take the first node off the queue and follow its pointer fields. */
  function Expand(sc: Scan, src: Sources, at: nat): (r: Scan)
    requires sc.queue != []
    ensures r.stamped >= sc.stamped && |r.queue| == |sc.queue| - 1 + r.stamped - sc.stamped
  {
    var base, sc1 := sc.queue[0], sc.(queue := sc.queue[1..]);
    if base !in sc.s.types then sc1
    else
      var fields := sc.s.types[base].typeInfo.fields;
      var ts := NodeTargets(sc, src, base);
      VisitAll(sc1.(s := Register(sc.s, src, base, fields, |fields|)), base, ts, at, |ts|)
  }

  predicate Done(sc: Scan, fuel: nat) { sc.queue == [] || sc.stamped >= fuel }

  function Walk(sc: Scan, src: Sources, at: nat, fuel: nat): Scan
    decreases if sc.stamped < fuel then fuel - sc.stamped else 0, |sc.queue|
  {
    if Done(sc, fuel) then sc else Walk(Expand(sc, src, at), src, at, fuel)
  }

  function Fuel(s: Shadow, seed: nat): (fuel: nat)
    ensures MIN_FUEL <= fuel <= MAX_FUEL
  {
    if seed !in s.types then MIN_FUEL
    else
      var fields := s.types[seed].typeInfo.fields;
      var wanted := PointerFields(fields, |fields|) * 4;
      if wanted < MIN_FUEL then MIN_FUEL else if wanted > MAX_FUEL then MAX_FUEL else wanted
  }

  function Begin(s: Shadow, seed: nat): Scan { Scan(s, [seed], {seed}, 0, []) }

  function Retrospect(s: Shadow, src: Sources, seed: nat, at: nat): Scan {
    Walk(Begin(s, seed), src, at, Fuel(s, seed))
  }

  // ----- what the walk keeps -----

  /** Nothing typed before is touched, and no schism is counted. */
  predicate OnlyAdds(s0: Shadow, s: Shadow) {
    && (forall a :: a in s0.types ==> a in s.types && s.types[a] == s0.types[a])
    && s.schisms == s0.schisms && s.reuses == s0.reuses && s.addrSchisms == s0.addrSchisms
    && s.deferred == s0.deferred
  }

  predicate Stamps(log: seq<Link>, addr: nat) {
    exists i :: 0 <= i < |log| && log[i].target.addr == addr
  }

  /** Each address is stamped at most once, the seed never. */
  ghost predicate StampedOnce(sc: Scan, seed: nat) {
    && |sc.log| == sc.stamped
    && (forall i, j :: 0 <= i < j < |sc.log| ==> sc.log[i].target.addr != sc.log[j].target.addr)
    && (forall a :: a in sc.visited <==> a == seed || Stamps(sc.log, a))
    && !Stamps(sc.log, seed)
  }

  /** The node leads to the target through one of its pointer fields. */
  predicate LeadsTo(src: Sources, base: nat, fields: seq<FieldInfo>, t: Target) {
    exists k :: 0 <= k < |fields| && Follow(src, base, fields[k]) == Some(t)
  }

  /** The i-th stamp was reached from the seed or from an earlier stamp, through a pointer field,
      and left its projection there unless its type has no size. */
  ghost predicate LinkHolds(sc: Scan, s0: Shadow, src: Sources, seed: nat, at: nat, i: nat)
    requires i < |sc.log|
  {
    var p, t := sc.log[i].parent, sc.log[i].target;
    && (p == seed || Stamps(sc.log[..i], p))
    && p in sc.s.types && LeadsTo(src, p, sc.s.types[p].typeInfo.fields, t)
    && t.addr !in s0.types && t.addr != 0
    && (if t.ti.byteSize > 0 then t.addr in sc.s.types && sc.s.types[t.addr] == Projection(t.addr, t.ti, t.name, at)
        else t.addr !in sc.s.types)
  }

  ghost predicate Linked(sc: Scan, s0: Shadow, src: Sources, seed: nat, at: nat) {
    forall i: nat :: i < |sc.log| ==> LinkHolds(sc, s0, src, seed, at, i)
  }

  /** New projections are the scan's own. */
  ghost predicate NothingElse(sc: Scan, s0: Shadow, seed: nat) {
    && (forall a :: a in sc.s.types ==> a in s0.types || (a in sc.visited && a != seed))
    && forall k :: 0 <= k < |sc.queue| ==> sc.queue[k] in sc.visited
  }

  /** Every target of the node has been typed or tried. */
  ghost predicate Followed(sc: Scan, src: Sources, base: nat) {
    base in sc.s.types ==>
      forall t :: LeadsTo(src, base, sc.s.types[base].typeInfo.fields, t) ==> t.addr in sc.s.types || t.addr in sc.visited
  }

  ghost predicate Closed(sc: Scan, src: Sources) {
    forall a :: a in sc.visited && a !in sc.queue ==> Followed(sc, src, a)
  }

  ghost predicate Inv(sc: Scan, s0: Shadow, src: Sources, seed: nat, at: nat) {
    OnlyAdds(s0, sc.s) && StampedOnce(sc, seed) && Linked(sc, s0, src, seed, at) && NothingElse(sc, s0, seed) && Closed(sc, src)
  }

  /** Everything but closure, while the node at `base` is being followed. */
  ghost predicate Inner(sc: Scan, s0: Shadow, src: Sources, seed: nat, at: nat) {
    OnlyAdds(s0, sc.s) && StampedOnce(sc, seed) && Linked(sc, s0, src, seed, at) && NothingElse(sc, s0, seed)
  }

  /** A step of the walk only grows things. */
  ghost predicate Grows(a: Scan, b: Scan) {
    && (forall x :: x in a.s.types ==> x in b.s.types && b.s.types[x] == a.s.types[x])
    && (forall x :: x in b.s.types && x !in a.s.types ==> x !in a.visited)
    && a.visited <= b.visited
    && (forall x :: x in b.visited && x !in a.visited ==> x in b.queue)
    && (forall x :: x in a.queue ==> x in b.queue)
  }

  /** Stamping an address without a projection adds one there, or nothing. */
  lemma StampAbsent(s: Shadow, t: Target, at: nat)
    requires t.addr != 0 && t.addr !in s.types
    ensures var s' := Stamp(s, t.addr, t.ti, t.name, at).0;
            s' == if t.ti.byteSize > 0 then s.(types := s.types[t.addr := Projection(t.addr, t.ti, t.name, at)]) else s
  {
  }

  lemma VisitLinked(sc: Scan, s0: Shadow, src: Sources, seed: nat, at: nat, parent: nat, t: Target)
    requires Linked(sc, s0, src, seed, at) && StampedOnce(sc, seed)
    requires t.addr !in sc.visited && t.addr !in sc.s.types && t.addr != 0 && t.addr !in s0.types
    requires parent in sc.visited && parent in sc.s.types && LeadsTo(src, parent, sc.s.types[parent].typeInfo.fields, t)
    ensures Linked(Visit(sc, parent, t, at), s0, src, seed, at)
  {
    var r := Visit(sc, parent, t, at);
    StampAbsent(sc.s, t, at);
    forall i: nat | i < |r.log| ensures LinkHolds(r, s0, src, seed, at, i) {
      if i < |sc.log| {
        assert LinkHolds(sc, s0, src, seed, at, i);
        assert sc.log[..i] == r.log[..i];
        assert Stamps(sc.log, sc.log[i].target.addr);
      } else {
        assert r.log[..i] == sc.log;
      }
    }
  }

  lemma VisitInner(sc: Scan, s0: Shadow, src: Sources, seed: nat, at: nat, parent: nat, t: Target)
    requires Inner(sc, s0, src, seed, at)
    requires parent in sc.visited && parent in sc.s.types && LeadsTo(src, parent, sc.s.types[parent].typeInfo.fields, t)
    requires t.addr !in s0.types && t.addr != 0
    ensures Inner(Visit(sc, parent, t, at), s0, src, seed, at) && Grows(sc, Visit(sc, parent, t, at))
  {
    if t.addr !in sc.visited {
      VisitOnce(sc, seed, parent, t, at);
      VisitLinked(sc, s0, src, seed, at, parent, t);
      StampAbsent(sc.s, t, at);
    }
  }

  lemma VisitOnce(sc: Scan, seed: nat, parent: nat, t: Target, at: nat)
    requires StampedOnce(sc, seed) && t.addr !in sc.visited
    ensures StampedOnce(Visit(sc, parent, t, at), seed)
  {
    var r := Visit(sc, parent, t, at);
    forall i | 0 <= i < |sc.log| ensures sc.log[i].target.addr != t.addr {
      assert Stamps(sc.log, sc.log[i].target.addr);
    }
    forall a ensures Stamps(r.log, a) <==> Stamps(sc.log, a) || a == t.addr {
      if Stamps(sc.log, a) {
        var i :| 0 <= i < |sc.log| && sc.log[i].target.addr == a;
        assert r.log[i].target.addr == a;
      }
      assert r.log[|sc.log|].target.addr == t.addr;
    }
  }

  lemma GrowsTrans(a: Scan, b: Scan, c: Scan)
    requires Grows(a, b) && Grows(b, c)
    ensures Grows(a, c)
  {
  }

  /** A target of this node that was not typed when the scan began. */
  predicate Fresh(s0: Shadow, src: Sources, base: nat, fields: seq<FieldInfo>, t: Target) {
    LeadsTo(src, base, fields, t) && t.addr !in s0.types && t.addr != 0
  }

  /** `cur` is a later state of the walk that started following its node in `sc`. */
  ghost predicate Along(sc: Scan, cur: Scan, s0: Shadow, src: Sources, seed: nat, at: nat) {
    Inner(cur, s0, src, seed, at) && Grows(sc, cur)
  }

  lemma VisitAlong(sc: Scan, cur: Scan, s0: Shadow, src: Sources, seed: nat, at: nat, parent: nat, t: Target)
    requires Along(sc, cur, s0, src, seed, at) && parent in sc.visited && parent in sc.s.types
    requires Fresh(s0, src, parent, sc.s.types[parent].typeInfo.fields, t)
    ensures Along(sc, Visit(cur, parent, t, at), s0, src, seed, at)
  {
    VisitInner(cur, s0, src, seed, at, parent, t);
    GrowsTrans(sc, cur, Visit(cur, parent, t, at));
  }

  lemma {:induction false} VisitAllInner(
    sc: Scan, s0: Shadow, src: Sources, seed: nat, at: nat, parent: nat, ts: seq<Target>, n: nat)
    requires n <= |ts| && Inner(sc, s0, src, seed, at) && parent in sc.visited && parent in sc.s.types
    requires forall k :: 0 <= k < |ts| ==> Fresh(s0, src, parent, sc.s.types[parent].typeInfo.fields, ts[k])
    ensures Along(sc, VisitAll(sc, parent, ts, at, n), s0, src, seed, at)
  {
    if n > 0 {
      VisitAllInner(sc, s0, src, seed, at, parent, ts, n - 1);
      VisitAlong(sc, VisitAll(sc, parent, ts, at, n - 1), s0, src, seed, at, parent, ts[n - 1]);
    }
  }

  lemma {:induction false} VisitAllTries(sc: Scan, parent: nat, ts: seq<Target>, at: nat, n: nat)
    requires n <= |ts|
    ensures forall k :: 0 <= k < n ==> ts[k].addr in VisitAll(sc, parent, ts, at, n).visited
  {
    if n > 0 { VisitAllTries(sc, parent, ts, at, n - 1); }
  }

  lemma {:induction false} TargetsMeaning(
    types: map<nat, Projection>, src: Sources, base: nat, fields: seq<FieldInfo>, n: nat)
    requires n <= |fields|
    ensures forall t :: t in Targets(types, src, base, fields, n) ==> LeadsTo(src, base, fields, t)
    ensures forall k :: 0 <= k < n && Follow(src, base, fields[k]).Some? ==>
              Follow(src, base, fields[k]).value.addr in types
              || Follow(src, base, fields[k]).value in Targets(types, src, base, fields, n)
  {
    if n > 0 { TargetsMeaning(types, src, base, fields, n - 1); }
  }

  /** What a node leads to is exactly what is visited for it, up to what is typed already. */
  lemma NodeTargetsMeaning(sc: Scan, src: Sources, base: nat)
    requires base in sc.s.types
    ensures var fields, ts := sc.s.types[base].typeInfo.fields, NodeTargets(sc, src, base);
            && |ts| <= PointerFields(fields, |fields|)
            && (forall t :: t in ts ==> LeadsTo(src, base, fields, t) && t.addr != 0 && t.addr !in sc.s.types)
            && (forall t :: LeadsTo(src, base, fields, t) ==> t.addr in sc.s.types || t in ts)
  {
    var fields := sc.s.types[base].typeInfo.fields;
    var ts := Targets(sc.s.types, src, base, fields, |fields|);
    TargetsMeaning(sc.s.types, src, base, fields, |fields|);
    assert ts[..|ts|] == ts;
  }

  /** A node without a projection is dropped. */
  lemma DropInv(sc: Scan, s0: Shadow, src: Sources, seed: nat, at: nat)
    requires Inv(sc, s0, src, seed, at) && sc.queue != [] && sc.queue[0] !in sc.s.types
    ensures Inv(sc.(queue := sc.queue[1..]), s0, src, seed, at)
  {
    var r := sc.(queue := sc.queue[1..]);
    forall i: nat | i < |r.log| ensures LinkHolds(r, s0, src, seed, at, i) {
      assert LinkHolds(sc, s0, src, seed, at, i);
    }
    forall a | a in r.visited && a !in r.queue ensures Followed(r, src, a) {
      if a != sc.queue[0] { assert a !in sc.queue && Followed(sc, src, a); }
    }
  }

  /** None of a node's targets was typed when the scan began, and each is one of `ts` or typed by now. */
  lemma NodeTargetsFresh(sc: Scan, s0: Shadow, src: Sources, base: nat)
    requires base in sc.s.types && OnlyAdds(s0, sc.s)
    ensures var fields, ts := sc.s.types[base].typeInfo.fields, NodeTargets(sc, src, base);
            && (forall k :: 0 <= k < |ts| ==> Fresh(s0, src, base, fields, ts[k]))
            && (forall t :: LeadsTo(src, base, fields, t) ==> t.addr in sc.s.types || t in ts)
  {
    NodeTargetsMeaning(sc, src, base);
    var ts := NodeTargets(sc, src, base);
    assert forall k :: 0 <= k < |ts| ==> ts[k] in ts;
  }

  lemma ExpandInv(sc: Scan, s0: Shadow, src: Sources, seed: nat, at: nat)
    requires Inv(sc, s0, src, seed, at) && sc.queue != []
    ensures Inv(Expand(sc, src, at), s0, src, seed, at)
  {
    var base := sc.queue[0];
    if base !in sc.s.types {
      DropInv(sc, s0, src, seed, at);
    } else {
      var fields, ts := sc.s.types[base].typeInfo.fields, NodeTargets(sc, src, base);
      NodeTargetsFresh(sc, s0, src, base);
      var sc1 := sc.(queue := sc.queue[1..], s := Register(sc.s, src, base, fields, |fields|));
      RegisterInner(sc, sc1, s0, src, seed, at);
      VisitAllInner(sc1, s0, src, seed, at, base, ts, |ts|);
      VisitAllTries(sc1, base, ts, at, |ts|);
      ExpandClosed(sc, sc1, Expand(sc, src, at), src, ts);
    }
  }

  lemma ExpandClosed(sc: Scan, sc1: Scan, r: Scan, src: Sources, ts: seq<Target>)
    requires Closed(sc, src) && sc.queue != [] && sc.queue[0] in sc.s.types && sc1.queue == sc.queue[1..]
    requires sc1.s.types == sc.s.types && sc1.visited == sc.visited && Grows(sc1, r)
    requires forall t :: LeadsTo(src, sc.queue[0], sc.s.types[sc.queue[0]].typeInfo.fields, t) ==> t.addr in sc.s.types || t in ts
    requires forall k :: 0 <= k < |ts| ==> ts[k].addr in r.visited
    ensures Closed(r, src)
  {
    forall a | a in r.visited && a !in r.queue ensures Followed(r, src, a) {
      if a == sc.queue[0] {
        ExpandFollows(sc1, r, src, a, ts);
      } else {
        ExpandKeepsFollowed(sc, sc1, r, src, a);
      }
    }
  }

  lemma RegisterInner(sc: Scan, sc1: Scan, s0: Shadow, src: Sources, seed: nat, at: nat)
    requires Inner(sc, s0, src, seed, at) && sc.queue != []
    requires sc1.queue == sc.queue[1..] && sc1.visited == sc.visited && sc1.stamped == sc.stamped && sc1.log == sc.log
    requires sc1.s.types == sc.s.types && sc1.s.addrSchisms == sc.s.addrSchisms && sc1.s.schisms == sc.s.schisms
    requires sc1.s.reuses == sc.s.reuses && sc1.s.deferred == sc.s.deferred
    ensures Inner(sc1, s0, src, seed, at)
  {
    forall i: nat | i < |sc1.log| ensures LinkHolds(sc1, s0, src, seed, at, i) {
      assert LinkHolds(sc, s0, src, seed, at, i);
    }
  }

  lemma ExpandFollows(sc1: Scan, r: Scan, src: Sources, base: nat, ts: seq<Target>)
    requires base in sc1.s.types && Grows(sc1, r)
    requires forall t :: LeadsTo(src, base, sc1.s.types[base].typeInfo.fields, t) ==> t.addr in sc1.s.types || t in ts
    requires forall k :: 0 <= k < |ts| ==> ts[k].addr in r.visited
    ensures Followed(r, src, base)
  {
  }

  lemma ExpandKeepsFollowed(sc: Scan, sc1: Scan, r: Scan, src: Sources, a: nat)
    requires Closed(sc, src) && sc.queue != [] && sc1.queue == sc.queue[1..]
    requires sc1.s.types == sc.s.types && sc1.visited == sc.visited && Grows(sc1, r)
    requires a in r.visited && a !in r.queue && a != sc.queue[0]
    ensures Followed(r, src, a)
  {
    assert a in sc.visited && a !in sc1.queue;
    assert a !in sc.queue;
    assert Followed(sc, src, a);
  }

  // ----- the whole scan -----

  lemma {:induction false} WalkInv(sc: Scan, s0: Shadow, src: Sources, seed: nat, at: nat, fuel: nat)
    requires Inv(sc, s0, src, seed, at)
    ensures Inv(Walk(sc, src, at, fuel), s0, src, seed, at) && Done(Walk(sc, src, at, fuel), fuel)
    decreases if sc.stamped < fuel then fuel - sc.stamped else 0, |sc.queue|
  {
    if !Done(sc, fuel) {
      ExpandInv(sc, s0, src, seed, at);
      WalkInv(Expand(sc, src, at), s0, src, seed, at, fuel);
    }
  }

  /** The fuel is overrun by at most one node's pointer fields, less one. */
  lemma {:induction false} WalkBound(sc: Scan, s0: Shadow, src: Sources, seed: nat, at: nat, fuel: nat) returns (last: nat)
    requires Inv(sc, s0, src, seed, at)
    ensures var r := Walk(sc, src, at, fuel);
            r.stamped > sc.stamped ==> (last in r.s.types && r.stamped <= fuel - 1 + Width(r.s.types[last]))
    ensures Walk(sc, src, at, fuel).stamped >= sc.stamped
    ensures forall a :: a in sc.s.types ==> a in Walk(sc, src, at, fuel).s.types && Walk(sc, src, at, fuel).s.types[a] == sc.s.types[a]
    decreases if sc.stamped < fuel then fuel - sc.stamped else 0, |sc.queue|
  {
    last := 0;
    if !Done(sc, fuel) {
      var next := Expand(sc, src, at);
      ExpandInv(sc, s0, src, seed, at);
      ExpandGrows(sc, s0, src, seed, at);
      last := WalkBound(next, s0, src, seed, at, fuel);
      if Walk(next, src, at, fuel).stamped == next.stamped { last := sc.queue[0]; }
    }
  }

  lemma ExpandGrows(sc: Scan, s0: Shadow, src: Sources, seed: nat, at: nat)
    requires Inv(sc, s0, src, seed, at) && sc.queue != []
    ensures var r, base := Expand(sc, src, at), sc.queue[0];
            && (forall a :: a in sc.s.types ==> a in r.s.types && r.s.types[a] == sc.s.types[a])
            && (if base in sc.s.types then
                  var fields := sc.s.types[base].typeInfo.fields; r.stamped <= sc.stamped + PointerFields(fields, |fields|)
                else r.stamped == sc.stamped)
  {
    var base := sc.queue[0];
    if base in sc.s.types {
      var fields, ts := sc.s.types[base].typeInfo.fields, NodeTargets(sc, src, base);
      NodeTargetsFresh(sc, s0, src, base);
      var sc1 := sc.(queue := sc.queue[1..], s := Register(sc.s, src, base, fields, |fields|));
      RegisterInner(sc, sc1, s0, src, seed, at);
      VisitAllInner(sc1, s0, src, seed, at, base, ts, |ts|);
    }
  }

  lemma {:induction false} VisitAllSound(sc: Scan, parent: nat, ts: seq<Target>, at: nat, n: nat)
    requires n <= |ts| && Sound(sc.s)
    ensures Sound(VisitAll(sc, parent, ts, at, n).s)
  {
    if n > 0 {
      VisitAllSound(sc, parent, ts, at, n - 1);
      StampSound(VisitAll(sc, parent, ts, at, n - 1).s, ts[n - 1].addr, ts[n - 1].ti, ts[n - 1].name, at);
    }
  }

  lemma {:induction false} WalkSound(sc: Scan, src: Sources, at: nat, fuel: nat)
    requires Sound(sc.s)
    ensures Sound(Walk(sc, src, at, fuel).s)
    decreases if sc.stamped < fuel then fuel - sc.stamped else 0, |sc.queue|
  {
    if !Done(sc, fuel) {
      var base := sc.queue[0];
      if base in sc.s.types {
        var fields, ts := sc.s.types[base].typeInfo.fields, NodeTargets(sc, src, base);
        VisitAllSound(sc.(queue := sc.queue[1..], s := Register(sc.s, src, base, fields, |fields|)), base, ts, at, |ts|);
      }
      WalkSound(Expand(sc, src, at), src, at, fuel);
    }
  }

  /** What a retrospective scan promises on any pointer graph, cyclic or not. It only adds
      projections and counts no schism; it stamps each address at most once and each through a
      pointer field of the seed or of an earlier stamp; unless it ran out of fuel, everything the
      visited nodes lead to is typed or was tried; and it overruns its fuel by less than one node's
      pointer fields. */
  lemma RetrospectMeets(s: Shadow, src: Sources, seed: nat, at: nat) returns (last: nat)
    ensures var r, fuel := Retrospect(s, src, seed, at), Fuel(s, seed);
            && OnlyAdds(s, r.s) && StampedOnce(r, seed) && Linked(r, s, src, seed, at) && NothingElse(r, s, seed)
            && (r.stamped < fuel ==> forall a :: a in r.visited ==> Followed(r, src, a))
            && (r.stamped > 0 ==> (last in r.s.types && r.stamped <= fuel - 1 + Width(r.s.types[last])))
  {
    var fuel := Fuel(s, seed);
    assert Inv(Begin(s, seed), s, src, seed, at);
    WalkInv(Begin(s, seed), s, src, seed, at, fuel);
    last := WalkBound(Begin(s, seed), s, src, seed, at, fuel);
  }

  function Addresses(log: seq<Link>, n: nat): set<nat>
    requires n <= |log|
  {
    if n == 0 then {} else Addresses(log, n - 1) + {log[n - 1].target.addr}
  }

  lemma {:induction false} AddressOf(log: seq<Link>, n: nat, a: nat)
    requires n <= |log|
    ensures a in Addresses(log, n) <==> exists i :: 0 <= i < n && log[i].target.addr == a
  {
    if n > 0 { AddressOf(log, n - 1, a); }
  }

  lemma {:induction false} AddressesCounted(log: seq<Link>, n: nat)
    requires n <= |log| && forall i, j :: 0 <= i < j < |log| ==> log[i].target.addr != log[j].target.addr
    ensures |Addresses(log, n)| == n
  {
    if n > 0 {
      AddressesCounted(log, n - 1);
      AddressOf(log, n - 1, log[n - 1].target.addr);
    }
  }

  predicate AllSized(log: seq<Link>) {
    forall i :: 0 <= i < |log| ==> log[i].target.ti.byteSize > 0
  }

  /** Every projection gained was stamped by the scan. */
  lemma GainedIsTried(sc: Scan, s0: Shadow, seed: nat, a: nat)
    requires StampedOnce(sc, seed) && NothingElse(sc, s0, seed) && a in sc.s.types && a !in s0.types
    ensures a in Addresses(sc.log, |sc.log|)
  {
    assert Stamps(sc.log, a);
    AddressOf(sc.log, |sc.log|, a);
  }

  /** A stamp of a sized type is a projection gained, any other is not. */
  lemma TriedIsGained(sc: Scan, s0: Shadow, src: Sources, seed: nat, at: nat, i: nat)
    requires Linked(sc, s0, src, seed, at) && i < |sc.log|
    ensures var t := sc.log[i].target;
            t.addr in sc.s.types.Keys - s0.types.Keys <==> t.ti.byteSize > 0
  {
    assert LinkHolds(sc, s0, src, seed, at, i);
  }

  /** The count returned is the number of projections gained exactly when no pointee without a size
      was met: such a stamp is rejected, and counted. */
  lemma CountedStamps(s: Shadow, src: Sources, seed: nat, at: nat)
    ensures var r := Retrospect(s, src, seed, at);
            && |r.s.types.Keys - s.types.Keys| <= r.stamped
            && (r.stamped == |r.s.types.Keys - s.types.Keys| <==> AllSized(r.log))
  {
    var last := RetrospectMeets(s, src, seed, at);
    CountAgrees(Retrospect(s, src, seed, at), s, src, seed, at);
  }

  lemma CountAgrees(r: Scan, s: Shadow, src: Sources, seed: nat, at: nat)
    requires StampedOnce(r, seed) && Linked(r, s, src, seed, at) && NothingElse(r, s, seed)
    ensures |r.s.types.Keys - s.types.Keys| <= r.stamped
    ensures r.stamped == |r.s.types.Keys - s.types.Keys| <==> AllSized(r.log)
  {
    var gained := r.s.types.Keys - s.types.Keys;
    forall a | a in gained ensures a in Addresses(r.log, |r.log|) { GainedIsTried(r, s, seed, a); }
    forall i: nat | i < |r.log| ensures r.log[i].target.addr in gained <==> r.log[i].target.ti.byteSize > 0 {
      TriedIsGained(r, s, src, seed, at, i);
    }
    SizedCount(r.log, gained);
  }

  lemma SizedCount(log: seq<Link>, gained: set<nat>)
    requires forall i, j :: 0 <= i < j < |log| ==> log[i].target.addr != log[j].target.addr
    requires gained <= Addresses(log, |log|)
    requires forall i :: 0 <= i < |log| ==> (log[i].target.addr in gained <==> log[i].target.ti.byteSize > 0)
    ensures |gained| <= |log| && (|gained| == |log| <==> AllSized(log))
  {
    var tried := Addresses(log, |log|);
    AddressesCounted(log, |log|);
    SubsetSize(gained, tried);
    if AllSized(log) {
      forall a | a in tried ensures a in gained { AddressOf(log, |log|, a); }
      assert gained == tried;
    } else {
      var i: nat :| i < |log| && log[i].target.ti.byteSize == 0;
      AddressOf(log, |log|, log[i].target.addr);
      SubsetSize(gained, tried - {log[i].target.addr});
    }
  }

  lemma {:induction false} SubsetSize(a: set<nat>, b: set<nat>)
    requires a <= b
    ensures |a| <= |b|
  {
    if a != {} {
      var x :| x in a;
      SubsetSize(a - {x}, b - {x});
    }
  }

  // ----- which type registries make the count right -----

  /** The count returned is the number of projections gained. */
  predicate Counted(s: Shadow, src: Sources, seed: nat, at: nat) {
    var r := Retrospect(s, src, seed, at);
    r.stamped == |r.s.types.Keys - s.types.Keys|
  }

  predicate AllRegisteredSized(registry: Registry) {
    forall n :: n in registry ==> registry[n].byteSize > 0
  }

  lemma SizedCounts(s: Shadow, src: Sources, seed: nat, at: nat)
    requires AllRegisteredSized(src.env.registry)
    ensures Counted(s, src, seed, at)
  {
    var r := Retrospect(s, src, seed, at);
    var last := RetrospectMeets(s, src, seed, at);
    forall i: nat | i < |r.log| ensures r.log[i].target.ti.byteSize > 0 {
      assert LinkHolds(r, s, src, seed, at, i);
    }
    CountedStamps(s, src, seed, at);
  }

  /** A structure of one pointer, to the type of the given name. */
  function OnePointer(name: string): TypeInfo {
    TypeInfo("Seed", 8, false, [FieldInfo("next", 0, 8, TypeInfo("*" + name, 8, true, []))])
  }

  /** A map with only that structure, at address 8. */
  function OneSeed(name: string): Shadow {
    EMPTY.(types := map[8 := Projection(8, OnePointer(name), "", 0)])
  }

  /** Its pointer leads to 0x2000. */
  function OneValue(registry: Registry): Sources {
    Sources(Env(registry, map[]), Heap.EMPTY, Some(map[8 := 0x2000]))
  }

  lemma {:induction false} OneTarget(registry: Registry, name: string)
    requires name in registry
    ensures NodeTargets(Begin(OneSeed(name), 8), OneValue(registry), 8) == [Target("next", 0x2000, registry[name])]
  {
    var f := OnePointer(name).fields[0];
    assert ("*" + name)[1..] == name;
    assert Follow(OneValue(registry), 8, f) == Some(Target("next", 0x2000, registry[name]));
  }

  /** For a registered type without a size: its one stamp is rejected, and counted. */
  lemma {:induction false} UnsizedMiscounts(registry: Registry, name: string)
    requires name in registry && registry[name].byteSize == 0
    ensures Sound(OneSeed(name))
    ensures var r := Retrospect(OneSeed(name), OneValue(registry), 8, 0);
            r.stamped == 1 && r.s.types == OneSeed(name).types
    ensures !Counted(OneSeed(name), OneValue(registry), 8, 0)
  {
    var s, src := OneSeed(name), OneValue(registry);
    var b := Begin(s, 8);
    OneTarget(registry, name);
    var fields, ts := OnePointer(name).fields, NodeTargets(b, src, 8);
    var b1 := b.(queue := b.queue[1..], s := Register(b.s, src, 8, fields, |fields|));
    assert VisitAll(b1, 8, ts, 0, 1) == Visit(b1, 8, ts[0], 0);
    var sc := Expand(b, src, 0);
    assert sc == Visit(b1, 8, ts[0], 0);
    assert sc.queue == [0x2000] && sc.stamped == 1 && sc.s.types == s.types;
    var last := Expand(sc, src, 0);
    assert last.queue == [] && last.stamped == 1 && last.s.types == s.types;
    assert Fuel(s, 8) >= MIN_FUEL;
    assert Walk(last, src, 0, Fuel(s, 8)) == last;
    assert Walk(sc, src, 0, Fuel(s, 8)) == last;
    assert s.types.Keys - s.types.Keys == {};
  }

  /** The count is right for every map, heap graph, memory and seed exactly when every type in the
      registry has a size. */
  lemma {:induction false} CountsExactly(registry: Registry)
    ensures AllRegisteredSized(registry)
            <==> (forall s, src: Sources, seed, at :: Sound(s) && src.env.registry == registry ==> Counted(s, src, seed, at))
  {
    if AllRegisteredSized(registry) {
      forall s, src: Sources, seed, at | Sound(s) && src.env.registry == registry ensures Counted(s, src, seed, at) {
        SizedCounts(s, src, seed, at);
      }
    } else {
      var name :| name in registry && registry[name].byteSize == 0;
      UnsizedMiscounts(registry, name);
      assert OneValue(registry).env.registry == registry;
    }
  }
}
