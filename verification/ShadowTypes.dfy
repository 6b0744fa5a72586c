/** The shadow type map (`engine/src/world.rs`): which type is believed to live at which heap
    address, how pointer writes spread types, and how often two types met at one address. */
module ShadowTypes {
  import opened OrderedMap
  import opened Types
  import opened Words
  import CircularLogs

  const U16_MAX: nat := U16 - 1
  const DEFERRED_CAP: nat := 4096

  datatype Projection = Projection(base: nat, typeInfo: TypeInfo, source: string, stampSeq: nat)
  {
    predicate Covers(addr: nat) { base <= addr < base + typeInfo.byteSize }
  }

  datatype StampResult = Stamped | Restamped | Schism(prior: Projection) | PoolReuse(prior: Projection) | Rejected

  /** A pointer write that no projection covered when it happened. */
  datatype Deferred = Deferred(addr: nat, value: nat, at: nat)

  datatype Shadow = Shadow(
    types: map<nat, Projection>, indirect: map<nat, TypeInfo>, deferred: seq<Deferred>,
    addrSchisms: map<nat, nat>, schisms: nat, reuses: nat,
    indirectStamps: nat, indirectRegistrations: nat, deferredReplays: nat)

  const EMPTY: Shadow := Shadow(map[], map[], [], map[], 0, 0, 0, 0, 0)

  type Registry = map<string, TypeInfo>

  datatype Alloc = Alloc(size: nat, at: nat)

  /** What the stamps consult: type definitions by name and live allocations by address. */
  datatype Env = Env(registry: Registry, allocs: map<nat, Alloc>)

  predicate InRange(x: nat, addr: nat, size: nat) { addr <= x < SatAdd(addr, size) }

  // ----- stamping one address -----

  function Overwrite(s: Shadow, addr: nat, ti: TypeInfo, source: string, at: nat): Shadow {
    var hits := if addr in s.addrSchisms then s.addrSchisms[addr] else 0;
    var hits' := if hits < U16_MAX then hits + 1 else hits;
    s.(types := s.types[addr := Projection(addr, ti, source, at)], addrSchisms := s.addrSchisms[addr := hits'],
       schisms := if hits' >= 2 then s.schisms else s.schisms + 1,
       reuses := if hits' >= 2 then s.reuses + 1 else s.reuses)
  }

  function Stamp(s: Shadow, addr: nat, ti: TypeInfo, source: string, at: nat): (r: (Shadow, StampResult))
    ensures r.0.types != s.types ==> r.1 != Rejected && r.1 != Restamped
    ensures addr !in s.types && r.1 != Rejected ==> r.1 == Stamped
    ensures r.0.deferred == s.deferred && r.0.indirect == s.indirect
  {
    if addr == 0 || ti.byteSize == 0 then (s, Rejected)
    else if addr in s.types then
      var existing := s.types[addr];
      if existing.typeInfo.name == ti.name then (s, Restamped)
      else if existing.stampSeq > at then (s, Rejected)
      else
        var s' := Overwrite(s, addr, ti, source, at);
        (s', if s'.addrSchisms[addr] >= 2 then PoolReuse(existing) else Schism(existing))
    else (s.(types := s.types[addr := Projection(addr, ti, source, at)]), Stamped)
  }

  // ----- looking addresses up -----

  /** The projection with the greatest base at or below the address, if it reaches the address. */
  function Predecessor(types: map<nat, Projection>, addr: nat): Option<Projection> {
    match Floor(types.Keys, addr)
    case Some(base) =>
      if addr < types[base].base + types[base].typeInfo.byteSize then Some(types[base]) else None
    case None => None
  }

  predicate Covered(types: map<nat, Projection>, addr: nat) { Predecessor(types, addr).Some? }

  /** `covering`: as above, with one more step backwards when the nearest projection is too short. */
  function Covering(types: map<nat, Projection>, addr: nat): Option<Projection> {
    match Floor(types.Keys, addr)
    case None => None
    case Some(base) =>
      if addr < types[base].base + types[base].typeInfo.byteSize then Some(types[base])
      else match Floor(types.Keys - {base}, addr)
        case None => None
        case Some(parent) =>
          if addr < types[parent].base + types[parent].typeInfo.byteSize then Some(types[parent]) else None
  }

  /** `containing_alloc`, as the base of the allocation. */
  function ContainingAlloc(allocs: map<nat, Alloc>, addr: nat): Option<nat> {
    match Floor(allocs.Keys, addr)
    case Some(base) => if addr < SatAdd(base, allocs[base].size) then Some(base) else None
    case None => None
  }

  /** No address lies in two live allocations. */
  predicate AllocsDisjoint(allocs: map<nat, Alloc>) {
    forall a, b :: a in allocs && b in allocs && a < b ==> SatAdd(a, allocs[a].size) <= b
  }

  /** While allocations are disjoint, looking no further than the nearest base loses nothing. */
  lemma ContainingIsExact(allocs: map<nat, Alloc>, addr: nat, base: nat)
    requires AllocsDisjoint(allocs) && base in allocs
    ensures ContainingAlloc(allocs, addr) == Some(base) <==> InRange(addr, base, allocs[base].size)
  {
    var near := Floor(allocs.Keys, addr);
    if InRange(addr, base, allocs[base].size) {
      assert base in allocs.Keys && near.Some?;
      assert near.value == base;
    }
  }

  /** The element type of the array an address lies in. */
  function IndirectType(s: Shadow, env: Env, addr: nat): Option<TypeInfo> {
    match ContainingAlloc(env.allocs, addr)
    case None => None
    case Some(base) =>
      if addr >= base + env.allocs[base].size || base !in s.indirect then None else Some(s.indirect[base])
  }

  function FieldsAt(fields: seq<FieldInfo>, offset: nat, n: nat): (r: seq<FieldInfo>)
    requires n <= |fields|
  {
    if n == 0 then []
    else
      var before, f := FieldsAt(fields, offset, n - 1), fields[n - 1];
      if f.byteOffset == offset && f.name != "<pointee>" then before + [f] else before
  }

  function FirstOfSize(fields: seq<FieldInfo>, size: nat, n: nat): Option<FieldInfo>
    requires n <= |fields|
  {
    if n == 0 then None
    else match FirstOfSize(fields, size, n - 1)
      case Some(f) => Some(f)
      case None => if fields[n - 1].byteSize == size then Some(fields[n - 1]) else None
  }

  /** `max_by_key` keeps the last of equals. */
  function LastLargest(fields: seq<FieldInfo>, n: nat): FieldInfo
    requires 0 < n <= |fields|
  {
    if n == 1 then fields[0]
    else
      var before := LastLargest(fields, n - 1);
      if fields[n - 1].byteSize >= before.byteSize then fields[n - 1] else before
  }

  /** Of several fields at one offset, the one of pointer size, else the largest. */
  function FieldFor(ti: TypeInfo, offset: nat): Option<FieldInfo> {
    var c := FieldsAt(ti.fields, offset, |ti.fields|);
    if c == [] then None
    else if |c| == 1 then Some(c[0])
    else match FirstOfSize(c, 8, |c|)
      case Some(f) => Some(f)
      case None => Some(LastLargest(c, |c|))
  }

  // ----- a pointer write spreads a type -----

  /** A write into an array of known element type: the value is an element. */
  function PropagateIndirect(s: Shadow, ti: TypeInfo, value: nat, at: nat): (Shadow, bool) {
    var r := Stamp(s, value, ti, "<indirect>", at);
    if r.1.Stamped? || r.1.Schism? || r.1.PoolReuse?
    then (r.0.(indirectStamps := r.0.indirectStamps + 1), true)
    else (r.0, false)
  }

  /** A write into a pointer field: the value points to the field's pointee. A pointer to pointer
      makes the value an array of the inner pointee. Propagation never causes a schism. */
  function PropagatePointer(s: Shadow, env: Env, f: FieldInfo, value: nat, at: nat): (Shadow, bool) {
    var pointee := Pointee(f.typeInfo.name);
    if pointee in env.registry then
      var ti := env.registry[pointee];
      if value in s.types && s.types[value].typeInfo.name != ti.name then (s, false)
      else var r := Stamp(s, value, ti, f.name, at); (r.0, r.1.Stamped?)
    else if |pointee| > 0 && pointee[0] == '*' && Pointee(pointee) in env.registry then
      (s.(indirect := s.indirect[value := env.registry[Pointee(pointee)]],
          indirectRegistrations := s.indirectRegistrations + 1), false)
    else (s, false)
  }

  /** The freshness guard: an allocation newer than the stamp at its base voids the stamp. */
  predicate Outdated(env: Env, p: Projection) {
    p.base in env.allocs && p.stampSeq < env.allocs[p.base].at
  }

  /** A write into a typed region; in a sound map a projection never begins above the address. */
  function PropagateField(s: Shadow, env: Env, p: Projection, addr: nat, value: nat, at: nat): (Shadow, bool) {
    if Outdated(env, p) || addr < p.base then (s, false)
    else match FieldFor(p.typeInfo, addr - p.base)
      case Some(f) => if f.typeInfo.isPointer then PropagatePointer(s, env, f, value, at) else (s, false)
      case None => (s, false)
  }

  /** `propagate_field_write`. */
  function Propagate(s: Shadow, env: Env, addr: nat, value: nat, size: nat, at: nat): (Shadow, bool) {
    if size != 8 || value == 0 then (s, false)
    else match IndirectType(s, env, addr)
      case Some(ti) => PropagateIndirect(s, ti, value, at)
      case None =>
        match Predecessor(s.types, addr)
        case Some(p) => PropagateField(s, env, p, addr, value, at)
        case None => (s, false)
  }

  /** A propagation that reports no success has not touched the type map, and none touches the
      deferred writes: this is what lets a replay stop after a pass without success. */
  lemma FailedPropagationKeepsTypes(s: Shadow, env: Env, addr: nat, value: nat, size: nat, at: nat)
    ensures var r := Propagate(s, env, addr, value, size, at);
            && r.0.deferred == s.deferred && r.0.deferredReplays == s.deferredReplays
            && (!r.1 ==> r.0.types == s.types)
            && (r.1 ==> value in r.0.types && r.0.types[value].stampSeq == at)
  {
  }

  // ----- the rest of the operations -----

  function Postpone(s: Shadow, d: Deferred): Shadow {
    s.(deferred := (if |s.deferred| >= DEFERRED_CAP then s.deferred[1..] else s.deferred) + [d])
  }

  function PostponeAll(s: Shadow, ds: seq<Deferred>, n: nat): Shadow
    requires n <= |ds|
  {
    if n == 0 then s else Postpone(PostponeAll(s, ds, n - 1), ds[n - 1])
  }

  lemma OneMorePostponed(s: Shadow, log: seq<Deferred>, d: Deferred)
    requires s.deferred == CircularLogs.Window(log, 4096)
    ensures Postpone(s, d).deferred == CircularLogs.Window(log + [d], 4096)
  {
    CircularLogs.WindowPush(log, 4096, d);
  }

  /** However many writes are deferred, the newest 4096 are kept, in order. */
  lemma {:induction false} DeferredAreNewest(s: Shadow, ds: seq<Deferred>, n: nat)
    requires n <= |ds| && s.deferred == []
    ensures PostponeAll(s, ds, n).deferred == CircularLogs.Window(ds[..n], 4096)
  {
    if n > 0 {
      DeferredAreNewest(s, ds, n - 1);
      OneMorePostponed(PostponeAll(s, ds, n - 1), ds[..n - 1], ds[n - 1]);
      assert ds[..n - 1] + [ds[n - 1]] == ds[..n];
    }
  }

  function Outside(ds: seq<Deferred>, addr: nat, size: nat, n: nat): (r: seq<Deferred>)
    requires n <= |ds|
    ensures |r| <= n
  {
    if n == 0 then []
    else
      var before := Outside(ds, addr, size, n - 1);
      if InRange(ds[n - 1].addr, addr, size) then before else before + [ds[n - 1]]
  }

  function PurgeTypes(s: Shadow, addr: nat, size: nat): Shadow {
    s.(types := map a | a in s.types && !InRange(s.types[a].base, addr, size) :: s.types[a])
  }

  function PurgeIndirect(s: Shadow, addr: nat, size: nat): Shadow {
    s.(indirect := map a | a in s.indirect && !InRange(a, addr, size) :: s.indirect[a])
  }

  function PurgeDeferred(s: Shadow, addr: nat, size: nat): Shadow {
    s.(deferred := Outside(s.deferred, addr, size, |s.deferred|))
  }

  // ----- what every operation keeps -----

  /** Projections sit under their own nonzero address and have a size, the deferred list is
      bounded, and each address in the tally counts as one schism. */
  predicate Sound(s: Shadow) {
    && (forall a :: a in s.types ==> s.types[a].base == a && a != 0 && s.types[a].typeInfo.byteSize > 0)
    && |s.deferred| <= 4096
    && s.schisms == |s.addrSchisms.Keys|
    && forall a :: a in s.addrSchisms ==> 1 <= s.addrSchisms[a] <= 65535
  }

  /** An older stamp never replaces a newer one. */
  predicate StampsAdvance(s: Shadow, s': Shadow) {
    forall a :: a in s.types ==> a in s'.types && s.types[a].stampSeq <= s'.types[a].stampSeq
  }

  lemma AdvanceTrans(a: Shadow, b: Shadow, c: Shadow)
    requires StampsAdvance(a, b) && StampsAdvance(b, c)
    ensures StampsAdvance(a, c)
  {
  }

  lemma KeysGrow<K, V>(m: map<K, V>, k: K, v: V)
    ensures |m[k := v].Keys| == |m.Keys| + if k in m then 0 else 1
  {
    if k in m { assert m[k := v].Keys == m.Keys; } else { assert m[k := v].Keys == m.Keys + {k}; }
  }

  lemma StampSound(s: Shadow, addr: nat, ti: TypeInfo, source: string, at: nat)
    requires Sound(s)
    ensures Sound(Stamp(s, addr, ti, source, at).0)
    ensures StampsAdvance(s, Stamp(s, addr, ti, source, at).0)
  {
    var s' := Stamp(s, addr, ti, source, at).0;
    if s'.addrSchisms != s.addrSchisms { KeysGrow(s.addrSchisms, addr, s'.addrSchisms[addr]); }
  }

  lemma PropagateSound(s: Shadow, env: Env, addr: nat, value: nat, size: nat, at: nat)
    requires Sound(s)
    ensures Sound(Propagate(s, env, addr, value, size, at).0)
    ensures StampsAdvance(s, Propagate(s, env, addr, value, size, at).0)
  {
    if IndirectType(s, env, addr).Some? {
      StampSound(s, value, IndirectType(s, env, addr).value, "<indirect>", at);
    } else if Predecessor(s.types, addr).Some? {
      var p := Predecessor(s.types, addr).value;
      if addr >= p.base && FieldFor(p.typeInfo, addr - p.base).Some? {
        var f := FieldFor(p.typeInfo, addr - p.base).value;
        if Pointee(f.typeInfo.name) in env.registry {
          StampSound(s, value, env.registry[Pointee(f.typeInfo.name)], f.name, at);
        }
      }
    }
  }

  // ----- the tally against the history of overwritten types -----

  /** The address, if a stamp has just put a different type there. */
  function Met(s: Shadow, s': Shadow, addr: nat): multiset<nat> {
    if addr in s.types && addr in s'.types && s.types[addr].typeInfo.name != s'.types[addr].typeInfo.name
    then multiset{addr} else multiset{}
  }

  /** `met` is the history of overwrites, one entry each: an address is tallied if and only if its
      type was ever overwritten, with the number of times, up to 65535; the schisms are the
      addresses overwritten, and the reuses all overwrites after the first of an address. */
  ghost predicate Tallied(tally: map<nat, nat>, schisms: nat, reuses: nat, met: multiset<nat>) {
    && (forall a :: a in tally <==> a in met)
    && (forall a :: a in tally ==> tally[a] == if met[a] < 65535 then met[a] else 65535)
    && schisms == |tally.Keys|
    && schisms + reuses == |met|
  }

  ghost predicate Tallies(s: Shadow, met: multiset<nat>) { Tallied(s.addrSchisms, s.schisms, s.reuses, met) }

  lemma OverwriteTallies(s: Shadow, addr: nat, ti: TypeInfo, source: string, at: nat, met: multiset<nat>)
    requires Tallies(s, met)
    ensures Tallies(Overwrite(s, addr, ti, source, at), met + multiset{addr})
  {
    var s' := Overwrite(s, addr, ti, source, at);
    KeysGrow(s.addrSchisms, addr, s'.addrSchisms[addr]);
  }

  lemma StampTallies(s: Shadow, addr: nat, ti: TypeInfo, source: string, at: nat, met: multiset<nat>)
    requires Tallies(s, met)
    ensures var s' := Stamp(s, addr, ti, source, at).0; Tallies(s', met + Met(s, s', addr))
  {
    var s' := Stamp(s, addr, ti, source, at).0;
    if Met(s, s', addr) == multiset{} {
      assert met + Met(s, s', addr) == met;
    } else {
      OverwriteTallies(s, addr, ti, source, at, met);
    }
  }

  /** What a stamp does and reports. It is refused for null, for a type without a size, and against a
      different type stamped later; the same type again changes nothing. Otherwise the address gets
      the type, and if it had another one before, that is a schism the first time this happens to the
      address and a reuse of its memory every further time. */
  lemma StampVerdict(s: Shadow, addr: nat, ti: TypeInfo, source: string, at: nat, met: multiset<nat>)
    requires Tallies(s, met)
    ensures var s', r := Stamp(s, addr, ti, source, at).0, Stamp(s, addr, ti, source, at).1;
            && (r.Rejected? <==> addr == 0 || ti.byteSize == 0
                                 || (addr in s.types && s.types[addr].typeInfo.name != ti.name && at < s.types[addr].stampSeq))
            && (r.Rejected? || r.Restamped? ==> s' == s)
            && (!r.Rejected? && !r.Restamped? ==> s'.types == s.types[addr := Projection(addr, ti, source, at)])
            && (!r.Rejected? ==> (r.Stamped? <==> addr !in s.types))
            && (!r.Rejected? && addr in s.types ==> (r.Restamped? <==> s.types[addr].typeInfo.name == ti.name))
            && (r.Schism? ==> addr !in met && r.prior == s.types[addr])
            && (r.PoolReuse? ==> addr in met && r.prior == s.types[addr])
  {
  }

  /** The parts of the map that overwrites show in. */
  predicate SameTally(a: Shadow, b: Shadow) {
    a.types == b.types && a.addrSchisms == b.addrSchisms && a.schisms == b.schisms && a.reuses == b.reuses
  }

  lemma SameTallies(a: Shadow, b: Shadow, met: multiset<nat>)
    requires SameTally(a, b) && Tallies(a, met)
    ensures Tallies(b, met)
  {
  }

  /** A write into an array is a stamp of its element; through a pointer field a type only ever goes
      where there is none. */
  lemma PropagateIsStamp(s: Shadow, env: Env, addr: nat, value: nat, size: nat, at: nat)
    ensures var s', ti := Propagate(s, env, addr, value, size, at).0, IndirectType(s, env, addr);
            if size == 8 && value != 0 && ti.Some? then SameTally(Stamp(s, value, ti.value, "<indirect>", at).0, s')
            else SameTally(s, s'.(types := s.types)) && Met(s, s', value) == multiset{}
  {
  }

  lemma PropagateTallies(s: Shadow, env: Env, addr: nat, value: nat, size: nat, at: nat, met: multiset<nat>)
    requires Tallies(s, met)
    ensures var s' := Propagate(s, env, addr, value, size, at).0; Tallies(s', met + Met(s, s', value))
  {
    var s', ti := Propagate(s, env, addr, value, size, at).0, IndirectType(s, env, addr);
    PropagateIsStamp(s, env, addr, value, size, at);
    if size == 8 && value != 0 && ti.Some? {
      var stamped := Stamp(s, value, ti.value, "<indirect>", at).0;
      StampTallies(s, value, ti.value, "<indirect>", at, met);
      SameTallies(stamped, s', met + Met(s, s', value));
    } else {
      assert met + Met(s, s', value) == met;
      TallyIgnoresTypes(s, s', met);
    }
  }

  lemma TallyIgnoresTypes(a: Shadow, b: Shadow, met: multiset<nat>)
    requires SameTally(a, b.(types := a.types)) && Tallies(a, met)
    ensures Tallies(b, met)
  {
  }

  /** In a sound map `covering` returns the innermost projection around the address, unless at
      least two shorter projections begin between its base and the address. */
  lemma CoveringIsInnermost(s: Shadow, addr: nat)
    requires Sound(s)
    ensures var r := Covering(s.types, addr);
            && (r.Some? ==> r.value.base in s.types && s.types[r.value.base] == r.value && r.value.Covers(addr)
                            && forall a :: a in s.types && s.types[a].Covers(addr) ==> a <= r.value.base)
            && (r.None? ==> forall a :: a in s.types && s.types[a].Covers(addr) ==>
                              exists b, c :: b in s.types && c in s.types && a < b < c <= addr)
  {
    var near := Floor(s.types.Keys, addr);
    forall a | a in s.types && s.types[a].Covers(addr) && Covering(s.types, addr).None?
      ensures exists b, c :: b in s.types && c in s.types && a < b < c <= addr
    {
      assert a in s.types.Keys && near.Some?;
      assert a in s.types.Keys - {near.value};
      var next := Floor(s.types.Keys - {near.value}, addr);
      assert a < next.value < near.value;
    }
    if near.Some? && !s.types[near.value].Covers(addr) {
      forall a | a in s.types && s.types[a].Covers(addr) ensures a in s.types.Keys - {near.value} {}
    }
  }
}
