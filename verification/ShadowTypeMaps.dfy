/** `ShadowTypeMap` (`engine/src/world.rs`) as the engine runs it: fields updated in place and the
    loops of the replay and of the retrospective scan, proved equal to their specifications. */
module ShadowTypeMaps {
  import opened OrderedMap
  import opened Types
  import opened ShadowTypes
  import opened DeferredReplay
  import Scan = RetrospectiveScan
  import opened Words

  // ----- whole traces -----

  datatype MapOp =
    | StampOp(addr: nat, ti: TypeInfo, source: string, at: nat)
    | PropagateOp(env: Env, addr: nat, value: nat, size: nat, at: nat)
    | PostponeOp(d: Deferred)
    | ReplayOp(env: Env)
    | ScanOp(src: Scan.Sources, seed: nat, at: nat)
    | RegisterOp(addr: nat, ti: TypeInfo)
    | PurgeTypesOp(addr: nat, size: nat)
    | PurgeIndirectOp(addr: nat, size: nat)
    | PurgeDeferredOp(addr: nat, size: nat)

  function ApplyOp(s: Shadow, op: MapOp): Shadow {
    match op
    case StampOp(addr, ti, source, at) => Stamp(s, addr, ti, source, at).0
    case PropagateOp(env, addr, value, size, at) => Propagate(s, env, addr, value, size, at).0
    case PostponeOp(d) => Postpone(s, d)
    case ReplayOp(env) => Replay(s, env).s
    case ScanOp(src, seed, at) => Scan.Retrospect(s, src, seed, at).s
    case RegisterOp(addr, ti) => s.(indirect := s.indirect[addr := ti])
    case PurgeTypesOp(addr, size) => PurgeTypes(s, addr, size)
    case PurgeIndirectOp(addr, size) => PurgeIndirect(s, addr, size)
    case PurgeDeferredOp(addr, size) => PurgeDeferred(s, addr, size)
  }

  /** Every operation keeps the map sound, and every one but a purge of types keeps each address's
      projection or replaces it by one stamped no earlier. */
  lemma {:induction false} ApplyOpSound(s: Shadow, op: MapOp)
    requires Sound(s)
    ensures Sound(ApplyOp(s, op)) && (!op.PurgeTypesOp? ==> StampsAdvance(s, ApplyOp(s, op)))
  {
    match op
    case StampOp(addr, ti, source, at) => StampSound(s, addr, ti, source, at);
    case PropagateOp(env, addr, value, size, at) => PropagateSound(s, env, addr, value, size, at);
    case ReplayOp(env) =>
      PassesSound(s, env, MAX_PASSES);
      PassesAdvance(s, env, MAX_PASSES);
    case ScanOp(src, seed, at) =>
      Scan.WalkSound(Scan.Begin(s, seed), src, at, Scan.Fuel(s, seed));
      var last := Scan.RetrospectMeets(s, src, seed, at);
    case _ =>
  }

  function RunOps(s: Shadow, ops: seq<MapOp>, n: nat): Shadow
    requires n <= |ops|
  {
    if n == 0 then s else ApplyOp(RunOps(s, ops, n - 1), ops[n - 1])
  }

  /** Over any trace of operations the map stays sound. While no types are purged, no stamp is ever
      replaced by an older one. */
  lemma {:induction false} RunOpsSound(s: Shadow, ops: seq<MapOp>, n: nat)
    requires n <= |ops| && Sound(s)
    ensures Sound(RunOps(s, ops, n))
    ensures (forall i :: 0 <= i < n ==> !ops[i].PurgeTypesOp?) ==> StampsAdvance(s, RunOps(s, ops, n))
  {
    if n > 0 {
      RunOpsSound(s, ops, n - 1);
      var before := RunOps(s, ops, n - 1);
      ApplyOpSound(before, ops[n - 1]);
      if forall i :: 0 <= i < n ==> !ops[i].PurgeTypesOp? { AdvanceTrans(s, before, RunOps(s, ops, n)); }
    }
  }

  /** The history `met` of overwritten types, continued by one operation, stamp by stamp. */
  function OpMet(s: Shadow, op: MapOp, met: multiset<nat>): multiset<nat> {
    match op
    case StampOp(addr, _, _, _) => met + Met(s, ApplyOp(s, op), addr)
    case PropagateOp(_, _, value, _, _) => met + Met(s, ApplyOp(s, op), value)
    case ReplayOp(env) => PassesMet(s, env, MAX_PASSES, met)
    case _ => met
  }

  /** The addresses whose type was overwritten by the first n operations on an empty map, one entry
      for each time. */
  function History(ops: seq<MapOp>, n: nat): multiset<nat>
    requires n <= |ops|
  {
    if n == 0 then multiset{} else OpMet(RunOps(EMPTY, ops, n - 1), ops[n - 1], History(ops, n - 1))
  }

  lemma {:induction false} ApplyOpTallies(s: Shadow, op: MapOp, met: multiset<nat>)
    requires Tallies(s, met)
    ensures Tallies(ApplyOp(s, op), OpMet(s, op, met))
  {
    match op
    case StampOp(addr, ti, source, at) => StampTallies(s, addr, ti, source, at, met);
    case PropagateOp(env, addr, value, size, at) => PropagateTallies(s, env, addr, value, size, at, met);
    case ReplayOp(env) => PassesTallies(s, env, MAX_PASSES, met);
    case ScanOp(src, seed, at) =>
      var last := Scan.RetrospectMeets(s, src, seed, at);
      TallyIgnoresTypes(s, ApplyOp(s, op), met);
    case _ => TallyIgnoresTypes(s, ApplyOp(s, op), met);
  }

  /** Over any trace from an empty map: the addresses that ever changed type while they had one
      count as one schism each, each further change of such an address as a reuse, and the tally of
      each is how often it changed, up to 65535. */
  lemma {:induction false} RunOpsTally(ops: seq<MapOp>, n: nat)
    requires n <= |ops|
    ensures Tallies(RunOps(EMPTY, ops, n), History(ops, n))
  {
    if n > 0 {
      RunOpsTally(ops, n - 1);
      ApplyOpTallies(RunOps(EMPTY, ops, n - 1), ops[n - 1], History(ops, n - 1));
    }
  }

  // ----- the map as the engine updates it -----

  lemma NoPassLeft(s: Shadow, env: Env)
    ensures Passes(s, env, 0).s == s && Passes(s, env, 0).total == 0
  {
  }

  lemma SplitSize(all: set<nat>, part: set<nat>)
    requires part <= all
    ensures |all| == |all - part| + |part|
  {
    assert all == (all - part) + part;
  }

  lemma PurgedCount(s: Shadow, addr: nat, size: nat)
    requires Sound(s)
    ensures |s.types| == |PurgeTypes(s, addr, size).types| + |set a | a in s.types && InRange(a, addr, size)|
  {
    var gone := set a | a in s.types && InRange(a, addr, size);
    assert gone <= s.types.Keys;
    SplitSize(s.types.Keys, gone);
    assert PurgeTypes(s, addr, size).types.Keys == s.types.Keys - gone;
  }

  class ShadowTypeMap {
    var types: map<nat, Projection>
    var indirect: map<nat, TypeInfo>
    var deferred: seq<Deferred>
    var addrSchisms: map<nat, nat>
    var schismCount: nat
    var poolReuseCount: nat
    var indirectStamps: nat
    var indirectRegistrations: nat
    var deferredReplays: nat

    constructor ()
      ensures View() == EMPTY && Sound(View())
      ensures types == map[] && indirect == map[] && deferred == [] && addrSchisms == map[]
      ensures schismCount == poolReuseCount == indirectStamps == indirectRegistrations == deferredReplays == 0
    {
      types, indirect, deferred, addrSchisms := map[], map[], [], map[];
      schismCount, poolReuseCount, indirectStamps, indirectRegistrations, deferredReplays := 0, 0, 0, 0, 0;
    }

    ghost function View(): Shadow
      reads this
    {
      Shadow(types, indirect, deferred, addrSchisms, schismCount, poolReuseCount,
             indirectStamps, indirectRegistrations, deferredReplays)
    }

    method StampType(addr: nat, ti: TypeInfo, source: string, at: nat) returns (r: StampResult)
      modifies this`types, this`addrSchisms, this`schismCount, this`poolReuseCount
      ensures (View(), r) == Stamp(old(View()), addr, ti, source, at)
    {
      if addr == 0 || ti.byteSize == 0 { return Rejected; }
      if addr in types {
        var existing := types[addr];
        if existing.typeInfo.name == ti.name { return Restamped; }
        if existing.stampSeq > at { return Rejected; }
        var hits := if addr in addrSchisms then addrSchisms[addr] else 0;
        if hits < U16_MAX { hits := hits + 1; }
        addrSchisms := addrSchisms[addr := hits];
        if hits >= 2 {
          poolReuseCount := poolReuseCount + 1;
          r := PoolReuse(existing);
        } else {
          schismCount := schismCount + 1;
          r := Schism(existing);
        }
      } else {
        r := Stamped;
      }
      types := types[addr := Projection(addr, ti, source, at)];
    }

    method DeferWrite(d: Deferred)
      modifies this`deferred
      ensures View() == Postpone(old(View()), d)
    {
      if |deferred| >= DEFERRED_CAP { deferred := deferred[1..]; }
      deferred := deferred + [d];
    }

    method PurgeDeferredWrites(addr: nat, size: nat)
      modifies this`deferred
      ensures View() == PurgeDeferred(old(View()), addr, size)
    {
      var kept: seq<Deferred> := [];
      for k := 0 to |deferred|
        invariant kept == Outside(deferred, addr, size, k) && deferred == old(deferred)
      {
        if deferred[k].addr < addr || deferred[k].addr >= SatAdd(addr, size) { kept := kept + [deferred[k]]; }
      }
      deferred := kept;
    }

    /** Returns how many projections went. */
    method PurgeRange(addr: nat, size: nat) returns (gone: nat)
      requires Sound(View())
      modifies this`types
      ensures View() == PurgeTypes(old(View()), addr, size)
      ensures gone == |set a | a in old(types) && InRange(a, addr, size)|
    {
      PurgedCount(View(), addr, size);
      var before := |types|;
      types := map a | a in types && !InRange(types[a].base, addr, size) :: types[a];
      gone := before - |types|;
    }

    method PurgeIndirectEntries(addr: nat, size: nat)
      modifies this`indirect
      ensures View() == PurgeIndirect(old(View()), addr, size)
    {
      indirect := map a | a in indirect && (a < addr || a >= SatAdd(addr, size)) :: indirect[a];
    }

    method StampElement(ti: TypeInfo, value: nat, at: nat) returns (ok: bool)
      modifies this
      ensures (View(), ok) == PropagateIndirect(old(View()), ti, value, at)
    {
      var r := StampType(value, ti, "<indirect>", at);
      ok := r.Stamped? || r.Schism? || r.PoolReuse?;
      if ok { indirectStamps := indirectStamps + 1; }
    }

    method StampPointee(env: Env, f: FieldInfo, value: nat, at: nat) returns (ok: bool)
      modifies this
      ensures (View(), ok) == PropagatePointer(old(View()), env, f, value, at)
    {
      var pointee := Pointee(f.typeInfo.name);
      if pointee in env.registry {
        var ti := env.registry[pointee];
        if value in types && types[value].typeInfo.name != ti.name { return false; }
        var r := StampType(value, ti, f.name, at);
        return r.Stamped?;
      }
      if |pointee| > 0 && pointee[0] == '*' {
        var inner := Pointee(pointee);
        if inner in env.registry {
          indirect := indirect[value := env.registry[inner]];
          indirectRegistrations := indirectRegistrations + 1;
        }
      }
      ok := false;
    }

    method IndirectLookup(env: Env, addr: nat) returns (r: Option<TypeInfo>)
      ensures r == IndirectType(View(), env, addr)
    {
      var base := ContainingAlloc(env.allocs, addr);
      if base.None? || addr >= base.value + env.allocs[base.value].size || base.value !in indirect { return None; }
      r := Some(indirect[base.value]);
    }

    method PropagateInto(env: Env, p: Projection, addr: nat, value: nat, at: nat) returns (ok: bool)
      requires p.base <= addr
      modifies this
      ensures (View(), ok) == PropagateField(old(View()), env, p, addr, value, at)
    {
      if p.base in env.allocs && p.stampSeq < env.allocs[p.base].at { return false; }
      var field := FieldFor(p.typeInfo, addr - p.base);
      if field.Some? && field.value.typeInfo.isPointer {
        ok := StampPointee(env, field.value, value, at);
      } else {
        ok := false;
      }
    }

    method PropagateFieldWrite(env: Env, addr: nat, value: nat, size: nat, at: nat) returns (ok: bool)
      requires Sound(View())
      modifies this
      ensures Sound(View())
      ensures View() == Propagate(old(View()), env, addr, value, size, at).0
      ensures ok == Propagate(old(View()), env, addr, value, size, at).1
    {
      PropagateSound(View(), env, addr, value, size, at);
      if size != 8 || value == 0 { return false; }
      var element := IndirectLookup(env, addr);
      if element.Some? {
        ok := StampElement(element.value, value, at);
        return;
      }
      var covering := Predecessor(types, addr);
      if covering.None? { return false; }
      ok := PropagateInto(env, covering.value, addr, value, at);
    }

    /** Take the writes out that a projection covers by now. */
    method DrainCovered() returns (hits: seq<Deferred>)
      modifies this`deferred
      ensures hits == Hits(old(View())) && View() == Drained(old(View()))
    {
      hits := [];
      var kept: seq<Deferred> := [];
      for k := 0 to |deferred|
        invariant hits == Select(types, deferred, true, k) && kept == Select(types, deferred, false, k)
        invariant deferred == old(deferred)
      {
        if Predecessor(types, deferred[k].addr).Some? {
          hits := hits + [deferred[k]];
        } else {
          kept := kept + [deferred[k]];
        }
      }
      deferred := kept;
    }

    method OfferAll(env: Env, hits: seq<Deferred>) returns (replayed: nat)
      requires Sound(View())
      modifies this
      ensures Sound(View())
      ensures View() == Offer(old(View()), env, hits, |hits|).0
      ensures replayed == Offer(old(View()), env, hits, |hits|).1
    {
      replayed := 0;
      ghost var s := View();
      for k := 0 to |hits|
        invariant Sound(View()) && View() == Offer(s, env, hits, k).0 && replayed == Offer(s, env, hits, k).1
      {
        OfferNext(s, env, hits, k);
        var ok := PropagateFieldWrite(env, hits[k].addr, hits[k].value, 8, hits[k].at);
        if ok { replayed := replayed + 1; }
      }
    }

    /** One pass; when it finds nothing or stamps nothing, the replay is over. */
    method ReplayPass(env: Env, ghost left: nat) returns (go: bool, replayed: nat)
      requires Sound(View()) && left > 0
      modifies this
      ensures Sound(View())
      ensures Passes(old(View()), env, left).s == if go then Passes(View(), env, left - 1).s else View()
      ensures Passes(old(View()), env, left).total == replayed + if go then Passes(View(), env, left - 1).total else 0
    {
      ghost var s := View();
      PassesStep(s, env, left);
      OfferSound(Drained(s), env, Hits(s), |Hits(s)|);
      var hits := DrainCovered();
      if hits == [] {
        NoHitsNothingDrained(s);
        return false, 0;
      }
      replayed := OfferAll(env, hits);
      go := replayed != 0;
    }

    method ReplayPasses(env: Env, limit: nat) returns (total: nat)
      requires Sound(View())
      modifies this
      ensures Sound(View())
      ensures View() == Passes(old(View()), env, limit).s && total == Passes(old(View()), env, limit).total
    {
      total := 0;
      var left := limit;
      ghost var whole := Passes(View(), env, limit);
      while left > 0
        invariant Sound(View()) && Passes(View(), env, left).s == whole.s
        invariant total + Passes(View(), env, left).total == whole.total
      {
        var go, replayed := ReplayPass(env, left);
        total := total + replayed;
        left := if go then left - 1 else 0;
      }
      NoPassLeft(View(), env);
    }

    method ReplayDeferred(env: Env) returns (total: nat)
      requires Sound(View())
      modifies this
      ensures Sound(View()) && View() == Replay(old(View()), env).s && total == Replay(old(View()), env).total
    {
      total := ReplayPasses(env, MAX_PASSES);
      deferredReplays := deferredReplays + total;
    }

    /** Read one pointer field: a typed target is given back, an array is registered. */
    method FollowField(src: Scan.Sources, base: nat, f: FieldInfo) returns (t: Option<Scan.Target>)
      modifies this`indirect, this`indirectRegistrations
      ensures View() == Scan.RegisterField(old(View()), src, base, f)
      ensures var target := Scan.Follow(src, base, f);
              t == if target.Some? && target.value.addr !in types then target else None
    {
      t := None;
      if !Scan.PointerField(f) { return; }
      var v := Scan.FieldValue(src, base, f);
      if v.None? { return; }
      var pointee := Pointee(f.typeInfo.name);
      if pointee in src.env.registry {
        if v.value !in types && Scan.Plausible(src, v.value) {
          t := Some(Scan.Target(f.name, v.value, src.env.registry[pointee]));
        }
      } else if |pointee| > 0 && pointee[0] == '*' {
        var inner := Pointee(pointee);
        if inner in src.env.registry && Scan.Plausible(src, v.value) && v.value !in indirect {
          indirect := indirect[v.value := src.env.registry[inner]];
          indirectRegistrations := indirectRegistrations + 1;
        }
      }
    }

    /** Read the pointer fields of one node: typed targets are listed, arrays are registered. */
    method FollowFields(src: Scan.Sources, base: nat, fields: seq<FieldInfo>) returns (ts: seq<Scan.Target>)
      modifies this`indirect, this`indirectRegistrations
      ensures ts == Scan.Targets(types, src, base, fields, |fields|)
      ensures View() == Scan.Register(old(View()), src, base, fields, |fields|)
    {
      ts := [];
      ghost var s := View();
      for k := 0 to |fields|
        invariant ts == Scan.Targets(types, src, base, fields, k)
        invariant View() == Scan.Register(s, src, base, fields, k)
      {
        var t := FollowField(src, base, fields[k]);
        if t.Some? { ts := ts + [t.value]; }
      }
    }

    /** Stamp the targets of one node that were not visited before, and queue them. */
    method VisitTargets(queue: seq<nat>, visited: set<nat>, stamped: nat, ghost log: seq<Scan.Link>,
                        parent: nat, ts: seq<Scan.Target>, at: nat)
      returns (queue': seq<nat>, visited': set<nat>, stamped': nat, ghost log': seq<Scan.Link>)
      modifies this`types, this`addrSchisms, this`schismCount, this`poolReuseCount
      ensures Scan.Scan(View(), queue', visited', stamped', log')
           == Scan.VisitAll(Scan.Scan(old(View()), queue, visited, stamped, log), parent, ts, at, |ts|)
    {
      queue', visited', stamped', log' := queue, visited, stamped, log;
      ghost var sc := Scan.Scan(View(), queue, visited, stamped, log);
      for k := 0 to |ts|
        invariant Scan.Scan(View(), queue', visited', stamped', log') == Scan.VisitAll(sc, parent, ts, at, k)
      {
        if ts[k].addr !in visited' {
          visited' := visited' + {ts[k].addr};
          var r := StampType(ts[k].addr, ts[k].ti, ts[k].name, at);
          stamped' := stamped' + 1;
          queue' := queue' + [ts[k].addr];
          log' := log' + [Scan.Link(parent, ts[k])];
        }
      }
    }

    /** Returns the number of stamps tried. */
    method RetrospectiveScan(src: Scan.Sources, seed: nat, at: nat) returns (stamped: nat)
      requires Sound(View())
      modifies this
      ensures Sound(View())
      ensures View() == Scan.Retrospect(old(View()), src, seed, at).s
      ensures stamped == Scan.Retrospect(old(View()), src, seed, at).stamped
    {
      var fuel := Scan.MIN_FUEL;
      if seed in types {
        var wanted := Scan.Width(types[seed]) * 4;
        fuel := if wanted < Scan.MIN_FUEL then Scan.MIN_FUEL else if wanted > Scan.MAX_FUEL then Scan.MAX_FUEL else wanted;
      }
      ghost var whole := Scan.Retrospect(View(), src, seed, at);
      Scan.WalkSound(Scan.Begin(View(), seed), src, at, fuel);
      var queue, visited := [seed], {seed};
      ghost var log: seq<Scan.Link> := [];
      stamped := 0;
      while queue != []
        invariant Scan.Walk(Scan.Scan(View(), queue, visited, stamped, log), src, at, fuel) == whole
        decreases if stamped < fuel then fuel - stamped else 0, |queue|
      {
        if stamped >= fuel { break; }
        var base := queue[0];
        ghost var sc := Scan.Scan(View(), queue, visited, stamped, log);
        queue := queue[1..];
        if base in types {
          var fields := types[base].typeInfo.fields;
          var ts := FollowFields(src, base, fields);
          queue, visited, stamped, log :=
            VisitTargets(queue, visited, stamped, log, base, Scan.Sorted(ts, |ts|), at);
        }
        assert Scan.Scan(View(), queue, visited, stamped, log) == Scan.Expand(sc, src, at);
      }
    }
  }
}
