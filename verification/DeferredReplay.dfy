/** Replaying deferred pointer writes (`ShadowTypeMap::replay_deferred` in `engine/src/world.rs`):
    up to eight passes, each offering the writes that a projection covers by now. */
module DeferredReplay {
  import opened OrderedMap
  import opened ShadowTypes

  const MAX_PASSES: nat := 8

  /** The deferred writes whose address is (or is not) covered, in order. */
  function Select(types: map<nat, Projection>, ds: seq<Deferred>, covered: bool, n: nat): (r: seq<Deferred>)
    requires n <= |ds|
    ensures |r| <= n
  {
    if n == 0 then []
    else
      var before, d := Select(types, ds, covered, n - 1), ds[n - 1];
      if Covered(types, d.addr) == covered then before + [d] else before
  }

  lemma {:induction false} SelectHas(types: map<nat, Projection>, ds: seq<Deferred>, covered: bool, n: nat, k: nat)
    requires k < n <= |ds| && Covered(types, ds[k].addr) == covered
    ensures ds[k] in Select(types, ds, covered, n)
  {
    if k < n - 1 { SelectHas(types, ds, covered, n - 1, k); }
  }

  lemma {:induction false} SelectOnly(types: map<nat, Projection>, ds: seq<Deferred>, covered: bool, n: nat)
    requires n <= |ds|
    ensures forall d :: d in Select(types, ds, covered, n) ==> d in ds && Covered(types, d.addr) == covered
  {
    if n > 0 { SelectOnly(types, ds, covered, n - 1); }
  }

  /** Offer the first n writes one after the other; the second result counts the successes. */
  function Offer(s: Shadow, env: Env, hits: seq<Deferred>, n: nat): (Shadow, nat)
    requires n <= |hits|
  {
    if n == 0 then (s, 0)
    else
      var before, d := Offer(s, env, hits, n - 1), hits[n - 1];
      var r := Propagate(before.0, env, d.addr, d.value, 8, d.at);
      (r.0, before.1 + if r.1 then 1 else 0)
  }

  lemma OfferNext(s: Shadow, env: Env, hits: seq<Deferred>, n: nat)
    requires n < |hits|
    ensures var before, d := Offer(s, env, hits, n), hits[n];
            var r := Propagate(before.0, env, d.addr, d.value, 8, d.at);
            Offer(s, env, hits, n + 1) == (r.0, before.1 + if r.1 then 1 else 0)
  {
  }

  function Hits(s: Shadow): seq<Deferred> { Select(s.types, s.deferred, true, |s.deferred|) }

  function Drained(s: Shadow): Shadow {
    s.(deferred := Select(s.types, s.deferred, false, |s.deferred|))
  }

  /** `offered` is everything offered, in order; `spent` says that every pass was used. */
  datatype Replayed = Replayed(s: Shadow, total: nat, offered: seq<Deferred>, spent: bool)

  /** One pass: take the covered writes out and offer them. */
  function Pass(s: Shadow, env: Env): (Shadow, nat) {
    Offer(Drained(s), env, Hits(s), |Hits(s)|)
  }

  function Passes(s: Shadow, env: Env, left: nat): Replayed
    decreases left
  {
    if left == 0 then Replayed(s, 0, [], true)
    else
      var hits := Hits(s);
      if hits == [] then Replayed(s, 0, [], false)
      else
        var pass := Pass(s, env);
        if pass.1 == 0 then Replayed(pass.0, 0, hits, false)
        else
          var rest := Passes(pass.0, env, left - 1);
          Replayed(rest.s, pass.1 + rest.total, hits + rest.offered, rest.spent)
  }

  /** A pass that finds nothing or stamps nothing is the last one. */
  lemma PassesStep(s: Shadow, env: Env, left: nat)
    requires left > 0
    ensures Hits(s) == [] ==> Passes(s, env, left).s == s && Passes(s, env, left).total == 0
    ensures Hits(s) != [] && Pass(s, env).1 == 0
            ==> Passes(s, env, left).s == Pass(s, env).0 && Passes(s, env, left).total == 0
    ensures Hits(s) != [] && Pass(s, env).1 != 0
            ==> Passes(s, env, left).s == Passes(Pass(s, env).0, env, left - 1).s
    ensures Hits(s) != [] && Pass(s, env).1 != 0
            ==> Passes(s, env, left).total == Pass(s, env).1 + Passes(Pass(s, env).0, env, left - 1).total
  {
  }

  function Replay(s: Shadow, env: Env): Replayed {
    var r := Passes(s, env, MAX_PASSES);
    r.(s := r.s.(deferredReplays := r.s.deferredReplays + r.total))
  }

  // ----- one pass -----

  lemma {:induction false} SelectSplits(types: map<nat, Projection>, ds: seq<Deferred>, n: nat)
    requires n <= |ds|
    ensures multiset(ds[..n]) == multiset(Select(types, ds, true, n)) + multiset(Select(types, ds, false, n))
  {
    if n > 0 {
      SelectSplits(types, ds, n - 1);
      var d, a, b := ds[n - 1], Select(types, ds, true, n - 1), Select(types, ds, false, n - 1);
      assert ds[..n] == ds[..n - 1] + [d];
      AddToEither(multiset(ds[..n - 1]), multiset(a), multiset(b), d);
    }
  }

  lemma AddToEither(m: multiset<Deferred>, a: multiset<Deferred>, b: multiset<Deferred>, d: Deferred)
    requires m == a + b
    ensures m + multiset{d} == (a + multiset{d}) + b && m + multiset{d} == a + (b + multiset{d})
  {
  }

  /** Strictly increasing positions below n. */
  predicate Increasing(ks: seq<nat>, n: nat) {
    && (forall i :: 0 <= i < |ks| ==> ks[i] < n)
    && forall i, j :: 0 <= i < j < |ks| ==> ks[i] < ks[j]
  }

  /** `a` is what stands at the positions `ks` of `b`: a subsequence in its original order. */
  predicate Picks(a: seq<Deferred>, b: seq<Deferred>, ks: seq<nat>) {
    |ks| == |a| && Increasing(ks, |b|) && forall i :: 0 <= i < |a| ==> a[i] == b[ks[i]]
  }

  lemma {:induction false} SelectPicks(types: map<nat, Projection>, ds: seq<Deferred>, n: nat) returns (ks: seq<nat>)
    requires n <= |ds|
    ensures Increasing(ks, n) && Picks(Select(types, ds, false, n), ds, ks)
  {
    if n == 0 {
      ks := [];
    } else {
      ks := SelectPicks(types, ds, n - 1);
      if !Covered(types, ds[n - 1].addr) { ks := ks + [n - 1]; }
    }
  }

  lemma PicksCompose(a: seq<Deferred>, b: seq<Deferred>, c: seq<Deferred>, ks: seq<nat>, js: seq<nat>)
    returns (ps: seq<nat>)
    requires Picks(a, b, ks) && Picks(b, c, js)
    ensures Picks(a, c, ps)
  {
    ps := seq(|ks|, i requires 0 <= i < |ks| && |js| == |b| && ks[i] < |b| => js[ks[i]]);
  }

  /** Offering leaves the deferred list alone, and the type map too when nothing succeeded. */
  lemma {:induction false} OfferKeeps(s: Shadow, env: Env, hits: seq<Deferred>, n: nat)
    requires n <= |hits|
    ensures var r := Offer(s, env, hits, n);
            && r.0.deferred == s.deferred && r.0.deferredReplays == s.deferredReplays
            && (r.1 == 0 ==> r.0.types == s.types)
  {
    if n > 0 {
      OfferKeeps(s, env, hits, n - 1);
      var d := hits[n - 1];
      FailedPropagationKeepsTypes(Offer(s, env, hits, n - 1).0, env, d.addr, d.value, 8, d.at);
    }
  }

  lemma {:induction false} OfferSound(s: Shadow, env: Env, hits: seq<Deferred>, n: nat)
    requires n <= |hits| && Sound(s)
    ensures Sound(Offer(s, env, hits, n).0) && Offer(s, env, hits, n).1 <= n
  {
    if n > 0 {
      OfferSound(s, env, hits, n - 1);
      var d := hits[n - 1];
      PropagateSound(Offer(s, env, hits, n - 1).0, env, d.addr, d.value, 8, d.at);
    }
  }

  /** What a pass takes out is what it offers; what it leaves was not covered at its start. */
  lemma PassFacts(s: Shadow, env: Env)
    ensures var p := Pass(s, env).0;
            && p.deferred == Drained(s).deferred && p.deferredReplays == s.deferredReplays
            && multiset(s.deferred) == multiset(Hits(s)) + multiset(p.deferred)
            && (Pass(s, env).1 == 0 ==> p.types == s.types)
  {
    OfferKeeps(Drained(s), env, Hits(s), |Hits(s)|);
    SelectSplits(s.types, s.deferred, |s.deferred|);
    assert s.deferred[..|s.deferred|] == s.deferred;
  }

  lemma {:induction false} NothingTaken(types: map<nat, Projection>, ds: seq<Deferred>, n: nat)
    requires n <= |ds| && Select(types, ds, true, n) == []
    ensures Select(types, ds, false, n) == ds[..n]
  {
    if n > 0 { NothingTaken(types, ds, n - 1); }
  }

  /** A pass that finds nothing to offer changes nothing. */
  lemma NoHitsNothingDrained(s: Shadow)
    requires Hits(s) == []
    ensures Drained(s) == s
  {
    NothingTaken(s.types, s.deferred, |s.deferred|);
  }

  lemma NoHitsNoneCovered(s: Shadow)
    requires Hits(s) == []
    ensures NoneCovered(s)
  {
    forall d | d in s.deferred ensures !Covered(s.types, d.addr) {
      var k :| 0 <= k < |s.deferred| && s.deferred[k] == d;
      if Covered(s.types, d.addr) { SelectHas(s.types, s.deferred, true, |s.deferred|, k); }
    }
  }

  lemma IdlePassLeavesNone(s: Shadow, env: Env)
    requires Pass(s, env).1 == 0
    ensures NoneCovered(Pass(s, env).0)
  {
    PassFacts(s, env);
    SelectOnly(s.types, s.deferred, false, |s.deferred|);
  }

  lemma OneOfferAdvances(s: Shadow, before: Shadow, env: Env, d: Deferred)
    requires Sound(before) && StampsAdvance(s, before)
    ensures StampsAdvance(s, Propagate(before, env, d.addr, d.value, 8, d.at).0)
  {
    PropagateSound(before, env, d.addr, d.value, 8, d.at);
    AdvanceTrans(s, before, Propagate(before, env, d.addr, d.value, 8, d.at).0);
  }

  lemma {:induction false} OfferAdvances(s: Shadow, env: Env, hits: seq<Deferred>, n: nat)
    requires n <= |hits| && Sound(s)
    ensures StampsAdvance(s, Offer(s, env, hits, n).0)
  {
    if n > 0 {
      OfferAdvances(s, env, hits, n - 1);
      OfferSound(s, env, hits, n - 1);
      OneOfferAdvances(s, Offer(s, env, hits, n - 1).0, env, hits[n - 1]);
    }
  }

  // ----- the whole replay -----

  predicate NoneCovered(s: Shadow) {
    forall d :: d in s.deferred ==> !Covered(s.types, d.addr)
  }

  /** Each deferred write is offered exactly once or survives, never both and never neither. */
  lemma {:induction false} PassesConserve(s: Shadow, env: Env, left: nat)
    ensures var r := Passes(s, env, left);
            && multiset(s.deferred) == multiset(r.offered) + multiset(r.s.deferred)
            && r.s.deferredReplays == s.deferredReplays
    decreases left
  {
    if left > 0 && Hits(s) != [] {
      PassFacts(s, env);
      if Pass(s, env).1 != 0 { PassesConserve(Pass(s, env).0, env, left - 1); }
    }
  }

  lemma {:induction false} PassesKeepOrder(s: Shadow, env: Env, left: nat) returns (ks: seq<nat>)
    ensures Picks(Passes(s, env, left).s.deferred, s.deferred, ks)
    decreases left
  {
    if left == 0 || Hits(s) == [] {
      ks := seq(|s.deferred|, i => i);
    } else {
      PassFacts(s, env);
      ks := SelectPicks(s.types, s.deferred, |s.deferred|);
      var p := Pass(s, env).0;
      if Pass(s, env).1 != 0 {
        var js := PassesKeepOrder(p, env, left - 1);
        ks := PicksCompose(Passes(p, env, left - 1).s.deferred, p.deferred, s.deferred, js, ks);
      }
    }
  }

  /** Stopping early means that nothing left over is covered. */
  lemma {:induction false} PassesConverge(s: Shadow, env: Env, left: nat)
    ensures var r := Passes(s, env, left); !r.spent ==> NoneCovered(r.s)
    decreases left
  {
    if left > 0 {
      if Hits(s) == [] {
        NoHitsNoneCovered(s);
      } else if Pass(s, env).1 == 0 {
        IdlePassLeavesNone(s, env);
      } else {
        PassesConverge(Pass(s, env).0, env, left - 1);
      }
    }
  }

  lemma {:induction false} PassesSound(s: Shadow, env: Env, left: nat)
    requires Sound(s)
    ensures var r := Passes(s, env, left); Sound(r.s) && r.total <= |r.offered|
    decreases left
  {
    if left > 0 && Hits(s) != [] {
      OfferSound(Drained(s), env, Hits(s), |Hits(s)|);
      if Pass(s, env).1 != 0 { PassesSound(Pass(s, env).0, env, left - 1); }
    }
  }

  lemma {:induction false} PassesAdvance(s: Shadow, env: Env, left: nat)
    requires Sound(s)
    ensures StampsAdvance(s, Passes(s, env, left).s)
    decreases left
  {
    if left > 0 && Hits(s) != [] {
      OfferSound(Drained(s), env, Hits(s), |Hits(s)|);
      OfferAdvances(Drained(s), env, Hits(s), |Hits(s)|);
      var p := Pass(s, env).0;
      assert StampsAdvance(s, p);
      if Pass(s, env).1 != 0 {
        PassesAdvance(p, env, left - 1);
        AdvanceTrans(s, p, Passes(p, env, left - 1).s);
      }
    }
  }

  // ----- the types overwritten by a replay -----

  /** The history `met`, continued by the first n offers. */
  function OfferMet(s: Shadow, env: Env, hits: seq<Deferred>, n: nat, met: multiset<nat>): multiset<nat>
    requires n <= |hits|
  {
    if n == 0 then met
    else
      OfferMet(s, env, hits, n - 1, met)
      + Met(Offer(s, env, hits, n - 1).0, Offer(s, env, hits, n).0, hits[n - 1].value)
  }

  function PassMet(s: Shadow, env: Env, met: multiset<nat>): multiset<nat> {
    OfferMet(Drained(s), env, Hits(s), |Hits(s)|, met)
  }

  function PassesMet(s: Shadow, env: Env, left: nat, met: multiset<nat>): multiset<nat>
    decreases left
  {
    if left == 0 || Hits(s) == [] then met
    else if Pass(s, env).1 == 0 then PassMet(s, env, met)
    else PassesMet(Pass(s, env).0, env, left - 1, PassMet(s, env, met))
  }

  lemma {:induction false} OfferTallies(s: Shadow, env: Env, hits: seq<Deferred>, n: nat, met: multiset<nat>)
    requires n <= |hits| && Tallies(s, met)
    ensures Tallies(Offer(s, env, hits, n).0, OfferMet(s, env, hits, n, met))
  {
    if n > 0 {
      OfferTallies(s, env, hits, n - 1, met);
      var d := hits[n - 1];
      PropagateTallies(Offer(s, env, hits, n - 1).0, env, d.addr, d.value, 8, d.at, OfferMet(s, env, hits, n - 1, met));
    }
  }

  lemma PassTallies(s: Shadow, env: Env, met: multiset<nat>)
    requires Tallies(s, met)
    ensures Tallies(Pass(s, env).0, PassMet(s, env, met))
  {
    TallyIgnoresTypes(s, Drained(s), met);
    OfferTallies(Drained(s), env, Hits(s), |Hits(s)|, met);
  }

  lemma {:induction false} PassesTallies(s: Shadow, env: Env, left: nat, met: multiset<nat>)
    requires Tallies(s, met)
    ensures Tallies(Passes(s, env, left).s, PassesMet(s, env, left, met))
    decreases left
  {
    if left > 0 && Hits(s) != [] {
      PassTallies(s, env, met);
      if Pass(s, env).1 != 0 {
        PassesTallies(Pass(s, env).0, env, left - 1, PassMet(s, env, met));
        MorePasses(s, env, left, met);
      } else {
        LastPass(s, env, left, met);
      }
    }
  }

  lemma {:induction false} LastPass(s: Shadow, env: Env, left: nat, met: multiset<nat>)
    requires left > 0 && Hits(s) != [] && Pass(s, env).1 == 0
    requires Tallies(Pass(s, env).0, PassMet(s, env, met))
    ensures Tallies(Passes(s, env, left).s, PassesMet(s, env, left, met))
  {
  }

  lemma {:induction false} MorePasses(s: Shadow, env: Env, left: nat, met: multiset<nat>)
    requires left > 0 && Hits(s) != [] && Pass(s, env).1 != 0
    requires Tallies(Passes(Pass(s, env).0, env, left - 1).s, PassesMet(Pass(s, env).0, env, left - 1, PassMet(s, env, met)))
    ensures Tallies(Passes(s, env, left).s, PassesMet(s, env, left, met))
  {
  }

  /** What a replay promises: every deferred write is offered exactly once or kept, the kept ones
      in their order, none of the kept ones is covered unless all eight passes were used, and the
      map is as sound as before. */
  lemma ReplayMeets(s: Shadow, env: Env) returns (ks: seq<nat>)
    requires Sound(s)
    ensures var r := Replay(s, env);
            && multiset(s.deferred) == multiset(r.offered) + multiset(r.s.deferred)
            && Picks(r.s.deferred, s.deferred, ks)
            && (!r.spent ==> NoneCovered(r.s))
            && r.total <= |r.offered| && Sound(r.s)
            && r.s.deferredReplays == s.deferredReplays + r.total
  {
    PassesConserve(s, env, MAX_PASSES);
    ks := PassesKeepOrder(s, env, MAX_PASSES);
    PassesConverge(s, env, MAX_PASSES);
    PassesSound(s, env, MAX_PASSES);
  }

  // ----- which writes are taken -----

  /** The marked ones of the first n writes, in order. */
  function Marked(ds: seq<Deferred>, marks: seq<bool>, n: nat): seq<Deferred>
    requires n <= |ds| == |marks|
  {
    if n == 0 then [] else if marks[n - 1] then Marked(ds, marks, n - 1) + [ds[n - 1]] else Marked(ds, marks, n - 1)
  }

  /** The places of the marks. */
  function PlacesOf(marks: seq<bool>, n: nat): seq<nat>
    requires n <= |marks|
  {
    if n == 0 then [] else if marks[n - 1] then PlacesOf(marks, n - 1) + [n - 1] else PlacesOf(marks, n - 1)
  }

  predicate Chosen(ks: seq<nat>, k: nat) { k in ks }

  lemma {:induction false} PlacesIncrease(marks: seq<bool>, n: nat)
    requires n <= |marks|
    ensures Increasing(PlacesOf(marks, n), n)
  {
    if n > 0 { PlacesIncrease(marks, n - 1); }
  }

  lemma {:induction false} PlaceChosen(marks: seq<bool>, n: nat, k: nat)
    requires k < n <= |marks|
    ensures Chosen(PlacesOf(marks, n), k) <==> marks[k]
  {
    if k < n - 1 { PlaceChosen(marks, n - 1, k); } else { PlacesIncrease(marks, n - 1); }
  }

  lemma {:induction false} MarkedPicks(ds: seq<Deferred>, marks: seq<bool>, n: nat)
    requires n <= |ds| == |marks|
    ensures Picks(Marked(ds, marks, n), ds, PlacesOf(marks, n))
  {
    PlacesIncrease(marks, n);
    if n > 0 { MarkedPicks(ds, marks, n - 1); }
  }

  lemma {:induction false} MarkedPlaces(ds: seq<Deferred>, marks: seq<bool>) returns (ks: seq<nat>)
    requires |ds| == |marks|
    ensures Picks(Marked(ds, marks, |ds|), ds, ks)
    ensures forall k: nat {:trigger Chosen(ks, k)} :: k < |ds| ==> (Chosen(ks, k) <==> marks[k])
  {
    ks := PlacesOf(marks, |ds|);
    MarkedPicks(ds, marks, |ds|);
    forall k: nat | k < |ds| ensures Chosen(ks, k) <==> marks[k] { PlaceChosen(marks, |ds|, k); }
  }

  // ----- purges -----

  /** The address lies in the range, whose end stops at the top of the address space. */
  predicate Freed(x: nat, addr: nat, size: nat) { addr <= x < addr + size && x < 0xffff_ffff_ffff_ffff }

  lemma FreedIs(x: nat, addr: nat, size: nat)
    ensures Freed(x, addr, size) <==> InRange(x, addr, size)
  {
  }

  lemma {:induction false} OutsideIsMarked(ds: seq<Deferred>, addr: nat, size: nat, marks: seq<bool>, n: nat)
    requires n <= |ds| == |marks| && forall k :: 0 <= k < |ds| ==> marks[k] == !Freed(ds[k].addr, addr, size)
    ensures Outside(ds, addr, size, n) == Marked(ds, marks, n)
  {
    if n > 0 {
      OutsideIsMarked(ds, addr, size, marks, n - 1);
      FreedIs(ds[n - 1].addr, addr, size);
    }
  }

  /** Purging a range takes exactly the projections, the arrays and the deferred writes in it, and
      keeps the other deferred writes in their order. */
  lemma {:induction false} PurgesExactly(s: Shadow, addr: nat, size: nat, a: nat) returns (ks: seq<nat>)
    requires Sound(s)
    ensures var r := PurgeTypes(s, addr, size);
            && (a in r.types <==> a in s.types && !Freed(a, addr, size)) && (a in r.types ==> r.types[a] == s.types[a])
            && r == s.(types := r.types)
    ensures var r := PurgeIndirect(s, addr, size);
            && (a in r.indirect <==> a in s.indirect && !Freed(a, addr, size)) && (a in r.indirect ==> r.indirect[a] == s.indirect[a])
            && r == s.(indirect := r.indirect)
    ensures var r := PurgeDeferred(s, addr, size);
            && Picks(r.deferred, s.deferred, ks)
            && (forall k: nat {:trigger Chosen(ks, k)} :: k < |s.deferred| ==> (Chosen(ks, k) <==> !Freed(s.deferred[k].addr, addr, size)))
            && r == s.(deferred := r.deferred)
  {
    var ds := s.deferred;
    var marks := seq(|ds|, k requires 0 <= k < |ds| => !Freed(ds[k].addr, addr, size));
    OutsideIsMarked(ds, addr, size, marks, |ds|);
    ks := MarkedPlaces(ds, marks);
    FreedIs(a, addr, size);
  }

  // ----- what a pass offers -----

  /** A projection reaches the address from the greatest base at or below it. */
  predicate Reaches(types: map<nat, Projection>, base: nat, addr: nat) {
    && base in types && base <= addr < types[base].base + types[base].typeInfo.byteSize
    && forall b :: b in types && b <= addr ==> b <= base
  }

  lemma {:induction false} CoveredIs(types: map<nat, Projection>, addr: nat)
    ensures Covered(types, addr) <==> exists base :: Reaches(types, base, addr)
  {
    var near := Floor(types.Keys, addr);
    if base :| Reaches(types, base, addr) { assert base in types.Keys && near.Some?; }
    if Covered(types, addr) { assert Reaches(types, near.value, addr); }
  }

  lemma {:induction false} SelectIsMarked(types: map<nat, Projection>, ds: seq<Deferred>, covered: bool, marks: seq<bool>, n: nat)
    requires n <= |ds| == |marks| && forall k :: 0 <= k < |ds| ==> marks[k] == (Covered(types, ds[k].addr) == covered)
    ensures Select(types, ds, covered, n) == Marked(ds, marks, n)
  {
    if n > 0 { SelectIsMarked(types, ds, covered, marks, n - 1); }
  }

  lemma {:induction false} SelectPlaces(types: map<nat, Projection>, ds: seq<Deferred>, covered: bool) returns (ks: seq<nat>)
    ensures Picks(Select(types, ds, covered, |ds|), ds, ks)
    ensures forall k: nat {:trigger Chosen(ks, k)} :: k < |ds| ==> (Chosen(ks, k) <==> Covered(types, ds[k].addr) == covered)
  {
    var marks := seq(|ds|, k requires 0 <= k < |ds| => Covered(types, ds[k].addr) == covered);
    SelectIsMarked(types, ds, covered, marks, |ds|);
    ks := MarkedPlaces(ds, marks);
  }

  /** A pass offers exactly the writes that a projection reaches when it begins, in the order in which
      they were deferred, and keeps the others in theirs. */
  lemma {:induction false} PassOffers(s: Shadow, env: Env) returns (ks: seq<nat>, js: seq<nat>)
    ensures Picks(Hits(s), s.deferred, ks) && Picks(Pass(s, env).0.deferred, s.deferred, js)
    ensures forall k: nat {:trigger Chosen(ks, k)} {:trigger Chosen(js, k)} :: k < |s.deferred| ==>
              (Chosen(ks, k) <==> exists base :: Reaches(s.types, base, s.deferred[k].addr)) && (Chosen(js, k) <==> !Chosen(ks, k))
  {
    ks := SelectPlaces(s.types, s.deferred, true);
    js := SelectPlaces(s.types, s.deferred, false);
    PassFacts(s, env);
    forall k: nat | k < |s.deferred|
      ensures Chosen(ks, k) <==> exists base :: Reaches(s.types, base, s.deferred[k].addr)
      ensures Chosen(js, k) <==> !Chosen(ks, k)
    {
      CoveredIs(s.types, s.deferred[k].addr);
    }
  }

  // ----- how many passes there are -----

  /** From each state to the next it is one pass over some covered writes; all but the last pass
      stamped something. */
  ghost predicate PassChain(ss: seq<Shadow>, env: Env) {
    && ss != []
    && (forall i :: 0 <= i < |ss| - 1 ==> Hits(ss[i]) != [] && ss[i + 1] == Pass(ss[i], env).0)
    && forall i :: 0 <= i < |ss| - 2 ==> Pass(ss[i], env).1 > 0
  }

  /** The last pass stamped nothing, or no write is covered any more. */
  ghost predicate Idles(ss: seq<Shadow>, env: Env)
    requires ss != []
  {
    Hits(ss[|ss| - 1]) == [] || (|ss| > 1 && Pass(ss[|ss| - 2], env).1 == 0)
  }

  /** All of so many passes were made, and stamped something. */
  ghost predicate UsedUp(ss: seq<Shadow>, env: Env, left: nat) {
    |ss| == left + 1 && (left > 0 ==> Pass(ss[left - 1], env).1 > 0)
  }

  lemma {:induction false} ChainCons(s: Shadow, rest: seq<Shadow>, env: Env, left: nat)
    requires PassChain(rest, env) && Hits(s) != [] && rest[0] == Pass(s, env).0 && Pass(s, env).1 > 0
    ensures PassChain([s] + rest, env) && (Idles(rest, env) <==> Idles([s] + rest, env))
    ensures UsedUp(rest, env, left) <==> UsedUp([s] + rest, env, left + 1)
  {
    var ss := [s] + rest;
    assert ss[|ss| - 1] == rest[|rest| - 1];
    forall i | 0 < i < |ss| ensures ss[i] == rest[i - 1] {}
  }

  lemma {:induction false} ChainOne(s: Shadow, env: Env)
    ensures PassChain([s], env) && UsedUp([s], env, 0) && (Hits(s) == [] ==> Idles([s], env))
  {
  }

  lemma {:induction false} ChainTwo(s: Shadow, env: Env)
    requires Hits(s) != [] && Pass(s, env).1 == 0
    ensures PassChain([s, Pass(s, env).0], env) && Idles([s, Pass(s, env).0], env)
  {
  }

  lemma {:induction false} PassesSpent(s: Shadow, env: Env, left: nat)
    requires left > 0
    ensures Passes(s, env, left).spent <==>
              Hits(s) != [] && Pass(s, env).1 != 0 && Passes(Pass(s, env).0, env, left - 1).spent
  {
  }

  /** The chain leads from `s` to where so many passes end. */
  ghost predicate ChainOf(ss: seq<Shadow>, s: Shadow, env: Env, left: nat) {
    && PassChain(ss, env) && ss[0] == s && ss[|ss| - 1] == Passes(s, env, left).s && |ss| <= left + 1
    && if Passes(s, env, left).spent then UsedUp(ss, env, left) else Idles(ss, env)
  }

  lemma {:induction false} ChainGoesOn(s: Shadow, env: Env, left: nat, rest: seq<Shadow>)
    requires left > 0 && Hits(s) != [] && Pass(s, env).1 > 0 && ChainOf(rest, Pass(s, env).0, env, left - 1)
    ensures ChainOf([s] + rest, s, env, left)
  {
    PassesStep(s, env, left);
    PassesSpent(s, env, left);
    ChainCons(s, rest, env, left - 1);
    assert ([s] + rest)[|rest|] == rest[|rest| - 1];
  }

  lemma {:induction false} ChainEnds(s: Shadow, env: Env, left: nat)
    requires left > 0 && (Hits(s) == [] || Pass(s, env).1 == 0)
    ensures ChainOf(if Hits(s) == [] then [s] else [s, Pass(s, env).0], s, env, left)
  {
    PassesStep(s, env, left);
    PassesSpent(s, env, left);
    if Hits(s) == [] { ChainOne(s, env); } else { ChainTwo(s, env); }
  }

  lemma {:induction false} PassesChain(s: Shadow, env: Env, left: nat) returns (ss: seq<Shadow>)
    ensures ChainOf(ss, s, env, left)
    decreases left
  {
    if left == 0 {
      ss := [s];
      NoPassMade(s, env);
      ChainOne(s, env);
    } else if Hits(s) == [] || Pass(s, env).1 == 0 {
      ss := if Hits(s) == [] then [s] else [s, Pass(s, env).0];
      ChainEnds(s, env, left);
    } else {
      var rest := PassesChain(Pass(s, env).0, env, left - 1);
      ss := [s] + rest;
      ChainGoesOn(s, env, left, rest);
    }
  }

  lemma NoPassMade(s: Shadow, env: Env)
    ensures Passes(s, env, 0).s == s && Passes(s, env, 0).spent
  {
  }

  /** A replay is at most eight passes over covered writes, each of which stamped something except
      perhaps the last. It stops before the eighth pass has stamped something only when the last pass
      stamped nothing or no write is covered. */
  lemma {:induction false} EightPasses(s: Shadow, env: Env) returns (ss: seq<Shadow>)
    ensures PassChain(ss, env) && ss[0] == s && |ss| <= 9
    ensures var r, end := Replay(s, env), ss[|ss| - 1];
            && r.s == end.(deferredReplays := end.deferredReplays + r.total)
            && (Idles(ss, env) || (|ss| == 9 && Pass(ss[7], env).1 > 0))
  {
    ss := PassesChain(s, env, MAX_PASSES);
  }
}
