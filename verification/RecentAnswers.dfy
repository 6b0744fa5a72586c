/** What the address index prefers and what its cache keeps (`engine/src/index.rs`), said in terms of
    kinds, sizes and the order of the lookups. */
module RecentAnswers {
  import opened OrderedMap
  import opened Types
  import opened AddressIndexing

  // ----- which of several intervals answers -----

  /** A static wins against another that starts at the same address and covers the same one: a field
      against a global; of one kind, the smaller; of one size, the later in the list. */
  predicate Wins(a: Interval, i: nat, b: Interval, j: nat) {
    if a.meta.node.Field? != b.meta.node.Field? then a.meta.node.Field?
    else a.hi - a.lo < b.hi - b.lo || (a.hi - a.lo == b.hi - b.lo && i >= j)
  }

  /** What is found behind the cache. A local: no local that covers the address is smaller, and those
      of the same size were looked at no earlier. A static: no local covers the address, and it wins
      against every static that covers it among those with the greatest start at or below it. */
  lemma {:induction false} FoundMeaning(statics: seq<Interval>, dynamics: map<nat, seq<Interval>>, order: seq<nat>, p: Place, addr: nat)
    requires forall i :: 0 <= i < |statics| ==> !statics[i].meta.node.Local?
    requires Covers(statics, dynamics, p, addr)
    ensures p.Dynamic? ==>
              (Found(statics, dynamics, order, p, addr)
               <==> forall q :: Covers(statics, dynamics, q, addr) && q.Dynamic? ==>
                      var a, b := At(statics, dynamics, p), At(statics, dynamics, q);
                      a.hi - a.lo < b.hi - b.lo || (a.hi - a.lo == b.hi - b.lo && !Earlier(order, q, p)))
    ensures p.Static? ==>
              (Found(statics, dynamics, order, p, addr)
               <==> && (forall q :: Covers(statics, dynamics, q, addr) ==> q.Static?)
                    && (forall i :: 0 <= i < |statics| && statics[i].lo <= addr ==> statics[i].lo <= statics[p.idx].lo)
                    && forall i: nat :: i < |statics| && statics[i].lo == statics[p.idx].lo && statics[i].Contains(addr) ==>
                         Wins(statics[p.idx], p.idx, statics[i], i))
  {
    if p.Static? {
      forall i: nat | i < |statics| ensures Tops(statics, p.idx, i) <==> Wins(statics[p.idx], p.idx, statics[i], i) {
        TopsIsWins(statics, p.idx, i);
      }
    }
  }

  lemma TopsIsWins(statics: seq<Interval>, i: nat, j: nat)
    requires i < |statics| && j < |statics| && !statics[i].meta.node.Local? && !statics[j].meta.node.Local?
    ensures Tops(statics, i, j) <==> Wins(statics[i], i, statics[j], j)
  {
  }

  // ----- what the cache keeps -----

  function Except(es: seq<MruEntry>, e: MruEntry): (r: seq<MruEntry>)
    ensures forall x :: x in r <==> x in es && x != e
  {
    if es == [] then []
    else
      assert es == [es[0]] + es[1..];
      (if es[0] == e then [] else [es[0]]) + Except(es[1..], e)
  }

  /** The intervals that answered, each once, the most recent first. */
  function Recent(used: seq<MruEntry>): seq<MruEntry> {
    if used == [] then [] else [used[|used| - 1]] + Except(Recent(used[..|used| - 1]), used[|used| - 1])
  }

  predicate Distinct(es: seq<MruEntry>) { forall i, j :: 0 <= i < j < |es| ==> es[i] != es[j] }

  lemma {:induction false} ExceptAt(es: seq<MruEntry>, e: MruEntry, k: nat)
    requires Distinct(es) && k <= |es| && (k < |es| ==> es[k] == e) && (k == |es| ==> e !in es)
    ensures Except(es, e) == es[..k] + (if k < |es| then es[k + 1..] else [])
  {
    if es != [] {
      var rest := es[1..];
      if k > 0 {
        ExceptAt(rest, e, k - 1);
        assert rest[..k - 1] == es[1..k];
      } else {
        ExceptAt(rest, e, |rest|);
        assert rest[..|rest|] + [] == rest;
      }
    }
  }

  lemma {:induction false} ExceptDistinct(es: seq<MruEntry>, e: MruEntry)
    requires Distinct(es)
    ensures Distinct(Except(es, e)) && e !in Except(es, e)
  {
    if k: nat :| k < |es| && es[k] == e { ExceptAt(es, e, k); } else { ExceptAt(es, e, |es|); }
  }

  lemma {:induction false} RecentDistinct(used: seq<MruEntry>)
    ensures Distinct(Recent(used))
  {
    if used != [] {
      RecentDistinct(used[..|used| - 1]);
      ExceptDistinct(Recent(used[..|used| - 1]), used[|used| - 1]);
    }
  }

  function FirstEight(es: seq<MruEntry>): seq<MruEntry> { if |es| <= 8 then es else es[..8] }

  lemma {:induction false} RecentNext(used: seq<MruEntry>, e: MruEntry)
    ensures Recent(used + [e]) == [e] + Except(Recent(used), e)
  {
    assert (used + [e])[..|used|] == used;
  }

  /** A hit moves its entry to the front of the recent ones. */
  lemma {:induction false} HitIsRecent(r: seq<MruEntry>, k: nat)
    requires Distinct(r) && k < |FirstEight(r)|
    ensures ToFront(FirstEight(r), k) == FirstEight([r[k]] + Except(r, r[k]))
  {
    ExceptAt(r, r[k], k);
    FrontOfEight(r, k);
    assert [r[k]] + (r[..k] + r[k + 1..]) == ToFront(r, k);
  }

  lemma {:induction false} FrontOfEight(r: seq<MruEntry>, k: nat)
    requires k < |FirstEight(r)|
    ensures ToFront(FirstEight(r), k) == FirstEight(ToFront(r, k))
  {
    if |r| > 8 {
      var front, all := ToFront(r[..8], k), ToFront(r, k);
      assert |front| == 8 && |all| == |r|;
      forall i | 0 <= i < 8 ensures front[i] == all[i] {
        if 0 < i <= k { assert front[i] == r[i - 1] == all[i]; }
        if i > k { assert front[i] == r[i] == all[i]; }
      }
      assert all[..8] == front;
    }
  }

  /** A new entry goes in front; the ninth drops out, unless it is the new one from further back. */
  lemma {:induction false} PushIsRecent(r: seq<MruEntry>, e: MruEntry)
    requires Distinct(r) && e !in FirstEight(r)
    ensures Pushed(FirstEight(r), e) == FirstEight([e] + Except(r, e))
  {
    if k: nat :| k < |r| && r[k] == e {
      assert forall i :: 0 <= i < |FirstEight(r)| ==> r[i] == FirstEight(r)[i] && r[i] != e;
      ExceptAt(r, e, k);
    } else {
      ExceptAt(r, e, |r|);
    }
  }

  /** The cache holds the eight intervals that answered most recently, the latest first: if it did
      before a lookup it does after it. The index empties it whenever its intervals change. */
  lemma {:induction false} CacheIsRecent(
    statics: seq<Interval>, dynamics: map<nat, seq<Interval>>, order: seq<nat>, used: seq<MruEntry>,
    m: seq<MruEntry>, addr: nat, m': seq<MruEntry>, r: Option<Hit>)
    requires AllFresh(statics, dynamics, m) && Answers(statics, dynamics, order, m, addr, m', r)
    requires m == FirstEight(Recent(used))
    ensures r.None? ==> m' == m
    ensures r.Some? ==> m' != [] && m' == FirstEight(Recent(used + [m'[0]]))
    ensures r.Some? ==> Covers(statics, dynamics, m'[0].place, addr) && r.value == HitAt(statics, dynamics, m'[0].place, addr)
  {
    RecentDistinct(used);
    var k := FirstCovering(m, addr);
    if r.Some? {
      RecentNext(used, m'[0]);
      if k < |m| {
        HitIsRecent(Recent(used), k);
      } else {
        assert m'[0] !in m by {
          if i :| 0 <= i < |m| && m[i] == m'[0] { assert m[i].Contains(addr); }
        }
        PushIsRecent(Recent(used), m'[0]);
      }
    }
  }
}
