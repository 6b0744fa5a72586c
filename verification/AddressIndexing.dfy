/** The two-tier address index (`engine/src/index.rs`): sorted static intervals, per-frame local
    intervals, and an eight-slot move-to-front cache in front of both. */
module AddressIndexing {
  import opened OrderedMap
  import opened Types
  import opened Words

  const MRU_SLOTS: nat := 8

  datatype Meta = Meta(name: string, typeInfo: TypeInfo, node: NodeId)

  datatype Interval = Interval(lo: nat, hi: nat, meta: Meta)
  {
    predicate Contains(addr: nat) { lo <= addr < hi }
  }

  datatype Hit = Hit(meta: Meta, offset: nat)

  /** Where an interval is registered. */
  datatype Place = Static(idx: nat) | Dynamic(frame: nat, idx: nat)

  datatype MruEntry = MruEntry(lo: nat, hi: nat, place: Place)
  {
    predicate Contains(addr: nat) { lo <= addr < hi }
  }

  datatype LocalVar = LocalVar(offset: int, size: nat, name: string, typeInfo: TypeInfo)

  // ----- the registered intervals -----

  predicate Has(statics: seq<Interval>, dynamics: map<nat, seq<Interval>>, p: Place) {
    match p
    case Static(i) => i < |statics|
    case Dynamic(f, i) => f in dynamics && i < |dynamics[f]|
  }

  function At(statics: seq<Interval>, dynamics: map<nat, seq<Interval>>, p: Place): Interval
    requires Has(statics, dynamics, p)
  {
    match p
    case Static(i) => statics[i]
    case Dynamic(f, i) => dynamics[f][i]
  }

  /** The interval at `p` is registered and covers `addr`. */
  predicate Covers(statics: seq<Interval>, dynamics: map<nat, seq<Interval>>, p: Place, addr: nat) {
    Has(statics, dynamics, p) && At(statics, dynamics, p).Contains(addr)
  }

  function HitAt(statics: seq<Interval>, dynamics: map<nat, seq<Interval>>, p: Place, addr: nat): Hit
    requires Covers(statics, dynamics, p, addr)
  {
    var iv := At(statics, dynamics, p);
    Hit(iv.meta, addr - iv.lo)
  }

  /** No address belongs to two registered intervals. */
  ghost predicate Disjoint(statics: seq<Interval>, dynamics: map<nat, seq<Interval>>) {
    forall p, q, addr ::
      Covers(statics, dynamics, p, addr) && Covers(statics, dynamics, q, addr) ==> p == q
  }

  /** Reference lookup: any registered interval that covers the address. */
  ghost function LinearScan(statics: seq<Interval>, dynamics: map<nat, seq<Interval>>, addr: nat): (r: Option<Hit>)
    ensures r.None? <==> forall p :: !Covers(statics, dynamics, p, addr)
  {
    if exists p :: Covers(statics, dynamics, p, addr) then
      var p :| Covers(statics, dynamics, p, addr);
      Some(HitAt(statics, dynamics, p, addr))
    else None
  }

  // ----- sorted statics -----

  predicate SortedByLo(s: seq<Interval>) {
    forall i, j :: 0 <= i < j < |s| ==> s[i].lo <= s[j].lo
  }

  function Insert(iv: Interval, s: seq<Interval>): (r: seq<Interval>)
    ensures multiset(r) == multiset(s) + multiset{iv}
  {
    if s == [] || iv.lo <= s[0].lo then [iv] + s
    else
      assert s == [s[0]] + s[1..];
      [s[0]] + Insert(iv, s[1..])
  }

  lemma {:induction false} InsertSorted(iv: Interval, s: seq<Interval>)
    requires SortedByLo(s)
    ensures SortedByLo(Insert(iv, s))
  {
    if s != [] && s[0].lo < iv.lo {
      InsertSorted(iv, s[1..]);
      var rest := Insert(iv, s[1..]);
      forall j | 0 <= j < |rest| ensures s[0].lo <= rest[j].lo {
        assert rest[j] in multiset(rest);
        assert rest[j] == iv || rest[j] in s[1..];
      }
    }
  }

  /** The sort of `finalize`; with equal starts Rust's unstable sort may order differently. */
  function Sort(s: seq<Interval>): (r: seq<Interval>)
    ensures SortedByLo(r) && multiset(r) == multiset(s)
  {
    if s == [] then []
    else
      assert s == [s[0]] + s[1..];
      InsertSorted(s[0], Sort(s[1..]));
      Insert(s[0], Sort(s[1..]))
  }

  /** Static `j` starts at the greatest start at or below the address. */
  ghost predicate LastGroup(statics: seq<Interval>, j: nat, addr: nat) {
    && j < |statics| && statics[j].lo <= addr
    && forall i :: 0 <= i < |statics| && statics[i].lo <= addr ==> statics[i].lo <= statics[j].lo
  }

  /** When intervals are disjoint, only that group can cover the address, so a lookup that looks
      no further back loses nothing. */
  lemma OnlyLastGroupCovers(statics: seq<Interval>, dynamics: map<nat, seq<Interval>>, j: nat, addr: nat)
    requires Disjoint(statics, dynamics)
    requires forall i :: 0 <= i < |statics| ==> statics[i].lo < statics[i].hi
    requires j < |statics| && statics[j].Contains(addr)
    ensures LastGroup(statics, j, addr)
  {
    forall i | 0 <= i < |statics| && statics[i].lo <= addr ensures statics[i].lo <= statics[j].lo {
      if statics[i].lo > statics[j].lo {
        assert Covers(statics, dynamics, Static(j), statics[i].lo);
        assert Covers(statics, dynamics, Static(i), statics[i].lo);
      }
    }
  }

  /** A registered interval is non-empty, inside the universe bounds, and names a node of its tier. */
  predicate PlaceFacts(statics: seq<Interval>, dynamics: map<nat, seq<Interval>>, lo: nat, hi: nat, p: Place)
    requires Has(statics, dynamics, p)
  {
    var iv := At(statics, dynamics, p);
    && lo <= iv.lo < iv.hi <= hi
    && (p.Static? ==> !iv.meta.node.Local?)
    && (p.Dynamic? ==> iv.meta.node.Local? && iv.meta.node.frame == p.frame)
  }

  ghost predicate AllPlaces(statics: seq<Interval>, dynamics: map<nat, seq<Interval>>, lo: nat, hi: nat) {
    forall p :: Has(statics, dynamics, p) ==> PlaceFacts(statics, dynamics, lo, hi, p)
  }

  function NodeRank(node: NodeId): nat {
    match node
    case Global(_) => 0
    case Field(_, _) => 1
    case Local(_, _) => 2
  }

  /** `a` is preferred to `b`: higher rank, or the same rank and a smaller span. */
  predicate Preferred(a: Interval, b: Interval) {
    || NodeRank(a.meta.node) > NodeRank(b.meta.node)
    || (NodeRank(a.meta.node) == NodeRank(b.meta.node) && a.hi - a.lo < b.hi - b.lo)
  }

  // ----- the answer behind the cache -----

  function Span(iv: Interval): int { iv.hi - iv.lo }

  /** `order` is the order in which the hash map of frames is walked; it is fixed until the map
      changes. Every frame comes once. */
  ghost predicate Walks(order: seq<nat>, dynamics: map<nat, seq<Interval>>) {
    && (forall i, j :: 0 <= i < j < |order| ==> order[i] != order[j])
    && forall f :: f in dynamics <==> f in order
  }

  function Turn(order: seq<nat>, frame: nat): (k: nat)
    ensures k <= |order| && (k < |order| ==> order[k] == frame)
    ensures frame in order ==> k < |order|
  {
    if order == [] || order[0] == frame then 0 else 1 + Turn(order[1..], frame)
  }

  /** The local at `p` is looked at before the local at `q`. */
  predicate Earlier(order: seq<nat>, p: Place, q: Place) {
    && p.Dynamic? && q.Dynamic?
    && (Turn(order, p.frame) < Turn(order, q.frame) || (p.frame == q.frame && p.idx < q.idx))
  }

  /** Local `p` wins against local `q`: the smaller span, of equal spans the one looked at first. */
  predicate Beats(statics: seq<Interval>, dynamics: map<nat, seq<Interval>>, order: seq<nat>, p: Place, q: Place)
    requires Has(statics, dynamics, p) && Has(statics, dynamics, q)
  {
    var a, b := Span(At(statics, dynamics, p)), Span(At(statics, dynamics, q));
    a < b || (a == b && !Earlier(order, q, p))
  }

  /** Static `i` wins against static `j`: preferred, or the later of two that are not. */
  predicate Tops(statics: seq<Interval>, i: nat, j: nat)
    requires i < |statics| && j < |statics|
  {
    if i < j then Preferred(statics[i], statics[j]) else !Preferred(statics[j], statics[i])
  }

  /** The interval a lookup finds behind the cache: the smallest covering local, the first one
      walked of several; without one, the static of the last group that covers the address and
      tops all such statics. */
  ghost predicate Found(statics: seq<Interval>, dynamics: map<nat, seq<Interval>>, order: seq<nat>, p: Place, addr: nat) {
    && Covers(statics, dynamics, p, addr)
    && (p.Dynamic? ==> forall q :: Covers(statics, dynamics, q, addr) && q.Dynamic? ==>
                         Beats(statics, dynamics, order, p, q))
    && (p.Static? ==>
          && (forall q :: Covers(statics, dynamics, q, addr) ==> q.Static?)
          && LastGroup(statics, p.idx, addr)
          && forall i: nat :: LastGroup(statics, i, addr) && statics[i].Contains(addr) ==> Tops(statics, p.idx, i))
  }

  /** A lookup that misses the cache has no choice. */
  lemma {:induction false} FoundUnique(statics: seq<Interval>, dynamics: map<nat, seq<Interval>>, order: seq<nat>, p: Place, q: Place, addr: nat)
    requires Walks(order, dynamics) && Found(statics, dynamics, order, p, addr) && Found(statics, dynamics, order, q, addr)
    ensures p == q
  {
    if p.Dynamic? && q.Dynamic? {
      assert Beats(statics, dynamics, order, p, q) && Beats(statics, dynamics, order, q, p);
    } else {
      assert Tops(statics, p.idx, q.idx) && Tops(statics, q.idx, p.idx);
    }
  }

  /** Some lookup can find this interval, and so put it into the cache. */
  ghost predicate Findable(statics: seq<Interval>, dynamics: map<nat, seq<Interval>>, order: seq<nat>, p: Place) {
    exists addr :: Found(statics, dynamics, order, p, addr)
  }

  /** A local or a static of the last group covers the address. */
  ghost predicate Reached(statics: seq<Interval>, dynamics: map<nat, seq<Interval>>, addr: nat) {
    || (exists p :: Covers(statics, dynamics, p, addr) && p.Dynamic?)
    || exists j: nat :: LastGroup(statics, j, addr) && statics[j].Contains(addr)
  }

  lemma {:induction false} SmallestLocal(statics: seq<Interval>, dynamics: map<nat, seq<Interval>>, order: seq<nat>, p: Place, addr: nat)
    returns (q: Place)
    requires Covers(statics, dynamics, p, addr) && p.Dynamic?
    ensures Found(statics, dynamics, order, q, addr)
    decreases Span(At(statics, dynamics, p)), Turn(order, p.frame), p.idx
  {
    if q' :| Covers(statics, dynamics, q', addr) && q'.Dynamic? && !Beats(statics, dynamics, order, p, q') {
      q := SmallestLocal(statics, dynamics, order, q', addr);
    } else {
      q := p;
    }
  }

  lemma {:induction false} BestStatic(statics: seq<Interval>, dynamics: map<nat, seq<Interval>>, order: seq<nat>, j: nat, addr: nat)
    returns (q: Place)
    requires LastGroup(statics, j, addr) && statics[j].Contains(addr)
    requires forall p :: Covers(statics, dynamics, p, addr) ==> p.Static?
    ensures Found(statics, dynamics, order, q, addr)
    decreases 2 - NodeRank(statics[j].meta.node), Span(statics[j]), |statics| - j
  {
    if i: nat :| LastGroup(statics, i, addr) && statics[i].Contains(addr) && !Tops(statics, j, i) {
      q := BestStatic(statics, dynamics, order, i, addr);
    } else {
      q := Static(j);
      assert Covers(statics, dynamics, q, addr);
    }
  }

  /** Behind the cache an address is answered exactly when a local or a static of its last group
      covers it. A static of an earlier group that covers it too is not found. */
  lemma {:induction false} FoundIfReached(statics: seq<Interval>, dynamics: map<nat, seq<Interval>>, order: seq<nat>, addr: nat)
    ensures (exists q :: Found(statics, dynamics, order, q, addr)) <==> Reached(statics, dynamics, addr)
  {
    if p :| Covers(statics, dynamics, p, addr) && p.Dynamic? {
      var q := SmallestLocal(statics, dynamics, order, p, addr);
    } else if j: nat :| LastGroup(statics, j, addr) && statics[j].Contains(addr) {
      var q := BestStatic(statics, dynamics, order, j, addr);
    }
  }

  lemma {:induction false} GreatestStart(statics: seq<Interval>, addr: nat, n: nat) returns (j: nat)
    requires n <= |statics| && exists i :: 0 <= i < n && statics[i].lo <= addr
    ensures j < n && statics[j].lo <= addr
    ensures forall i :: 0 <= i < n && statics[i].lo <= addr ==> statics[i].lo <= statics[j].lo
  {
    if exists i :: 0 <= i < n - 1 && statics[i].lo <= addr {
      j := GreatestStart(statics, addr, n - 1);
      if statics[n - 1].lo <= addr && statics[j].lo < statics[n - 1].lo { j := n - 1; }
    } else {
      j := n - 1;
    }
  }

  /** In sorted statics, the stretch of equal starts that ends at the split is the last group. */
  lemma {:induction false} LastGroupIs(statics: seq<Interval>, addr: nat, i: nat, split: nat)
    requires SortedByLo(statics) && i < split <= |statics|
    requires forall k :: 0 <= k < split ==> statics[k].lo <= addr
    requires forall k :: split <= k < |statics| ==> addr < statics[k].lo
    requires statics[i].lo == statics[split - 1].lo && (i == 0 || statics[i - 1].lo < statics[i].lo)
    ensures forall j: nat :: LastGroup(statics, j, addr) <==> i <= j < split
  {
    forall j: nat ensures LastGroup(statics, j, addr) <==> i <= j < split {
      if LastGroup(statics, j, addr) { assert statics[split - 1].lo <= addr; }
    }
  }

  // ----- frames -----

  function FrameIntervals(frame: nat, base: nat, locals: seq<LocalVar>, from: nat): (r: seq<Interval>)
    requires from <= |locals|
    ensures forall k :: 0 <= k < |r| ==> r[k].lo < r[k].hi && r[k].lo < U64
    ensures forall k :: 0 <= k < |r| ==> r[k].meta.node.Local? && r[k].meta.node.frame == frame
    decreases |locals| - from
  {
    if from == |locals| then []
    else if locals[from].size == 0 then FrameIntervals(frame, base, locals, from + 1)
    else [LocalInterval(frame, base, from, locals[from])] + FrameIntervals(frame, base, locals, from + 1)
  }

  /** `(frame_base as i64 + offset) as u64`, then a span of `size` bytes. */
  function LocalInterval(frame: nat, base: nat, li: nat, v: LocalVar): Interval {
    var lo := (base + v.offset) % U64;
    Interval(lo, lo + v.size, Meta(v.name, v.typeInfo, Local(frame, li % U16)))
  }

  // ----- the cache -----

  /** A cache entry that still names the interval it was made from. */
  predicate Fresh(statics: seq<Interval>, dynamics: map<nat, seq<Interval>>, e: MruEntry) {
    && Has(statics, dynamics, e.place)
    && At(statics, dynamics, e.place).lo == e.lo
    && At(statics, dynamics, e.place).hi == e.hi
  }

  /** First cache slot that covers the address, or the length. */
  function FirstCovering(mru: seq<MruEntry>, addr: nat): (k: nat)
    ensures k <= |mru|
    ensures forall j :: 0 <= j < k ==> !mru[j].Contains(addr)
    ensures k < |mru| ==> mru[k].Contains(addr)
  {
    if mru == [] || mru[0].Contains(addr) then 0 else 1 + FirstCovering(mru[1..], addr)
  }

  predicate AllFresh(statics: seq<Interval>, dynamics: map<nat, seq<Interval>>, mru: seq<MruEntry>) {
    forall k :: 0 <= k < |mru| ==> Fresh(statics, dynamics, mru[k])
  }

  /** What one lookup does to the cache and what it answers, from the cache `m` before it. */
  ghost predicate Answers(statics: seq<Interval>, dynamics: map<nat, seq<Interval>>, order: seq<nat>, m: seq<MruEntry>,
                          addr: nat, m': seq<MruEntry>, r: Option<Hit>)
  {
    var k := FirstCovering(m, addr);
    if k < |m| then
      // a cache hit: resolved there and moved to the front
      && Covers(statics, dynamics, m[k].place, addr)
      && r == Some(HitAt(statics, dynamics, m[k].place, addr)) && m' == ToFront(m, k)
    else if r.None? then
      && m' == m
      && (forall p :: Covers(statics, dynamics, p, addr) ==> p.Static?)
      && (SortedByLo(statics) ==> !Reached(statics, dynamics, addr))
    else
      // found behind the cache, locals before statics, and cached
      && |m'| > 0 && m' == Pushed(m, m'[0])
      && Fresh(statics, dynamics, m'[0]) && Covers(statics, dynamics, m'[0].place, addr)
      && r.value == HitAt(statics, dynamics, m'[0].place, addr)
      && (m'[0].place.Static? ==> forall p :: Covers(statics, dynamics, p, addr) ==> p.Static?)
      && (SortedByLo(statics) ==> Found(statics, dynamics, order, m'[0].place, addr))
  }

  /** All intervals that cover the address give the same hit. */
  ghost predicate UnambiguousAt(statics: seq<Interval>, dynamics: map<nat, seq<Interval>>, addr: nat) {
    forall p, q :: Covers(statics, dynamics, p, addr) && Covers(statics, dynamics, q, addr) ==>
      HitAt(statics, dynamics, p, addr) == HitAt(statics, dynamics, q, addr)
  }

  /** At an address whose covering intervals all give one hit, on sorted statics, the lookup is the
      linear scan exactly when the cache has one of them, or a local or a static of the last group
      covers the address, or nothing does. */
  lemma {:induction false} AnswersScan(statics: seq<Interval>, dynamics: map<nat, seq<Interval>>, order: seq<nat>, m: seq<MruEntry>,
                                       addr: nat, m': seq<MruEntry>, r: Option<Hit>)
    requires UnambiguousAt(statics, dynamics, addr) && Answers(statics, dynamics, order, m, addr, m', r) && SortedByLo(statics)
    ensures r == LinearScan(statics, dynamics, addr)
            <==> (FirstCovering(m, addr) < |m| || Reached(statics, dynamics, addr)
                  || forall p :: !Covers(statics, dynamics, p, addr))
  {
    if Reached(statics, dynamics, addr) { FoundIfReached(statics, dynamics, order, addr); }
  }

  /** On disjoint intervals that is always so: cache plus binary search is the linear scan. */
  lemma {:induction false} DisjointScan(statics: seq<Interval>, dynamics: map<nat, seq<Interval>>, order: seq<nat>, m: seq<MruEntry>,
                                        addr: nat, m': seq<MruEntry>, r: Option<Hit>)
    requires Disjoint(statics, dynamics) && Answers(statics, dynamics, order, m, addr, m', r) && SortedByLo(statics)
    requires forall i :: 0 <= i < |statics| ==> statics[i].lo < statics[i].hi
    ensures r == LinearScan(statics, dynamics, addr)
  {
    AnswersScan(statics, dynamics, order, m, addr, m', r);
    if p :| Covers(statics, dynamics, p, addr) && p.Static? {
      OnlyLastGroupCovers(statics, dynamics, p.idx, addr);
    }
  }

  // ----- when the history of the cache matters -----

  /** Every entry was put into the cache by some lookup on these very intervals. */
  ghost predicate CacheFound(statics: seq<Interval>, dynamics: map<nat, seq<Interval>>, order: seq<nat>, m: seq<MruEntry>) {
    AllFresh(statics, dynamics, m) && forall k :: 0 <= k < |m| ==> Findable(statics, dynamics, order, m[k].place)
  }

  /** Findable intervals that overlap give the same hit there. Intervals no lookup can ever find,
      such as a structure entirely covered by its fields, are free to overlap anything. */
  ghost predicate FindableAgree(statics: seq<Interval>, dynamics: map<nat, seq<Interval>>, order: seq<nat>) {
    forall p, q, addr ::
      && Findable(statics, dynamics, order, p) && Findable(statics, dynamics, order, q)
      && Covers(statics, dynamics, p, addr) && Covers(statics, dynamics, q, addr)
      ==> HitAt(statics, dynamics, p, addr) == HitAt(statics, dynamics, q, addr)
  }

  /** The answer of a lookup with an empty cache. */
  ghost predicate ColdAnswer(statics: seq<Interval>, dynamics: map<nat, seq<Interval>>, order: seq<nat>, addr: nat, r: Option<Hit>) {
    && (r.None? <==> !Reached(statics, dynamics, addr))
    && (r.Some? ==> forall p :: Found(statics, dynamics, order, p, addr) ==> r.value == HitAt(statics, dynamics, p, addr))
  }

  /** A findable interval that covers an address, but is hidden there by a later, nested one that
      does not, disagrees with what is found at the start of that one. */
  lemma {:induction false} HiddenDisagrees(statics: seq<Interval>, dynamics: map<nat, seq<Interval>>, order: seq<nat>, lo: nat, hi: nat, p: Place, addr: nat)
    requires AllPlaces(statics, dynamics, lo, hi)
    requires Findable(statics, dynamics, order, p) && Covers(statics, dynamics, p, addr) && !Reached(statics, dynamics, addr)
    ensures !FindableAgree(statics, dynamics, order)
  {
    assert p.Static? && !LastGroup(statics, p.idx, addr);
    assert statics[p.idx].lo <= addr;
    var j := GreatestStart(statics, addr, |statics|);
    var x := statics[j].lo;
    assert PlaceFacts(statics, dynamics, lo, hi, Static(j)) && PlaceFacts(statics, dynamics, lo, hi, p);
    assert LastGroup(statics, j, x) && statics[j].Contains(x);
    FoundIfReached(statics, dynamics, order, x);
    var q :| Found(statics, dynamics, order, q, x);
    assert Findable(statics, dynamics, order, q) && Covers(statics, dynamics, p, x);
    assert PlaceFacts(statics, dynamics, lo, hi, q);
    assert HitAt(statics, dynamics, p, x) != HitAt(statics, dynamics, q, x);
  }

  /** Where findable intervals agree, every lookup gives the answer of a lookup with an empty cache,
      whatever lookups filled the cache before. */
  lemma {:induction false} AnswersCold(statics: seq<Interval>, dynamics: map<nat, seq<Interval>>, order: seq<nat>, lo: nat, hi: nat,
                                       m: seq<MruEntry>, addr: nat, m': seq<MruEntry>, r: Option<Hit>)
    requires FindableAgree(statics, dynamics, order) && AllPlaces(statics, dynamics, lo, hi) && SortedByLo(statics)
    requires CacheFound(statics, dynamics, order, m) && Answers(statics, dynamics, order, m, addr, m', r)
    ensures ColdAnswer(statics, dynamics, order, addr, r)
  {
    FoundIfReached(statics, dynamics, order, addr);
    var k := FirstCovering(m, addr);
    if k < |m| {
      if !Reached(statics, dynamics, addr) { HiddenDisagrees(statics, dynamics, order, lo, hi, m[k].place, addr); }
      forall p | Found(statics, dynamics, order, p, addr) ensures r.value == HitAt(statics, dynamics, p, addr) {
        assert Findable(statics, dynamics, order, p);
      }
    } else if r.Some? {
      var q := m'[0].place;
      forall p | Found(statics, dynamics, order, p, addr) ensures r.value == HitAt(statics, dynamics, p, addr) {
        assert Findable(statics, dynamics, order, p) && Findable(statics, dynamics, order, q);
      }
    }
  }

  lemma {:induction false} AnswersFound(statics: seq<Interval>, dynamics: map<nat, seq<Interval>>, order: seq<nat>, m: seq<MruEntry>,
                                        addr: nat, m': seq<MruEntry>, r: Option<Hit>)
    requires SortedByLo(statics) && CacheFound(statics, dynamics, order, m) && Answers(statics, dynamics, order, m, addr, m', r)
    ensures CacheFound(statics, dynamics, order, m')
  {
    if FirstCovering(m, addr) == |m| && r.Some? {
      assert Findable(statics, dynamics, order, m'[0].place);
    }
  }

  function EntryOf(statics: seq<Interval>, dynamics: map<nat, seq<Interval>>, p: Place): MruEntry
    requires Has(statics, dynamics, p)
  {
    MruEntry(At(statics, dynamics, p).lo, At(statics, dynamics, p).hi, p)
  }

  /** From an empty cache, one lookup that can find an interval leaves it as the only entry, and the
      next lookup of any address it covers is answered from it. */
  lemma {:induction false} OneEntry(statics: seq<Interval>, dynamics: map<nat, seq<Interval>>, order: seq<nat>, p: Place, at: nat, addr: nat)
    requires SortedByLo(statics) && Found(statics, dynamics, order, p, at) && Covers(statics, dynamics, p, addr)
    ensures var m := [EntryOf(statics, dynamics, p)];
            && CacheFound(statics, dynamics, order, m)
            && Answers(statics, dynamics, order, [], at, m, Some(HitAt(statics, dynamics, p, at)))
            && Answers(statics, dynamics, order, m, addr, m, Some(HitAt(statics, dynamics, p, addr)))
  {
    var e := EntryOf(statics, dynamics, p);
    assert Findable(statics, dynamics, order, p);
    assert Pushed([], e) == [e];
    assert ToFront([e], 0) == [e];
    assert FirstCovering([], at) == 0 && FirstCovering([e], addr) == 0;
  }

  /** Two caches cannot make lookups of the address differ. */
  ghost predicate SameAnswers(statics: seq<Interval>, dynamics: map<nat, seq<Interval>>, order: seq<nat>, m1: seq<MruEntry>, m2: seq<MruEntry>, addr: nat) {
    forall m1', r1, m2', r2 ::
      Answers(statics, dynamics, order, m1, addr, m1', r1) && Answers(statics, dynamics, order, m2, addr, m2', r2) ==> r1 == r2
  }

  /** The answers are independent of the cache's history. */
  ghost predicate HistoryFree(statics: seq<Interval>, dynamics: map<nat, seq<Interval>>, order: seq<nat>) {
    forall m1, m2, addr :: CacheFound(statics, dynamics, order, m1) && CacheFound(statics, dynamics, order, m2) ==>
      SameAnswers(statics, dynamics, order, m1, m2, addr)
  }

  /** On sorted statics the answers are independent of what was looked up before exactly when the
      findable intervals agree wherever they overlap; disjoint intervals do. */
  lemma {:induction false} HistoryFreeExactly(statics: seq<Interval>, dynamics: map<nat, seq<Interval>>, order: seq<nat>, lo: nat, hi: nat)
    requires AllPlaces(statics, dynamics, lo, hi) && SortedByLo(statics)
    ensures HistoryFree(statics, dynamics, order) <==> FindableAgree(statics, dynamics, order)
    ensures Disjoint(statics, dynamics) ==> HistoryFree(statics, dynamics, order)
  {
    if FindableAgree(statics, dynamics, order) {
      forall m1, m2, addr | CacheFound(statics, dynamics, order, m1) && CacheFound(statics, dynamics, order, m2)
        ensures SameAnswers(statics, dynamics, order, m1, m2, addr)
      {
        AgreeSame(statics, dynamics, order, lo, hi, m1, m2, addr);
      }
    }
    if HistoryFree(statics, dynamics, order) {
      forall p, q, addr |
        && Findable(statics, dynamics, order, p) && Findable(statics, dynamics, order, q)
        && Covers(statics, dynamics, p, addr) && Covers(statics, dynamics, q, addr)
        ensures HitAt(statics, dynamics, p, addr) == HitAt(statics, dynamics, q, addr)
      {
        SameAgree(statics, dynamics, order, p, q, addr);
      }
    }
  }

  lemma {:induction false} AgreeSame(statics: seq<Interval>, dynamics: map<nat, seq<Interval>>, order: seq<nat>, lo: nat, hi: nat,
                                     m1: seq<MruEntry>, m2: seq<MruEntry>, addr: nat)
    requires FindableAgree(statics, dynamics, order) && AllPlaces(statics, dynamics, lo, hi) && SortedByLo(statics)
    requires CacheFound(statics, dynamics, order, m1) && CacheFound(statics, dynamics, order, m2)
    ensures SameAnswers(statics, dynamics, order, m1, m2, addr)
  {
    forall m1', r1, m2', r2 | Answers(statics, dynamics, order, m1, addr, m1', r1) && Answers(statics, dynamics, order, m2, addr, m2', r2)
      ensures r1 == r2
    {
      AnswersCold(statics, dynamics, order, lo, hi, m1, addr, m1', r1);
      AnswersCold(statics, dynamics, order, lo, hi, m2, addr, m2', r2);
      FoundIfReached(statics, dynamics, order, addr);
      if r1.Some? { var p :| Found(statics, dynamics, order, p, addr); }
    }
  }

  lemma {:induction false} SameAgree(statics: seq<Interval>, dynamics: map<nat, seq<Interval>>, order: seq<nat>, p: Place, q: Place, addr: nat)
    requires HistoryFree(statics, dynamics, order) && SortedByLo(statics)
    requires Findable(statics, dynamics, order, p) && Findable(statics, dynamics, order, q)
    requires Covers(statics, dynamics, p, addr) && Covers(statics, dynamics, q, addr)
    ensures HitAt(statics, dynamics, p, addr) == HitAt(statics, dynamics, q, addr)
  {
    var a :| Found(statics, dynamics, order, p, a);
    var b :| Found(statics, dynamics, order, q, b);
    OneEntry(statics, dynamics, order, p, a, addr);
    OneEntry(statics, dynamics, order, q, b, addr);
    assert SameAnswers(statics, dynamics, order, [EntryOf(statics, dynamics, p)], [EntryOf(statics, dynamics, q)], addr);
  }

  // ----- structures and their fields -----

  /** Static `k` is a global structure, and every other static is one of its fields, nested ones
      included, or lies elsewhere. All of them are registered, over the same bytes. */
  predicate StructAt(s: seq<Interval>, k: nat) {
    && k < |s| && s[k].lo < s[k].hi && s[k].meta.node.Global?
    && forall i :: 0 <= i < |s| && i != k ==> Inside(s[i], s[k]) || s[i].hi <= s[k].lo || s[k].hi <= s[i].lo
  }

  predicate Inside(f: Interval, g: Interval) {
    f.meta.node.Field? && g.lo <= f.lo < f.hi <= g.hi
  }

  /** Where the fields at the base of the structure end. */
  function BaseEnd(s: seq<Interval>, k: nat, n: nat): (end: nat)
    requires k < |s| && n <= |s|
    ensures end >= s[k].lo
    ensures forall i :: 0 <= i < n && i != k && s[i].lo == s[k].lo ==> s[i].hi <= end
    ensures end == s[k].lo || exists i :: 0 <= i < n && i != k && s[i].lo == s[k].lo && s[i].hi == end
  {
    if n == 0 then s[k].lo
    else
      var before, f := BaseEnd(s, k, n - 1), s[n - 1];
      if n - 1 != k && f.lo == s[k].lo && f.hi > before then f.hi else before
  }

  /** There is padding right after the fields at its base, before any other field starts. */
  predicate PaddedAtBase(s: seq<Interval>, k: nat)
    requires k < |s|
  {
    var end := BaseEnd(s, k, |s|);
    end < s[k].hi && forall i :: 0 <= i < |s| ==> s[i].lo <= s[k].lo || end < s[i].lo
  }

  /** Otherwise, wherever the structure covers an address a field hides it. */
  lemma {:induction false} StructHidden(s: seq<Interval>, k: nat, addr: nat)
    requires StructAt(s, k) && !PaddedAtBase(s, k)
    ensures !Found(s, map[], [], Static(k), addr)
  {
    var end := BaseEnd(s, k, |s|);
    if s[k].lo <= addr < end {
      var i :| 0 <= i < |s| && i != k && s[i].lo == s[k].lo && s[i].hi == end;
      assert Inside(s[i], s[k]) && !Tops(s, k, i);
      assert LastGroup(s, k, addr) ==> LastGroup(s, i, addr);
    } else if addr < s[k].hi {
      assert end <= addr ==> !LastGroup(s, k, addr);
    }
  }

  lemma {:induction false} StructFoundAt(s: seq<Interval>, k: nat, addr: nat)
    requires StructAt(s, k) && PaddedAtBase(s, k) && addr == BaseEnd(s, k, |s|)
    ensures Found(s, map[], [], Static(k), addr)
  {
    forall i: nat | LastGroup(s, i, addr) && s[i].Contains(addr) ensures i == k {
      assert s[k].lo <= addr;
    }
  }

  /** A lookup can find the structure itself, and not one of its fields, exactly when it is padded
      at its base. */
  lemma {:induction false} StructFindable(s: seq<Interval>, k: nat)
    requires StructAt(s, k)
    ensures Findable(s, map[], [], Static(k)) <==> PaddedAtBase(s, k)
  {
    if PaddedAtBase(s, k) {
      StructFoundAt(s, k, BaseEnd(s, k, |s|));
    } else {
      forall addr ensures !Found(s, map[], [], Static(k), addr) { StructHidden(s, k, addr); }
    }
  }

  /** At the start of a field some field is found, not the structure. */
  lemma {:induction false} FieldFoundAt(s: seq<Interval>, k: nat, f: nat) returns (q: Place)
    requires StructAt(s, k) && f < |s| && Inside(s[f], s[k])
    ensures Found(s, map[], [], q, s[f].lo) && Covers(s, map[], Static(k), s[f].lo)
    ensures HitAt(s, map[], q, s[f].lo) != HitAt(s, map[], Static(k), s[f].lo)
  {
    var x := s[f].lo;
    assert LastGroup(s, f, x) && s[f].Contains(x);
    q := BestStatic(s, map[], [], f, x);
    assert Tops(s, q.idx, f);
  }

  /** With a field and padding at the base the history matters: what a lookup finds in the padding
      is the structure, which then answers for its fields as well. */
  lemma {:induction false} PaddingMatters(s: seq<Interval>, k: nat, f: nat)
    requires StructAt(s, k) && f < |s| && Inside(s[f], s[k])
    ensures !Disjoint(s, map[])
    ensures PaddedAtBase(s, k) ==> !FindableAgree(s, map[], [])
  {
    assert Covers(s, map[], Static(k), s[f].lo) && Covers(s, map[], Static(f), s[f].lo);
    if PaddedAtBase(s, k) {
      StructFindable(s, k);
      var q := FieldFoundAt(s, k, f);
      assert Findable(s, map[], [], q);
    }
  }

  /** No two statics overlap, apart from the structure. */
  predicate FlatBut(s: seq<Interval>, k: nat) {
    forall i, j :: 0 <= i < j < |s| && i != k && j != k ==> s[i].hi <= s[j].lo || s[j].hi <= s[i].lo
  }

  lemma {:induction false} FlatAgree(s: seq<Interval>, k: nat, p: Place, q: Place, addr: nat)
    requires k < |s| && FlatBut(s, k) && Covers(s, map[], p, addr) && Covers(s, map[], q, addr)
    requires p != Static(k) && q != Static(k)
    ensures p == q
  {
  }

  /** For a structure whose fields are not nested, that is the only way it can matter. */
  lemma {:induction false} PaddingMattersExactly(s: seq<Interval>, k: nat, f: nat)
    requires StructAt(s, k) && f < |s| && Inside(s[f], s[k]) && FlatBut(s, k)
    ensures FindableAgree(s, map[], []) <==> !PaddedAtBase(s, k)
  {
    PaddingMatters(s, k, f);
    StructFindable(s, k);
    if !PaddedAtBase(s, k) {
      forall p, q, addr |
        && Findable(s, map[], [], p) && Findable(s, map[], [], q)
        && Covers(s, map[], p, addr) && Covers(s, map[], q, addr)
        ensures HitAt(s, map[], p, addr) == HitAt(s, map[], q, addr)
      {
        FlatAgree(s, k, p, q, addr);
      }
    }
  }

  /** Intervals over the very same bytes, such as a member and the only member inside it, overlap
      everywhere, yet only the one that tops the others can be found: the history does not matter. */
  lemma {:induction false} SameBytesFree(s: seq<Interval>, base: nat, end: nat)
    requires base < end && forall i :: 0 <= i < |s| ==> s[i].lo == base && s[i].hi == end && !s[i].meta.node.Local?
    ensures HistoryFree(s, map[], [])
  {
    forall p, q, addr |
      && Findable(s, map[], [], p) && Findable(s, map[], [], q)
      && Covers(s, map[], p, addr) && Covers(s, map[], q, addr)
      ensures HitAt(s, map[], p, addr) == HitAt(s, map[], q, addr)
    {
      SameBytesFound(s, base, end, p, q);
    }
    HistoryFreeExactly(s, map[], [], base, end);
  }

  lemma {:induction false} SameBytesFound(s: seq<Interval>, base: nat, end: nat, p: Place, q: Place)
    requires base < end && forall i :: 0 <= i < |s| ==> s[i].lo == base && s[i].hi == end
    requires Findable(s, map[], [], p) && Findable(s, map[], [], q)
    ensures p == q
  {
    var a :| Found(s, map[], [], p, a);
    var b :| Found(s, map[], [], q, b);
    assert LastGroup(s, q.idx, a) && LastGroup(s, p.idx, b);
    assert Tops(s, p.idx, q.idx) && Tops(s, q.idx, p.idx);
  }

  lemma AnswersFresh(statics: seq<Interval>, dynamics: map<nat, seq<Interval>>, order: seq<nat>, m: seq<MruEntry>,
                     addr: nat, m': seq<MruEntry>, r: Option<Hit>)
    requires AllFresh(statics, dynamics, m) && Answers(statics, dynamics, order, m, addr, m', r)
    ensures AllFresh(statics, dynamics, m')
    ensures r.Some? ==> exists p :: Covers(statics, dynamics, p, addr) && r.value == HitAt(statics, dynamics, p, addr)
  {
  }

  function ToFront(mru: seq<MruEntry>, k: nat): seq<MruEntry>
    requires k < |mru|
  {
    [mru[k]] + mru[..k] + mru[k + 1..]
  }

  function Pushed(mru: seq<MruEntry>, e: MruEntry): seq<MruEntry> {
    [e] + (if |mru| < MRU_SLOTS then mru else mru[..MRU_SLOTS - 1])
  }

  class AddressIndex {
    var statics: seq<Interval>
    var sorted: bool
    var dynamics: map<nat, seq<Interval>>
    var order: seq<nat>
    const mru: array<Option<MruEntry>>
    var mruLen: nat
    var universeLo: nat
    var universeHi: nat

    /** The live part of the cache, most recent first. */
    ghost function Mru(): seq<MruEntry>
      requires mru.Length == MRU_SLOTS && mruLen <= MRU_SLOTS
      requires forall k :: 0 <= k < mruLen ==> mru[k].Some?
      reads this, mru
    {
      seq(mruLen, k requires 0 <= k < mruLen && mru.Length == MRU_SLOTS && mruLen <= MRU_SLOTS
                             && mru[k].Some? reads this, mru => mru[k].value)
    }

    ghost predicate Shape()
      reads this, mru
    {
      && mru.Length == MRU_SLOTS && mruLen <= MRU_SLOTS
      && (forall k :: 0 <= k < mruLen ==> mru[k].Some?)
    }

    ghost predicate PlaceHere(p: Place)
      requires Has(statics, dynamics, p)
      reads this
    {
      PlaceFacts(statics, dynamics, universeLo, universeHi, p)
    }

    ghost predicate Valid()
      reads this, mru
    {
      && Shape() && Walks(order, dynamics)
      && AllFresh(statics, dynamics, Mru())
      && AllPlaces(statics, dynamics, universeLo, universeHi)
      && (sorted ==> SortedByLo(statics) && CacheFound(statics, dynamics, order, Mru()))
    }

    predicate InUniverse(iv: Interval)
      reads this
    {
      universeLo <= iv.lo < iv.hi <= universeHi
    }

    constructor ()
      ensures Valid() && fresh(mru) && statics == [] && dynamics == map[] && sorted && mruLen == 0
    {
      statics, sorted, dynamics, order := [], true, map[], [];
      mru := new Option<MruEntry>[MRU_SLOTS](_ => None);
      mruLen := 0;
      universeLo, universeHi := U64 - 1, 0;
    }

    method WidenUniverse(lo: nat, hi: nat)
      modifies this`universeLo, this`universeHi
      ensures universeLo <= old(universeLo) && universeLo <= lo
      ensures universeHi >= old(universeHi) && universeHi >= hi
    {
      if lo < universeLo { universeLo := lo; }
      if hi > universeHi { universeHi := hi; }
    }

    /** `insert_global` and `insert_field` differ only in the node they name. */
    method InsertStatic(addr: nat, size: nat, name: string, typeInfo: TypeInfo, node: NodeId)
      requires Valid() && addr < U64 && !node.Local?
      modifies this
      ensures Valid() && dynamics == old(dynamics)
      ensures size == 0 ==> statics == old(statics)
      ensures size > 0 ==> statics == old(statics) + [Interval(addr, addr + size, Meta(name, typeInfo, node))]
                           && !sorted && mruLen == 0
    {
      if size == 0 { return; }
      var iv := Interval(addr, addr + size, Meta(name, typeInfo, node));
      statics := statics + [iv];
      sorted := false;
      mruLen := 0;
      WidenUniverse(addr, addr + size);
      forall p | Has(statics, dynamics, p) ensures PlaceHere(p) {
        if p != Static(|statics| - 1) { assert old(PlaceHere(p)); }
      }
    }

    /** The intervals of one frame, zero-sized locals left out. */
    static method CollectLocals(frame: nat, base: nat, locals: seq<LocalVar>) returns (ivs: seq<Interval>)
      ensures ivs == FrameIntervals(frame, base, locals, 0)
    {
      ivs := [];
      for li := 0 to |locals|
        invariant ivs + FrameIntervals(frame, base, locals, li) == FrameIntervals(frame, base, locals, 0)
      {
        if locals[li].size > 0 {
          var iv := LocalInterval(frame, base, li, locals[li]);
          ghost var rest := FrameIntervals(frame, base, locals, li + 1);
          assert ivs + ([iv] + rest) == (ivs + [iv]) + rest;
          ivs := ivs + [iv];
        }
      }
    }

    method WidenForAll(ivs: seq<Interval>)
      requires forall k :: 0 <= k < |ivs| ==> ivs[k].lo < ivs[k].hi
      modifies this`universeLo, this`universeHi
      ensures universeLo <= old(universeLo) && universeHi >= old(universeHi)
      ensures forall k :: 0 <= k < |ivs| ==> InUniverse(ivs[k])
    {
      for k := 0 to |ivs|
        invariant universeLo <= old(universeLo) && universeHi >= old(universeHi)
        invariant forall j :: 0 <= j < k ==> InUniverse(ivs[j])
      {
        WidenUniverse(ivs[k].lo, ivs[k].hi);
      }
    }

    /** After a change the hash map may walk its frames in any order. */
    static method AnyOrder(dynamics: map<nat, seq<Interval>>) returns (order: seq<nat>)
      ensures Walks(order, dynamics)
    {
      order := [];
      var todo := dynamics.Keys;
      while todo != {}
        invariant todo <= dynamics.Keys
        invariant forall i, j :: 0 <= i < j < |order| ==> order[i] != order[j]
        invariant forall f :: f in dynamics && f !in todo <==> f in order
        decreases todo
      {
        var f :| f in todo;
        order := order + [f];
        todo := todo - {f};
      }
    }

    method InsertFrameLocals(frame: nat, base: nat, locals: seq<LocalVar>)
      requires Valid()
      modifies this
      ensures Valid() && statics == old(statics) && sorted == old(sorted) && mruLen == 0
      ensures var ivs := FrameIntervals(frame, base, locals, 0);
              dynamics == if ivs == [] then old(dynamics) else old(dynamics)[frame := ivs]
    {
      var ivs := CollectLocals(frame, base, locals);
      WidenForAll(ivs);
      if ivs != [] {
        dynamics := dynamics[frame := ivs];
        order := AnyOrder(dynamics);
      }
      mruLen := 0;
      forall p | Has(statics, dynamics, p) ensures PlaceHere(p) {
        if p.Static? || p.frame != frame || ivs == [] {
          assert old(PlaceHere(p));
        }
      }
    }

    method RemoveFrame(frame: nat)
      requires Valid()
      modifies this
      ensures Valid() && statics == old(statics) && sorted == old(sorted) && mruLen == 0
      ensures dynamics == old(dynamics) - {frame}
    {
      dynamics := dynamics - {frame};
      order := AnyOrder(dynamics);
      mruLen := 0;
      forall p | Has(statics, dynamics, p) ensures PlaceHere(p) {
        assert old(PlaceHere(p));
      }
    }

    method Finalize()
      requires Valid()
      modifies this
      ensures Valid() && sorted && dynamics == old(dynamics)
      ensures multiset(statics) == multiset(old(statics))
    {
      if !sorted {
        ghost var before := statics;
        statics := Sort(statics);
        sorted := true;
        mruLen := 0;
        forall p | Has(statics, dynamics, p) ensures PlaceHere(p) {
          if p.Static? {
            assert statics[p.idx] in multiset(statics);
            assert statics[p.idx] in before;
            var k :| 0 <= k < |before| && before[k] == statics[p.idx];
            assert old(PlaceHere(Static(k)));
          } else {
            assert old(PlaceHere(p));
          }
        }
      }
    }

    // ----- lookups -----

    /** Move cache slots 0..count up by one, as `copy_within(0..count, 1)` does. */
    method ShiftUp(count: nat)
      requires count < mru.Length
      modifies mru
      ensures mru[0] == old(mru[0])
      ensures forall k :: 0 < k <= count ==> mru[k] == old(mru[k - 1])
      ensures forall k :: count < k < mru.Length ==> mru[k] == old(mru[k])
    {
      forall k | 0 < k <= count { mru[k] := mru[k - 1]; }
    }

    method PushMru(e: MruEntry)
      requires Shape()
      modifies this`mruLen, mru
      ensures Shape() && Mru() == Pushed(old(Mru()), e)
    {
      var len := if mruLen < MRU_SLOTS - 1 then mruLen else MRU_SLOTS - 1;
      ShiftUp(len);
      mru[0] := Some(e);
      mruLen := if mruLen + 1 < MRU_SLOTS then mruLen + 1 else MRU_SLOTS;
    }

    method MoveToFront(slot: nat)
      requires Shape() && slot < mruLen
      modifies mru
      ensures Shape() && Mru() == ToFront(old(Mru()), slot)
    {
      var e := mru[slot];
      ShiftUp(slot);
      mru[0] := e;
    }

    /** The local has been walked: it is one of an earlier frame, or of the first `upto` of this one. */
    predicate Reachable(p: Place, n: nat, upto: nat)
      reads this
    {
      p.Dynamic? && (Turn(order, p.frame) < n || (Turn(order, p.frame) == n && p.idx < upto))
    }

    /** `r` is the winner of the covering locals walked so far. */
    ghost predicate Best(r: Option<MruEntry>, addr: nat, n: nat, upto: nat)
      reads this
    {
      && (r.Some? ==> Fresh(statics, dynamics, r.value) && r.value.Contains(addr) && Reachable(r.value.place, n, upto))
      && forall p :: Covers(statics, dynamics, p, addr) && Reachable(p, n, upto) ==>
           r.Some? && Has(statics, dynamics, r.value.place) && Beats(statics, dynamics, order, r.value.place, p)
    }

    /** The locals of one frame. */
    method LookupFrame(addr: nat, n: nat, before: Option<MruEntry>) returns (r: Option<MruEntry>)
      requires Walks(order, dynamics) && n < |order| && Best(before, addr, n, 0)
      ensures Best(r, addr, n + 1, 0)
    {
      r := before;
      var ivs := dynamics[order[n]];
      TurnIs(order, dynamics, n);
      for i := 0 to |ivs|
        invariant Best(r, addr, n, i)
      {
        var iv := ivs[i];
        ghost var p := Dynamic(order[n], i);
        ghost var was := r;
        if iv.Contains(addr) && (r.None? || iv.hi - iv.lo < r.value.hi - r.value.lo) {
          r := Some(MruEntry(iv.lo, iv.hi, Dynamic(order[n], i)));
        }
        OneMoreWalked(was, r, addr, n, i);
      }
      forall p | Covers(statics, dynamics, p, addr) && Reachable(p, n + 1, 0) ensures Reachable(p, n, |ivs|) {
      }
    }

    /** Smallest covering local interval over all frames; of several, the first one walked. */
    method LookupDynamics(addr: nat) returns (r: Option<MruEntry>)
      requires Walks(order, dynamics)
      ensures r.None? ==> forall p :: Covers(statics, dynamics, p, addr) ==> p.Static?
      ensures r.Some? ==> r.value.place.Dynamic? && Fresh(statics, dynamics, r.value) && Found(statics, dynamics, order, r.value.place, addr)
    {
      r := None;
      for n := 0 to |order|
        invariant Best(r, addr, n, 0)
      {
        r := LookupFrame(addr, n, r);
      }
      forall p | Covers(statics, dynamics, p, addr) && p.Dynamic? ensures Reachable(p, |order|, 0) {
        assert p.frame in order;
      }
    }

    lemma OneMoreWalked(was: Option<MruEntry>, r: Option<MruEntry>, addr: nat, n: nat, i: nat)
      requires Walks(order, dynamics) && n < |order| && Turn(order, order[n]) == n && i < |dynamics[order[n]]|
      requires Best(was, addr, n, i)
      requires var iv := dynamics[order[n]][i];
               r == if iv.Contains(addr) && (was.None? || Span(iv) < was.value.hi - was.value.lo)
                    then Some(MruEntry(iv.lo, iv.hi, Dynamic(order[n], i))) else was
      ensures Best(r, addr, n, i + 1)
    {
      forall p | Covers(statics, dynamics, p, addr) && Reachable(p, n, i + 1)
        ensures r.Some? && Has(statics, dynamics, r.value.place) && Beats(statics, dynamics, order, r.value.place, p)
      {
        assert Reachable(p, n, i) || p == Dynamic(order[n], i);
      }
    }

    /** `partition_point`: on a slice that is not sorted the result is only within bounds. */
    method PartitionPoint(addr: nat) returns (split: nat)
      ensures split <= |statics|
      ensures SortedByLo(statics) ==> forall i :: 0 <= i < split ==> statics[i].lo <= addr
      ensures SortedByLo(statics) ==> forall i :: split <= i < |statics| ==> addr < statics[i].lo
    {
      var lo, hi := 0, |statics|;
      while lo < hi
        invariant 0 <= lo <= hi <= |statics|
        invariant SortedByLo(statics) ==> forall i :: 0 <= i < lo ==> statics[i].lo <= addr
        invariant SortedByLo(statics) ==> forall i :: hi <= i < |statics| ==> addr < statics[i].lo
      {
        var mid := lo + (hi - lo) / 2;
        if statics[mid].lo <= addr { lo := mid + 1; } else { hi := mid; }
      }
      split := lo;
    }

    /** `r` tops the covering statics from index `i` on. */
    ghost predicate TopOf(r: Option<MruEntry>, addr: nat, i: nat, split: nat)
      reads this
    {
      && i <= split <= |statics|
      && (r.Some? ==> r.value.place.Static? && i <= r.value.place.idx < split
                      && Fresh(statics, dynamics, r.value) && r.value.Contains(addr))
      && forall j :: i <= j < split && statics[j].Contains(addr) ==>
           r.Some? && r.value.place.Static? && r.value.place.idx < |statics| && Tops(statics, r.value.place.idx, j)
    }

    /** Walks back over the intervals that share the greatest start at or below the address. */
    method LookupStatics(addr: nat) returns (r: Option<MruEntry>)
      ensures r.Some? ==> r.value.place.Static? && Fresh(statics, dynamics, r.value) && r.value.Contains(addr)
      ensures SortedByLo(statics) ==>
                forall j: nat :: LastGroup(statics, j, addr) && statics[j].Contains(addr) ==>
                  r.Some? && Tops(statics, r.value.place.idx, j)
      ensures SortedByLo(statics) && r.Some? ==> LastGroup(statics, r.value.place.idx, addr)
    {
      r := None;
      var split := PartitionPoint(addr);
      if split == 0 { return; }
      var i := split - 1;
      while true
        invariant 0 <= i < split <= |statics| && TopOf(r, addr, i + 1, split)
        invariant SortedByLo(statics) ==> statics[i].lo == statics[split - 1].lo
        decreases i
      {
        var iv := statics[i];
        if iv.lo > addr { break; }
        ghost var was := r;
        if addr < iv.hi && (r.None? || Preferred(iv, statics[r.value.place.idx])) {
          r := Some(MruEntry(iv.lo, iv.hi, Static(i)));
        }
        OneMoreTopped(was, r, addr, i, split);
        if i == 0 || statics[i - 1].lo < iv.lo { break; }
        i := i - 1;
      }
      if SortedByLo(statics) { LastGroupIs(statics, addr, i, split); }
    }

    lemma OneMoreTopped(was: Option<MruEntry>, r: Option<MruEntry>, addr: nat, i: nat, split: nat)
      requires i < split <= |statics| && TopOf(was, addr, i + 1, split) && statics[i].lo <= addr
      requires r == if addr < statics[i].hi && (was.None? || Preferred(statics[i], statics[was.value.place.idx]))
                    then Some(MruEntry(statics[i].lo, statics[i].hi, Static(i))) else was
      ensures TopOf(r, addr, i, split)
    {
      forall j | i <= j < split && statics[j].Contains(addr)
        ensures r.Some? && r.value.place.Static? && r.value.place.idx < |statics| && Tops(statics, r.value.place.idx, j)
      {
        if j > i { assert Tops(statics, was.value.place.idx, j); }
      }
    }

    /** The scan of the cache. */
    method FindMru(addr: nat) returns (slot: nat)
      requires Shape()
      ensures slot == FirstCovering(Mru(), addr)
    {
      ghost var m := Mru();
      slot := 0;
      while slot < mruLen && !mru[slot].value.Contains(addr)
        invariant slot <= mruLen && m == Mru()
        invariant forall j :: 0 <= j < slot ==> !m[j].Contains(addr)
      {
        slot := slot + 1;
      }
      FirstCoveringIs(m, addr, slot);
    }

    /** The search behind the cache. */
    method Locate(addr: nat) returns (found: Option<MruEntry>)
      requires Valid()
      ensures found.Some? ==> Fresh(statics, dynamics, found.value) && found.value.Contains(addr)
      ensures found.Some? && found.value.place.Static? ==> forall p :: Covers(statics, dynamics, p, addr) ==> p.Static?
      ensures found.None? ==> forall p :: Covers(statics, dynamics, p, addr) ==> p.Static?
      ensures found.None? && SortedByLo(statics) ==> !Reached(statics, dynamics, addr)
      ensures found.Some? && SortedByLo(statics) ==> Found(statics, dynamics, order, found.value.place, addr)
    {
      found := LookupDynamics(addr);
      if found.None? {
        found := LookupStatics(addr);
      }
    }

    /** Cache, then locals, then statics; whatever is found becomes the most recent entry. */
    method Lookup(addr: nat) returns (r: Option<Hit>)
      requires Valid()
      modifies this`mruLen, mru
      ensures Valid()
      ensures r.Some? ==> exists p :: Covers(statics, dynamics, p, addr) && r.value == HitAt(statics, dynamics, p, addr)
      ensures Disjoint(statics, dynamics) && sorted ==> r == LinearScan(statics, dynamics, addr)
      ensures FindableAgree(statics, dynamics, order) && sorted ==> ColdAnswer(statics, dynamics, order, addr, r)
      ensures Answers(statics, dynamics, order, old(Mru()), addr, Mru(), r)
    {
      ghost var m := Mru();
      forall i | 0 <= i < |statics| ensures statics[i].lo < statics[i].hi { assert PlaceHere(Static(i)); }
      r := Search(addr);
      AnswersFresh(statics, dynamics, order, m, addr, Mru(), r);
      if sorted {
        AnswersFound(statics, dynamics, order, m, addr, Mru(), r);
        if Disjoint(statics, dynamics) { DisjointScan(statics, dynamics, order, m, addr, Mru(), r); }
        if FindableAgree(statics, dynamics, order) {
          AnswersCold(statics, dynamics, order, universeLo, universeHi, m, addr, Mru(), r);
        }
      }
    }

    method Search(addr: nat) returns (r: Option<Hit>)
      requires Valid()
      modifies this`mruLen, mru
      ensures Shape() && Answers(statics, dynamics, order, old(Mru()), addr, Mru(), r)
    {
      ghost var m := Mru();
      if addr < universeLo || addr >= universeHi {
        OutsideUniverse(addr);
        return None;
      }
      var slot := FindMru(addr);
      if slot < mruLen {
        var e := mru[slot].value;
        assert e == m[slot];
        MoveToFront(slot);
        return Some(Resolve(e, addr));
      }
      var found := Locate(addr);
      if found.None? { return None; }
      PushMru(found.value);
      r := Some(Resolve(found.value, addr));
    }

    lemma OutsideUniverse(addr: nat)
      requires Valid() && (addr < universeLo || addr >= universeHi)
      ensures forall p :: !Covers(statics, dynamics, p, addr)
      ensures forall j :: 0 <= j < |statics| ==> !statics[j].Contains(addr)
      ensures FirstCovering(Mru(), addr) == |Mru()|
    {
      forall j | 0 <= j < |statics| ensures !statics[j].Contains(addr) { assert PlaceHere(Static(j)); }
      forall p ensures !Covers(statics, dynamics, p, addr) {
        if Has(statics, dynamics, p) { assert PlaceHere(p); }
      }
      forall k | 0 <= k < |Mru()| ensures !Mru()[k].Contains(addr) {
        assert Fresh(statics, dynamics, Mru()[k]);
        assert PlaceHere(Mru()[k].place);
      }
      FirstCoveringIs(Mru(), addr, |Mru()|);
    }

    function Resolve(e: MruEntry, addr: nat): (h: Hit)
      requires Fresh(statics, dynamics, e) && e.Contains(addr)
      reads this
      ensures Covers(statics, dynamics, e.place, addr) && h == HitAt(statics, dynamics, e.place, addr)
    {
      Hit(At(statics, dynamics, e.place).meta, addr - e.lo)
    }
  }

  lemma {:induction false} TurnIs(order: seq<nat>, dynamics: map<nat, seq<Interval>>, n: nat)
    requires Walks(order, dynamics) && n < |order|
    ensures Turn(order, order[n]) == n
  {
    assert order[n] in order;
  }

  lemma {:induction false} FirstCoveringIs(mru: seq<MruEntry>, addr: nat, k: nat)
    requires k <= |mru| && (forall j :: 0 <= j < k ==> !mru[j].Contains(addr))
    requires k < |mru| ==> mru[k].Contains(addr)
    ensures FirstCovering(mru, addr) == k
  {
    if k > 0 { FirstCoveringIs(mru[1..], addr, k - 1); }
  }
}
