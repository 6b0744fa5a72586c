/** When a heap object is born (`process_write` in `engine/src/heap_graph.rs`): stated over the list
    of all writes so far, with the numbers the engine uses. */
module ClusterBirths {
  import opened OrderedMap
  import opened TypeConfidence
  import opened HeapGraphs

  // ----- which object an address resolves to -----

  /** An address that was recorded as a field belongs to that object; any other belongs to the object
      with the greatest base at or below it, if that reaches it. */
  predicate ResolvesTo(g: Graph, addr: nat, base: nat) {
    if addr in g.owner then g.owner[addr] == base
    else
      && base in g.objects && base <= addr < base + g.objects[base].size
      && forall b :: b in g.objects && b <= addr ==> b <= base
  }

  lemma FindBaseResolves(g: Graph, addr: nat, base: nat)
    requires Linked(g)
    ensures FindBase(g, addr) == Some(base) <==> ResolvesTo(g, addr, base)
  {
    var near := Floor(g.objects.Keys, addr);
    if addr !in g.owner {
      if base in g.objects && base <= addr { assert base in g.objects.Keys && near.Some?; }
      if near.Some? { assert WellFormed(near.value, g.objects[near.value]); }
    }
  }

  // ----- the window of recent writes -----

  /** The writes among the first n operations, in order. */
  function WritesIn(ops: seq<Op>, n: nat): (r: seq<Write>)
    requires n <= |ops|
    ensures |r| <= n
  {
    if n == 0 then []
    else if ops[n - 1].Store? then WritesIn(ops, n - 1) + [ops[n - 1].w]
    else WritesIn(ops, n - 1)
  }

  function Last64(ws: seq<Write>): seq<Write> { if |ws| <= 64 then ws else ws[|ws| - 64..] }

  lemma Last64Next(ws: seq<Write>, w: Write)
    ensures Noted(Last64(ws), w) == Last64(ws + [w])
  {
  }

  lemma StepKeepsRecent(g: Graph, cands: Option<seq<Candidate>>, op: Op)
    requires Linked(g)
    ensures Apply(g, cands, op).recent == if op.Store? then Noted(g.recent, op.w) else g.recent
  {
    if op.Store? && FindBase(g, op.w.addr).Some? { FoundIsLive(g, op.w.addr); }
  }

  /** In every reachable graph the window is the last 64 writes, whatever was freed or collected in
      between. */
  lemma {:induction false} WindowIsLast64(cands: Option<seq<Candidate>>, ops: seq<Op>, n: nat)
    requires n <= |ops|
    ensures Run(cands, ops, n).recent == Last64(WritesIn(ops, n))
  {
    if n > 0 {
      WindowIsLast64(cands, ops, n - 1);
      StepKeepsRecent(Run(cands, ops, n - 1), cands, ops[n - 1]);
      if ops[n - 1].Store? { Last64Next(WritesIn(ops, n - 1), ops[n - 1].w); }
    }
  }

  // ----- the writes near an address -----

  predicate Close(ws: seq<Write>, addr: nat, i: nat)
    requires i < |ws|
  {
    ws[i].addr <= addr + 256 && addr <= ws[i].addr + 256
  }

  /** The places of the close writes among the first n. */
  function CloseOnes(ws: seq<Write>, addr: nat, n: nat): set<nat>
    requires n <= |ws|
  {
    set i: nat | i < n && Close(ws, addr, i)
  }

  lemma {:induction false} NearbyCounts(ws: seq<Write>, addr: nat, n: nat)
    requires n <= |ws|
    ensures |Nearby(ws, addr, n)| == |CloseOnes(ws, addr, n)|
  {
    if n == 0 {
      assert CloseOnes(ws, addr, 0) == {};
    } else {
      NearbyCounts(ws, addr, n - 1);
      if Close(ws, addr, n - 1) {
        assert CloseOnes(ws, addr, n) == CloseOnes(ws, addr, n - 1) + {n - 1};
      } else {
        assert CloseOnes(ws, addr, n) == CloseOnes(ws, addr, n - 1);
      }
    }
  }

  predicate Holds(c: seq<Write>, w: Write) { exists k :: 0 <= k < |c| && c[k] == w }

  predicate FoundClose(ws: seq<Write>, addr: nat, n: nat, w: Write)
    requires n <= |ws|
  {
    exists i :: 0 <= i < n && Close(ws, addr, i) && ws[i] == w
  }

  /** The close writes are what the filter keeps. */
  lemma {:induction false} NearbyIsClose(ws: seq<Write>, addr: nat, n: nat, w: Write)
    requires n <= |ws|
    ensures Holds(Nearby(ws, addr, n), w) <==> FoundClose(ws, addr, n, w)
  {
    if n > 0 {
      NearbyIsClose(ws, addr, n - 1, w);
      var before, c := Nearby(ws, addr, n - 1), Nearby(ws, addr, n);
      if Close(ws, addr, n - 1) {
        assert c == before + [ws[n - 1]];
        HoldsMore(before, ws[n - 1], w);
        assert FoundClose(ws, addr, n, w) <==> FoundClose(ws, addr, n - 1, w) || ws[n - 1] == w;
      } else {
        assert FoundClose(ws, addr, n, w) <==> FoundClose(ws, addr, n - 1, w);
      }
    }
  }

  lemma HoldsMore(c: seq<Write>, x: Write, w: Write)
    ensures Holds(c + [x], w) <==> Holds(c, w) || x == w
  {
    var d := c + [x];
    assert d[|c|] == x;
    if Holds(c, w) { var k :| 0 <= k < |c| && c[k] == w; assert d[k] == w; }
  }

  /** What holds of every kept write holds of every close one, and what some kept write has some
      close one has. */
  lemma {:induction false} KeptAreClose(ws: seq<Write>, addr: nat)
    ensures var c := Nearby(ws, addr, |ws|);
            && (forall k :: 0 <= k < |c| ==> FoundClose(ws, addr, |ws|, c[k]))
            && (forall i :: 0 <= i < |ws| && Close(ws, addr, i) ==> Holds(c, ws[i]))
  {
    var c := Nearby(ws, addr, |ws|);
    forall k | 0 <= k < |c| ensures FoundClose(ws, addr, |ws|, c[k]) { NearbyIsClose(ws, addr, |ws|, c[k]); }
    forall i: nat | i < |ws| && Close(ws, addr, i) ensures Holds(c, ws[i]) {
      assert FoundClose(ws, addr, |ws|, ws[i]);
      NearbyIsClose(ws, addr, |ws|, ws[i]);
    }
  }

  // ----- the fields of the new object -----

  predicate LastAt(ws: seq<Write>, a: nat, n: nat, i: nat)
    requires n <= |ws|
  {
    i < n && ws[i].addr == a && forall j :: i < j < n ==> ws[j].addr != a
  }

  predicate FirstAt(ws: seq<Write>, a: nat, n: nat, i: nat)
    requires n <= |ws|
  {
    i < n && ws[i].addr == a && forall j :: 0 <= j < i ==> ws[j].addr != a
  }

  function TimesAt(ws: seq<Write>, a: nat, n: nat): nat
    requires n <= |ws|
  {
    if n == 0 then 0 else TimesAt(ws, a, n - 1) + if ws[n - 1].addr == a then 1 else 0
  }

  /** The field of an address: the size of its first write, the value, the number and the pointer
      test of its last one, and how often it was written. */
  ghost predicate FieldOf(ws: seq<Write>, a: nat, n: nat, f: HeapField)
    requires n <= |ws|
  {
    exists i: nat, j: nat :: FirstAt(ws, a, n, i) && LastAt(ws, a, n, j)
      && f == HeapField(ws[i].size, ws[j].value,
                        ws[j].size == 8 && 0x1000 <= ws[j].value < 0x0100_0000_0000_0000,
                        TimesAt(ws, a, n), ws[j].at)
  }

  lemma {:induction false} GatheredPrefix(ws: seq<Write>, x: Write, base: nat, n: nat)
    requires n <= |ws| && base <= x.addr && forall k :: 0 <= k < |ws| ==> base <= ws[k].addr
    ensures Gathered(ws + [x], base, n) == Gathered(ws, base, n)
  {
    if n > 0 { GatheredPrefix(ws, x, base, n - 1); }
  }

  lemma {:induction false} FieldOfNext(ws: seq<Write>, a: nat, n: nat, before: map<nat, HeapField>, off: nat, here: nat)
    requires n < |ws|
    requires off in before <==> TimesAt(ws, a, n) > 0
    requires off in before ==> FieldOf(ws, a, n, before[off])
    requires TimesAt(ws, a, n) == 0 ==> forall i :: 0 <= i < n ==> ws[i].addr != a
    requires ws[n].addr == a <==> here == off
    ensures var after := if here == off then Recorded(before, off, ws[n]) else before;
            (off in after <==> TimesAt(ws, a, n + 1) > 0) && (off in after ==> FieldOf(ws, a, n + 1, after[off]))
  {
    if off in before {
      var i: nat, j: nat :| FirstAt(ws, a, n, i) && LastAt(ws, a, n, j)
        && before[off] == HeapField(ws[i].size, ws[j].value, ws[j].size == 8 && 0x1000 <= ws[j].value < 0x0100_0000_0000_0000,
                                    TimesAt(ws, a, n), ws[j].at);
      assert FirstAt(ws, a, n + 1, i);
      if here == off { assert LastAt(ws, a, n + 1, n); } else { assert LastAt(ws, a, n + 1, j); }
    } else if here == off {
      assert FirstAt(ws, a, n + 1, n) && LastAt(ws, a, n + 1, n);
    }
  }

  lemma {:induction false} NeverAt(ws: seq<Write>, a: nat, n: nat)
    requires n <= |ws|
    ensures TimesAt(ws, a, n) == 0 <==> forall i :: 0 <= i < n ==> ws[i].addr != a
  {
    if n > 0 { NeverAt(ws, a, n - 1); }
  }

  predicate Near(a: nat, addr: nat) { a <= addr + 256 && addr <= a + 256 }

  /** The gathered fields are those of the near addresses written, as the list of all writes tells. */
  lemma {:induction false} GatheredTells(ws: seq<Write>, addr: nat, base: nat, n: nat, off: nat)
    requires n <= |ws| && AllFrom(Nearby(ws, addr, n), base)
    ensures Tells(ws, addr, base, n, off, Gathered(Nearby(ws, addr, n), base, |Nearby(ws, addr, n)|))
  {
    if n > 0 {
      var before, x := Nearby(ws, addr, n - 1), ws[n - 1];
      if Near(x.addr, addr) {
        FromPrefix(before, x, base);
        GatheredTells(ws, addr, base, n - 1, off);
        GatheredSnoc(before, x, base);
        GatheredNext(ws, addr, base, n - 1, off, Gathered(before, base, |before|));
      } else {
        GatheredTells(ws, addr, base, n - 1, off);
        FarNext(ws, addr, base, n - 1, off, Gathered(before, base, |before|));
      }
    }
  }

  predicate AllFrom(c: seq<Write>, base: nat) { forall k :: 0 <= k < |c| ==> base <= c[k].addr }

  /** These fields have what the first n writes say about the offset. */
  ghost predicate Tells(ws: seq<Write>, addr: nat, base: nat, n: nat, off: nat, fields: map<nat, HeapField>)
    requires n <= |ws|
  {
    && (off in fields <==> Near(base + off, addr) && TimesAt(ws, base + off, n) > 0)
    && (off in fields ==> FieldOf(ws, base + off, n, fields[off]))
  }

  lemma FromPrefix(c: seq<Write>, x: Write, base: nat)
    requires AllFrom(c + [x], base)
    ensures AllFrom(c, base) && base <= x.addr
  {
    var d := c + [x];
    assert d[|c|] == x && forall k :: 0 <= k < |c| ==> d[k] == c[k];
  }

  lemma GatheredSnoc(c: seq<Write>, x: Write, base: nat)
    requires AllFrom(c, base) && base <= x.addr
    ensures Gathered(c + [x], base, |c| + 1) == Recorded(Gathered(c, base, |c|), x.addr - base, x)
  {
    GatheredPrefix(c, x, base, |c|);
  }

  lemma {:induction false} FarNext(ws: seq<Write>, addr: nat, base: nat, n: nat, off: nat, fields: map<nat, HeapField>)
    requires n < |ws| && !Near(ws[n].addr, addr) && Tells(ws, addr, base, n, off, fields)
    ensures Tells(ws, addr, base, n + 1, off, fields)
  {
    if Near(base + off, addr) {
      NeverAt(ws, base + off, n);
      FieldOfNext(ws, base + off, n, fields, off, off + 1);
    }
  }

  lemma {:induction false} GatheredNext(ws: seq<Write>, addr: nat, base: nat, n: nat, off: nat, before: map<nat, HeapField>)
    requires n < |ws| && Near(ws[n].addr, addr) && base <= ws[n].addr && Tells(ws, addr, base, n, off, before)
    ensures Tells(ws, addr, base, n + 1, off, Recorded(before, ws[n].addr - base, ws[n]))
  {
    if Near(base + off, addr) {
      NeverAt(ws, base + off, n);
      FieldOfNext(ws, base + off, n, before, off, ws[n].addr - base);
    }
  }

  // ----- the birth -----

  /** The lowest address of the close writes. */
  ghost predicate Lowest(ws: seq<Write>, addr: nat, base: nat) {
    && (exists i :: 0 <= i < |ws| && Close(ws, addr, i) && ws[i].addr == base)
    && forall i :: 0 <= i < |ws| && Close(ws, addr, i) ==> base <= ws[i].addr
  }

  predicate EdgeOfField(o: HeapObject, e: HeapEdge) {
    && e.offset in o.fields && o.fields[e.offset].isPointer
    && e == HeapEdge(o.base + e.offset, o.fields[e.offset].lastValue, e.offset, o.fields[e.offset].lastSeq, 1)
  }

  lemma {:induction false} EdgesOfFields(o: HeapObject, n: nat)
    ensures forall k :: 0 <= k < |PointerEdges(o.fields, o.base, n)| ==> EdgeOfField(o, PointerEdges(o.fields, o.base, n)[k])
  {
    if n > 0 { EdgesOfFields(o, n - 1); }
  }

  /** The object that the close writes describe. */
  ghost predicate BornFrom(o: HeapObject, ws: seq<Write>, addr: nat, base: nat, at: nat) {
    && o.base == base && o.lastSeq == at && o.belief == Belief(None, 0.0, [], 0, 0)
    // it reaches from the lowest address to the highest end, and over eight bytes at least
    && (forall i :: 0 <= i < |ws| && Close(ws, addr, i) ==> ws[i].addr + ws[i].size <= base + o.size)
    && o.size >= 8
    && (o.size > 8 ==> exists i :: 0 <= i < |ws| && Close(ws, addr, i) && ws[i].addr + ws[i].size == base + o.size)
    // one field for each address
    && (forall off: nat :: Tells(ws, addr, base, |ws|, off, o.fields))
    // one edge for each field that holds a pointer, to what it holds
    && (forall k :: 0 <= k < |o.edges| ==> EdgeOfField(o, o.edges[k]))
    && (forall off: nat :: off in o.fields && o.fields[off].isPointer ==> HasEdge(o.edges, off, o.fields[off].lastValue))
    // first seen with the earliest of the close writes
    && (forall i :: 0 <= i < |ws| && Close(ws, addr, i) ==> o.firstSeq <= ws[i].at)
    && (exists i :: 0 <= i < |ws| && Close(ws, addr, i) && ws[i].at == o.firstSeq)
  }

  lemma {:induction false} EarliestIs(c: seq<Write>, n: nat)
    requires 0 < n <= |c|
    ensures forall k :: 0 <= k < n ==> EarliestSeq(c, n) <= c[k].at
    ensures exists k :: 0 <= k < n && EarliestSeq(c, n) == c[k].at
  {
    if n == 1 {
      assert EarliestSeq(c, n) == c[0].at;
    } else {
      EarliestIs(c, n - 1);
      if EarliestSeq(c, n) == c[n - 1].at {
      } else {
        var k :| 0 <= k < n - 1 && EarliestSeq(c, n - 1) == c[k].at;
        assert EarliestSeq(c, n) == c[k].at;
      }
    }
  }

  lemma {:induction false} LowestIs(ws: seq<Write>, addr: nat, c: seq<Write>, base: nat)
    requires c == Nearby(ws, addr, |ws|) && c != []
    ensures Lowest(ws, addr, base) <==> base == LowestAddr(c, |c|)
  {
    KeptAreClose(ws, addr);
    var low := LowestAddr(c, |c|);
    forall i | 0 <= i < |ws| && Close(ws, addr, i) ensures low <= ws[i].addr {
      var k :| 0 <= k < |c| && c[k] == ws[i];
    }
    var k :| 0 <= k < |c| && low == c[k].addr;
    var i :| 0 <= i < |ws| && Close(ws, addr, i) && ws[i] == c[k];
    assert Lowest(ws, addr, low);
  }

  lemma {:induction false} BornSize(ws: seq<Write>, addr: nat, c: seq<Write>, base: nat, size: nat)
    requires c == Nearby(ws, addr, |ws|) && c != [] && base <= HighestEnd(c, |c|)
    requires size == if HighestEnd(c, |c|) - base >= 8 then HighestEnd(c, |c|) - base else 8
    ensures forall i :: 0 <= i < |ws| && Close(ws, addr, i) ==> ws[i].addr + ws[i].size <= base + size
    ensures size > 8 ==> exists i :: 0 <= i < |ws| && Close(ws, addr, i) && ws[i].addr + ws[i].size == base + size
  {
    KeptAreClose(ws, addr);
    forall i | 0 <= i < |ws| && Close(ws, addr, i) ensures ws[i].addr + ws[i].size <= base + size {
      var k :| 0 <= k < |c| && c[k] == ws[i];
    }
    var k :| 0 <= k < |c| && HighestEnd(c, |c|) == c[k].addr + c[k].size;
    var i :| 0 <= i < |ws| && Close(ws, addr, i) && ws[i] == c[k];
  }

  lemma {:induction false} BornSeq(ws: seq<Write>, addr: nat, c: seq<Write>)
    requires c == Nearby(ws, addr, |ws|) && c != []
    ensures forall i :: 0 <= i < |ws| && Close(ws, addr, i) ==> EarliestSeq(c, |c|) <= ws[i].at
    ensures exists i :: 0 <= i < |ws| && Close(ws, addr, i) && ws[i].at == EarliestSeq(c, |c|)
  {
    KeptAreClose(ws, addr);
    EarliestIs(c, |c|);
    forall i | 0 <= i < |ws| && Close(ws, addr, i) ensures EarliestSeq(c, |c|) <= ws[i].at {
      var k :| 0 <= k < |c| && c[k] == ws[i];
    }
    var k :| 0 <= k < |c| && EarliestSeq(c, |c|) == c[k].at;
    var i :| 0 <= i < |ws| && Close(ws, addr, i) && ws[i] == c[k];
  }

  lemma {:induction false} BornEdges(c: seq<Write>, base: nat, o: HeapObject)
    requires AllFrom(c, base) && (forall k :: 0 <= k < |c| ==> c[k].addr < base + SPAN) && o.base == base
    requires o.fields == Gathered(c, base, |c|) && o.edges == PointerEdges(o.fields, base, SPAN)
    ensures forall k :: 0 <= k < |o.edges| ==> EdgeOfField(o, o.edges[k])
    ensures forall off: nat :: off in o.fields && o.fields[off].isPointer ==> HasEdge(o.edges, off, o.fields[off].lastValue)
  {
    EdgesOfFields(o, SPAN);
    forall off: nat | off in o.fields && o.fields[off].isPointer ensures HasEdge(o.edges, off, o.fields[off].lastValue) {
      GatheredAt(c, base, |c|, off);
      var k :| 0 <= k < |c| && c[k].addr == base + off;
      PointerEdgesComplete(o.fields, base, SPAN, off);
    }
  }

  /** The cluster of the close writes is that object. */
  lemma {:induction false} ClusterBorn(g: Graph, ws: seq<Write>, addr: nat, at: nat, base: nat)
    requires var c := Nearby(ws, addr, |ws|); c != [] && base == LowestAddr(c, |c|) && base !in g.objects
    ensures var g' := Cluster(g, Nearby(ws, addr, |ws|), at);
            base in g'.objects && g'.objects == g.objects[base := g'.objects[base]]
            && BornFrom(g'.objects[base], ws, addr, base, at)
  {
    var c := Nearby(ws, addr, |ws|);
    var o := Cluster(g, c, at).objects[base];
    NearbyCompact(ws, addr);
    forall k | 0 <= k < |c| ensures c[k].addr < base + SPAN {
      var j :| 0 <= j < |c| && base == c[j].addr;
    }
    BornEdges(c, base, o);
    BornSize(ws, addr, c, base, o.size);
    BornSeq(ws, addr, c);
    forall off: nat ensures Tells(ws, addr, base, |ws|, off, o.fields) { GatheredTells(ws, addr, base, |ws|, off); }
  }

  /** A write to an address that resolves to nothing creates an object exactly when at least three of
      the last 64 writes, itself included, lie within 256 bytes of it and no object starts at the
      lowest of their addresses; the object is the one those writes describe, and no other object
      changes. */
  lemma {:induction false} BirthExactly(cands: Option<seq<Candidate>>, ops: seq<Op>, n: nat, base: nat)
    requires n < |ops| && ops[n].Store?
    requires forall b :: !ResolvesTo(Run(cands, ops, n), ops[n].w.addr, b)
    requires Lowest(Last64(WritesIn(ops, n + 1)), ops[n].w.addr, base)
    ensures var g, g', w, ws := Run(cands, ops, n), Run(cands, ops, n + 1), ops[n].w, Last64(WritesIn(ops, n + 1));
            if |CloseOnes(ws, w.addr, |ws|)| >= 3 && base !in g.objects
            then base in g'.objects && g'.objects == g.objects[base := g'.objects[base]]
                 && BornFrom(g'.objects[base], ws, w.addr, base, w.at)
            else g'.objects == g.objects
  {
    var g, w, ws := Run(cands, ops, n), ops[n].w, Last64(WritesIn(ops, n + 1));
    WindowIsLast64(cands, ops, n);
    Last64Next(WritesIn(ops, n), w);
    if FindBase(g, w.addr).Some? { FindBaseResolves(g, w.addr, FindBase(g, w.addr).value); }
    var g1, c := g.(recent := ws), Nearby(ws, w.addr, |ws|);
    assert Stored(g, cands, w) == if |c| >= MIN_CLUSTER_WRITES then Cluster(g1, c, w.at) else g1;
    NearbyCounts(ws, w.addr, |ws|);
    if c != [] {
      LowestIs(ws, w.addr, c, base);
      if base !in g.objects { ClusterBorn(g1, ws, w.addr, w.at, base); }
    }
  }

  /** There always is a lowest address: the write itself is close. */
  lemma {:induction false} LowestExists(ops: seq<Op>, n: nat) returns (base: nat)
    requires n < |ops| && ops[n].Store?
    ensures Lowest(Last64(WritesIn(ops, n + 1)), ops[n].w.addr, base)
  {
    var ws, addr := Last64(WritesIn(ops, n + 1)), ops[n].w.addr;
    assert ws[|ws| - 1] == ops[n].w && Close(ws, addr, |ws| - 1);
    KeptAreClose(ws, addr);
    var c := Nearby(ws, addr, |ws|);
    base := LowestAddr(c, |c|);
    LowestIs(ws, addr, c, base);
  }

  /** Every other write changes no more than the object it resolves to. */
  lemma {:induction false} NoBirthInto(cands: Option<seq<Candidate>>, ops: seq<Op>, n: nat, base: nat)
    requires n < |ops| && ops[n].Store? && ResolvesTo(Run(cands, ops, n), ops[n].w.addr, base)
    ensures var g, g' := Run(cands, ops, n), Run(cands, ops, n + 1);
            base in g.objects && base in g'.objects && g'.objects == g.objects[base := g'.objects[base]] && g'.owner == g.owner
  {
    var g, w := Run(cands, ops, n), ops[n].w;
    FindBaseResolves(g, w.addr, base);
    FoundIsLive(g, w.addr);
  }

  /** The new object claims the near written addresses, whoever had them, and nothing else. */
  lemma {:induction false} BirthClaims(cands: Option<seq<Candidate>>, ops: seq<Op>, n: nat, base: nat, a: nat)
    requires n < |ops| && ops[n].Store?
    requires forall b :: !ResolvesTo(Run(cands, ops, n), ops[n].w.addr, b)
    requires Lowest(Last64(WritesIn(ops, n + 1)), ops[n].w.addr, base)
    ensures var g, g', w, ws := Run(cands, ops, n), Run(cands, ops, n + 1), ops[n].w, Last64(WritesIn(ops, n + 1));
            var claimed := |CloseOnes(ws, w.addr, |ws|)| >= 3 && base !in g.objects && Near(a, w.addr) && TimesAt(ws, a, |ws|) > 0;
            && (a in g'.owner <==> a in g.owner || claimed)
            && (a in g'.owner ==> g'.owner[a] == if claimed then base else g.owner[a])
  {
    var g, w, ws := Run(cands, ops, n), ops[n].w, Last64(WritesIn(ops, n + 1));
    WindowIsLast64(cands, ops, n);
    Last64Next(WritesIn(ops, n), w);
    if FindBase(g, w.addr).Some? { FindBaseResolves(g, w.addr, FindBase(g, w.addr).value); }
    var g1, c := g.(recent := ws), Nearby(ws, w.addr, |ws|);
    assert Stored(g, cands, w) == if |c| >= MIN_CLUSTER_WRITES then Cluster(g1, c, w.at) else g1;
    NearbyCounts(ws, w.addr, |ws|);
    if c != [] {
      LowestIs(ws, w.addr, c, base);
      ClaimedAt(g.owner, c, base, |c|, a);
      WrittenIsNear(ws, w.addr, a);
    }
  }

  lemma {:induction false} WrittenIsNear(ws: seq<Write>, addr: nat, a: nat)
    ensures var c := Nearby(ws, addr, |ws|); Written(c, |c|, a) <==> Near(a, addr) && TimesAt(ws, a, |ws|) > 0
  {
    var c := Nearby(ws, addr, |ws|);
    KeptAreClose(ws, addr);
    NeverAt(ws, a, |ws|);
    if Near(a, addr) && TimesAt(ws, a, |ws|) > 0 {
      var i :| 0 <= i < |ws| && ws[i].addr == a;
      assert Close(ws, addr, i) && ws[i] in c;
    }
  }
}
