/** The sequence-gap counter behind the transport: what it reports of the batches that a ring really
    delivers. Nothing lost, nothing reported; and what laps lose is reported with its exact number. */
module LossReports {
  import opened Events
  import opened Transport
  import opened Delivery
  import opened GapTracking
  import opened Words

  // ----- the runs of a stream and the batches of a consumer -----

  /** The stream from one boundary to another, run by run. */
  function RunsIn(stream: seq<Event>, from: nat, to: nat): seq<seq<Event>>
    requires to <= |stream|
    decreases Ahead(from, to)
  {
    if from >= to || stream[from].RunLength() == 0 || from + stream[from].RunLength() > to then []
    else
      var next := from + stream[from].RunLength();
      [stream[from..next]] + RunsIn(stream, next, to)
  }

  lemma {:induction false} RunsUnfold(stream: seq<Event>, from: nat, to: nat)
    requires from < to <= |stream| && stream[from].RunLength() > 0 && from + stream[from].RunLength() <= to
    ensures var next := from + stream[from].RunLength();
            RunsIn(stream, from, to) == [stream[from..next]] + RunsIn(stream, next, to)
  {
  }

  lemma {:induction false} RunsJoin(stream: seq<Event>, a: nat, b: nat, c: nat)
    requires b <= c <= |stream| && IsBoundary(stream, a, b)
    ensures RunsIn(stream, a, c) == RunsIn(stream, a, b) + RunsIn(stream, b, c)
    decreases Ahead(a, b)
  {
    if a < b {
      var next := a + stream[a].RunLength();
      FirstRun(stream, a, b);
      RunsJoin(stream, next, b, c);
      RunsUnfold(stream, a, c);
      Regroup([stream[a..next]], RunsIn(stream, next, b), RunsIn(stream, b, c));
    }
  }

  lemma Regroup(a: seq<seq<Event>>, b: seq<seq<Event>>, c: seq<seq<Event>>)
    ensures a + (b + c) == (a + b) + c
  {
  }

  lemma SliceOfSlice(stream: seq<Event>, a: nat, b: nat, p: nat, q: nat)
    requires a <= p <= q <= b <= |stream|
    ensures stream[a..b][p - a..q - a] == stream[p..q]
  {
    forall i | 0 <= i < q - p ensures stream[a..b][p - a..q - a][i] == stream[p..q][i] {
      assert stream[a..b][p - a + i] == stream[p + i];
    }
    assert stream[a..b][p - a..q - a] == stream[p..q];
  }

  lemma {:induction false} FirstRun(stream: seq<Event>, from: nat, to: nat)
    requires from < to <= |stream| && IsBoundary(stream, from, to)
    ensures var next := from + stream[from].RunLength();
            from < next <= to && IsBoundary(stream, next, to)
            && RunsIn(stream, from, to) == [stream[from..next]] + RunsIn(stream, next, to)
  {
    var next := from + stream[from].RunLength();
    assert stream[from].RunLength() > 0 && IsBoundary(stream, next, to);
    BoundaryOrder(stream, next, to);
    RunsUnfold(stream, from, to);
  }

  /** A piece of the stream between two boundaries is its runs one after the other. */
  lemma {:induction false} PieceOfRuns(stream: seq<Event>, a: nat, b: nat, p: nat)
    requires a <= p <= b <= |stream| && IsBoundary(stream, p, b)
    ensures Pieces(stream[a..b], p - a, RunsIn(stream, p, b))
    decreases b - p
  {
    if p < b {
      var q := p + stream[p].RunLength();
      FirstRun(stream, p, b);
      PieceOfRuns(stream, a, b, q);
      SliceOfSlice(stream, a, b, p, q);
      assert ([stream[p..q]] + RunsIn(stream, q, b))[1..] == RunsIn(stream, q, b);
    }
  }

  /** The batches stored along a run, in order. */
  ghost function Batches(s: System, steps: seq<Step>): seq<seq<Event>>
    requires Legal(s, steps)
    decreases |steps|
  {
    if steps == [] then []
    else
      (if steps[0] == Engine(StoreTail) then [s.consumer.batch] else []) + Batches(Next(s, steps[0]), steps[1..])
  }

  /** Of the stream below the committed index nothing changes any more, and the tail only grows. */
  ghost predicate Keeps(a: System, b: System, n: nat) {
    n <= |a.stream| && n <= |b.stream| && b.stream[..n] == a.stream[..n] && a.tail <= b.tail
  }

  lemma StepKeeps(s: System, step: Step, n: nat)
    requires Inv(s) && Enabled(s, step) && n <= Committed(s)
    ensures Keeps(s, Next(s, step), n) && n <= Committed(Next(s, step))
  {
    match step
    case Tracer(t) => TracerStable(s, t);
    case Engine(e) => EngineStable(s, e);
  }

  lemma {:induction false} StreamStable(s: System, steps: seq<Step>, n: nat)
    requires Inv(s) && Legal(s, steps) && n <= Committed(s)
    ensures Keeps(s, Run(s, steps), n)
    decreases |steps|
  {
    if steps != [] {
      InvStep(s, steps[0]);
      StepKeeps(s, steps[0], n);
      StreamStable(Next(s, steps[0]), steps[1..], n);
    }
  }

  lemma TailMoves(s: System, step: Step)
    requires Inv(s) && Enabled(s, step)
    ensures Next(s, step).tail == if step == Engine(StoreTail) then s.consumer.newTail else s.tail
  {
    match step
    case Tracer(t) => TracerStable(s, t);
    case Engine(e) => EngineMoves(s, e);
  }

  lemma EngineMoves(s: System, step: EngineStep)
    requires EngineEnabled(s, step)
    ensures EngineNext(s, step).tail == if step == StoreTail then s.consumer.newTail else s.tail
  {
  }

  /** One batch stored without loss is a piece of the stream, also of what the stream becomes. */
  lemma StoredPiece(s: System, steps: seq<Step>)
    requires Inv(s) && Lossless(s) && EngineEnabled(s, StoreTail) && Legal(s, steps)
    ensures var e, to := Run(s, steps).stream, s.consumer.newTail;
            s.tail <= to <= |e| && s.consumer.batch == e[s.tail..to] && IsBoundary(e, s.tail, to)
  {
    var e, to := Run(s, steps).stream, s.consumer.newTail;
    StreamStable(s, steps, to);
    PieceStays(s.stream, e, s.tail, to);
  }

  lemma PieceStays(a: seq<Event>, b: seq<Event>, from: nat, to: nat)
    requires from <= to <= |a| && to <= |b| && b[..to] == a[..to] && IsBoundary(a, from, to)
    ensures b[from..to] == a[from..to] && IsBoundary(b, from, to)
  {
    forall i | 0 <= i < to ensures b[i] == a[i] { assert b[..to][i] == a[..to][i]; }
    BoundaryAgree(a, b, from, to);
  }

  /** A lossless run after its first step. */
  lemma Advance(s: System, steps: seq<Step>)
    requires Inv(s) && Lossless(s) && Legal(s, steps) && AllFit(s, steps) && steps != []
    ensures var next, rest := Next(s, steps[0]), steps[1..];
            Inv(next) && Lossless(next) && Legal(next, rest) && AllFit(next, rest) && Run(s, steps) == Run(next, rest)
  {
    InvStep(s, steps[0]);
    assert Fits(Next(s, steps[0]));
    LosslessStep(s, steps[0]);
  }

  /** The batches are made of these runs, in order, none split and none left out. */
  ghost predicate MadeOfRuns(batches: seq<seq<Event>>, parts: seq<seq<seq<Event>>>, runs: seq<seq<Event>>) {
    BatchesMadeOf(batches, parts) && Flatten(parts) == runs
  }

  lemma MadeOfMore(batches: seq<seq<Event>>, parts: seq<seq<seq<Event>>>, runs: seq<seq<Event>>,
                   batch: seq<Event>, part: seq<seq<Event>>)
    requires MadeOfRuns(batches, parts, runs) && MadeOf(batch, 0, part)
    ensures MadeOfRuns([batch] + batches, [part] + parts, part + runs)
  {
    assert ([part] + parts)[1..] == parts;
  }

  /** Without loss the batches are made of the runs of the stream. */
  lemma {:induction false} BatchesAreRuns(s: System, steps: seq<Step>) returns (parts: seq<seq<seq<Event>>>)
    requires Inv(s) && Lossless(s) && Legal(s, steps) && AllFit(s, steps)
    requires Run(s, steps).tail <= |Run(s, steps).stream|
    requires AllClean(RunsIn(Run(s, steps).stream, s.tail, Run(s, steps).tail))
    ensures MadeOfRuns(Batches(s, steps), parts, RunsIn(Run(s, steps).stream, s.tail, Run(s, steps).tail))
    decreases |steps|
  {
    if steps == [] {
      parts := [];
    } else {
      var next, e := Next(s, steps[0]), Run(s, steps);
      Advance(s, steps);
      TailMoves(s, steps[0]);
      BatchesCons(s, steps);
      if steps[0] == Engine(StoreTail) {
        StreamStable(next, steps[1..], 0);
        var part := OneMorePart(s, steps, e.stream, e.tail);
        var others := BatchesAreRuns(next, steps[1..]);
        parts := [part] + others;
        MadeOfMore(Batches(next, steps[1..]), others, RunsIn(e.stream, next.tail, e.tail), s.consumer.batch, part);
      } else {
        parts := BatchesAreRuns(next, steps[1..]);
      }
    }
  }

  lemma BatchesCons(s: System, steps: seq<Step>)
    requires Legal(s, steps) && steps != []
    ensures var rest := Batches(Next(s, steps[0]), steps[1..]);
            Batches(s, steps) == if steps[0] == Engine(StoreTail) then [s.consumer.batch] + rest else rest
  {
    assert [] + Batches(Next(s, steps[0]), steps[1..]) == Batches(Next(s, steps[0]), steps[1..]);
  }

  lemma OneMorePart(s: System, steps: seq<Step>, stream: seq<Event>, tail: nat) returns (part: seq<seq<Event>>)
    requires Inv(s) && Lossless(s) && EngineEnabled(s, StoreTail) && Legal(s, steps)
    requires stream == Run(s, steps).stream && s.consumer.newTail <= tail <= |stream|
    requires AllClean(RunsIn(stream, s.tail, tail))
    ensures MadeOf(s.consumer.batch, 0, part)
    ensures RunsIn(stream, s.tail, tail) == part + RunsIn(stream, s.consumer.newTail, tail)
    ensures AllClean(RunsIn(stream, s.consumer.newTail, tail))
  {
    var to := s.consumer.newTail;
    StoredPiece(s, steps);
    RunsJoin(stream, s.tail, to, tail);
    part := RunsIn(stream, s.tail, to);
    CleanParts(part, RunsIn(stream, to, tail));
    PieceOfRuns(stream, s.tail, to, s.tail);
  }

  lemma CleanParts(a: seq<seq<Event>>, b: seq<seq<Event>>)
    requires AllClean(a + b)
    ensures AllClean(a) && AllClean(b)
  {
    forall i | 0 <= i < |a| ensures CleanRun(a[i]) { assert (a + b)[i] == a[i]; }
    forall i | 0 <= i < |b| ensures CleanRun(b[i]) { assert (a + b)[|a| + i] == b[i]; }
  }

  // ----- nothing lost, nothing reported -----

  /** The last number of a key after c of its events. */
  predicate EndsAt(xs: seq<nat>, from: nat, c: nat) {
    (xs == [] <==> c == 0) && (xs != [] ==> xs[|xs| - 1] == from + c - 1)
  }

  lemma EndsAtNext(before: seq<Sighting>, x: Sighting, key: Key, from: nat, c: nat)
    requires EndsAt(Of(before, key), from, c) && (x.key == key ==> x.index == from + c)
    ensures EndsAt(Of(before + [x], key), from, c + if x.key == key then 1 else 0)
  {
    OfSnoc(before, x, key);
  }

  lemma {:induction false} LastOf(seen: seq<Sighting>, first: Key -> nat, key: Key, n: nat)
    requires n <= |seen| && Complete(seen, first)
    ensures EndsAt(Of(seen[..n], key), first(key), CountOf(seen, key, n))
  {
    if n > 0 {
      LastOf(seen, first, key, n - 1);
      assert NumberedAt(seen, first, n - 1);
      EndsAtNext(seen[..n - 1], seen[n - 1], key, first(key), CountOf(seen, key, n - 1));
      assert seen[..n] == seen[..n - 1] + [seen[n - 1]];
    }
  }

  /** A complete stream of any length is observed without a gap. */
  lemma {:induction false} CompleteNoGap(seen: seq<Sighting>, first: Key -> nat, n: nat)
    requires n <= |seen| && Complete(seen, first)
    ensures ObserveAll(seen[..n]).gaps == 0
  {
    if n > 0 {
      CompleteNoGap(seen, first, n - 1);
      LastOf(seen, first, seen[n - 1].key, n - 1);
      assert NumberedAt(seen, first, n - 1);
      NextNoGap(seen[..n - 1], seen[n - 1]);
      assert seen[..n] == seen[..n - 1] + [seen[n - 1]];
    }
  }

  lemma NextNoGap(before: seq<Sighting>, x: Sighting)
    requires var xs := Of(before, x.key); xs != [] ==> x.index == xs[|xs| - 1] + 1
    ensures ObserveAll(before + [x]).gaps == ObserveAll(before).gaps
  {
    GapStep(before, x);
  }

  predicate AllWrapped(stream: seq<Event>) {
    forall k :: 0 <= k < |stream| ==> stream[k].Seq32() < U32
  }

  lemma {:induction false} BatchesWrapped(s: System, steps: seq<Step>)
    requires Inv(s) && Lossless(s) && Legal(s, steps) && AllFit(s, steps) && AllWrapped(Run(s, steps).stream)
    ensures forall b: seq<Event>, k :: b in Batches(s, steps) && 0 <= k < |b| ==> b[k].Seq32() < U32
    decreases |steps|
  {
    if steps != [] {
      Advance(s, steps);
      BatchesWrapped(Next(s, steps[0]), steps[1..]);
      if steps[0] == Engine(StoreTail) { StoredPiece(s, steps); }
    }
  }

  /** From the producer's numbering to the engine's counter: in every interleaving that stays within
      the capacity, a tracer that numbers the runs of each thread and domain consecutively never
      gets a gap report. */
  lemma NoLossNoGap(cap: nat, steps: seq<Step>, seen: seq<Sighting>, first: Key -> nat)
    requires cap > 0 && Legal(Init(cap), steps) && AllFit(Init(cap), steps)
    requires var e := Run(Init(cap), steps);
             e.tail <= |e.stream| && AllWrapped(e.stream) && AllClean(RunsIn(e.stream, 0, e.tail))
             && HeadersAgree(RunsIn(e.stream, 0, e.tail), seen) && Complete(seen, first)
    ensures var batches := Batches(Init(cap), steps);
            && (forall b: seq<Event>, k :: b in batches && 0 <= k < |b| ==> b[k].Seq32() < U32)
            && TrackBatches(NOTHING_SEEN, batches, false).gaps == 0
  {
    InitInv(cap);
    BatchesWrapped(Init(cap), steps);
    var parts := BatchesAreRuns(Init(cap), steps);
    DrainObserves(Batches(Init(cap), steps), parts, seen, false);
    NothingSkipped(seen, SkippedRuns(Flatten(parts), false), |seen|);
    CompleteNoGap(seen, first, |seen|);
  }

  /** For the capacity-checked producer that is every interleaving. */
  lemma CheckedNoGap(cap: nat, steps: seq<Step>, seen: seq<Sighting>, first: Key -> nat)
    requires cap > 0 && Legal(Init(cap), steps) && forall i :: 0 <= i < |steps| ==> !WritesUnchecked(steps[i])
    requires var e := Run(Init(cap), steps);
             e.tail <= |e.stream| && AllWrapped(e.stream) && AllClean(RunsIn(e.stream, 0, e.tail))
             && HeadersAgree(RunsIn(e.stream, 0, e.tail), seen) && Complete(seen, first)
    ensures var batches := Batches(Init(cap), steps);
            && (forall b: seq<Event>, k :: b in batches && 0 <= k < |b| ==> b[k].Seq32() < U32)
            && TrackBatches(NOTHING_SEEN, batches, false).gaps == 0
  {
    InitInv(cap);
    CheckedRunFits(Init(cap), steps);
    NoLossNoGap(cap, steps, seen, first);
  }

  // ----- what is lost is reported -----

  /** A lost event of the key that stands between two of its events that arrived. */
  predicate LostBetween(seen: seq<Sighting>, lost: seq<bool>, key: Key, j: nat, n: nat)
    requires n <= |seen| == |lost|
  {
    exists i, k :: 0 <= i < j < k < n && SplitAt(seen, lost, i, j, k) && seen[j].key == key
  }

  function Lost(seen: seq<Sighting>, lost: seq<bool>, key: Key, n: nat): set<nat>
    requires n <= |seen| == |lost|
  {
    set j | 0 <= j < n && LostBetween(seen, lost, key, j, n)
  }

  /** The events of a key strictly between two places. */
  function Inside(seen: seq<Sighting>, key: Key, p: nat, n: nat): set<nat>
    requires p < n <= |seen|
  {
    set j | p < j < n && seen[j].key == key
  }

  lemma {:induction false} InsideCounted(seen: seq<Sighting>, key: Key, p: nat, n: nat)
    requires p < n <= |seen| && seen[p].key == key
    ensures |Inside(seen, key, p, n)| == CountOf(seen, key, n) - CountOf(seen, key, p) - 1
  {
    if p == n - 1 {
      assert Inside(seen, key, p, n) == {};
    } else {
      InsideCounted(seen, key, p, n - 1);
      if seen[n - 1].key == key {
        assert Inside(seen, key, p, n) == Inside(seen, key, p, n - 1) + {n - 1};
      } else {
        assert Inside(seen, key, p, n) == Inside(seen, key, p, n - 1);
      }
    }
  }

  /** Nothing is decided by an event that was lost itself or is of another key or the first one. */
  lemma {:induction false} LostSame(seen: seq<Sighting>, lost: seq<bool>, key: Key, n: nat)
    requires n < |seen| == |lost|
    requires lost[n] || seen[n].key != key || LastKept(seen, lost, key, n) < 0
    ensures Lost(seen, lost, key, n + 1) == Lost(seen, lost, key, n)
  {
    forall j | 0 <= j < n && LostBetween(seen, lost, key, j, n) ensures LostBetween(seen, lost, key, j, n + 1) {
      var i, k :| 0 <= i < j < k < n && SplitAt(seen, lost, i, j, k);
      assert SplitAt(seen, lost, i, j, k);
    }
    forall j | 0 <= j < n + 1 && LostBetween(seen, lost, key, j, n + 1) ensures j < n && LostBetween(seen, lost, key, j, n) {
      var i, k :| 0 <= i < j < k < n + 1 && SplitAt(seen, lost, i, j, k) && seen[j].key == key;
      assert k < n;
    }
  }

  /** An event that arrives decides everything lost since the last one of its key. */
  lemma {:induction false} LostMore(seen: seq<Sighting>, lost: seq<bool>, key: Key, n: nat)
    requires n < |seen| == |lost| && !lost[n] && seen[n].key == key && LastKept(seen, lost, key, n) >= 0
    ensures var p := LastKept(seen, lost, key, n);
            && Lost(seen, lost, key, n + 1) == Lost(seen, lost, key, n) + Inside(seen, key, p, n)
            && Lost(seen, lost, key, n) !! Inside(seen, key, p, n)
  {
    var p: nat := LastKept(seen, lost, key, n);
    forall j | j in Lost(seen, lost, key, n) ensures j < p && LostBetween(seen, lost, key, j, n + 1) {
      var i, k :| 0 <= i < j < k < n && SplitAt(seen, lost, i, j, k) && seen[j].key == key;
      assert k <= p;
      assert SplitAt(seen, lost, i, j, k);
    }
    forall j | j in Inside(seen, key, p, n) ensures LostBetween(seen, lost, key, j, n + 1) {
      assert SplitAt(seen, lost, p, j, n);
    }
    forall j | 0 <= j < n + 1 && LostBetween(seen, lost, key, j, n + 1)
      ensures j in Lost(seen, lost, key, n) || j in Inside(seen, key, p, n)
    {
      var i, k :| 0 <= i < j < k < n + 1 && SplitAt(seen, lost, i, j, k) && seen[j].key == key;
      if j < p { assert SplitAt(seen, lost, i, j, p); }
    }
  }

  /** The positions that arrived grow, by less than 2^32 each time. */
  lemma {:induction false} KeptAscends(seen: seq<Sighting>, lost: seq<bool>, first: Key -> nat, key: Key, n: nat)
    requires n <= |seen| == |lost| <= U32 && Complete(seen, first)
    ensures Ascending(Of(Kept(seen, lost, n), key))
  {
    if n > 0 {
      var before, x := Kept(seen, lost, n - 1), seen[n - 1];
      KeptAscends(seen, lost, first, key, n - 1);
      if !lost[n - 1] {
        if x.key == key { KeptGap(seen, lost, first, key, n - 1); }
        AscendingNext(before, x, key);
      }
    }
  }

  lemma AscendingNext(before: seq<Sighting>, x: Sighting, key: Key)
    requires Ascending(Of(before, key))
    requires var xs := Of(before, key); x.key == key && xs != [] ==> xs[|xs| - 1] < x.index <= xs[|xs| - 1] + U32
    ensures Ascending(Of(before + [x], key))
  {
    OfSnoc(before, x, key);
    if x.key == key { AscendingGrows(Of(before, key), x.index); }
  }

  lemma AscendingGrows(xs: seq<nat>, x: nat)
    requires Ascending(xs) && (xs != [] ==> xs[|xs| - 1] < x <= xs[|xs| - 1] + U32)
    ensures Ascending(xs + [x])
  {
    var ys := xs + [x];
    forall k | 0 < k < |ys| ensures Follows(ys, k) {
      if k < |xs| { assert Follows(xs, k); }
    }
  }

  /** What arrives is numbered as many past the last one of its key as were lost in between. */
  lemma {:induction false} KeptGap(seen: seq<Sighting>, lost: seq<bool>, first: Key -> nat, key: Key, n: nat)
    requires n < |seen| == |lost| <= U32 && Complete(seen, first) && seen[n].key == key
    ensures var xs, p := Of(Kept(seen, lost, n), key), LastKept(seen, lost, key, n);
            && (xs == [] <==> p < 0)
            && (p >= 0 ==> seen[n].index == xs[|xs| - 1] + 1 + |Inside(seen, key, p, n)|
                           && xs[|xs| - 1] < seen[n].index <= xs[|xs| - 1] + U32)
  {
    var p := LastKept(seen, lost, key, n);
    LastKeptIsLast(seen, lost, key, n);
    if p >= 0 {
      CountBetween(seen, key, p, n);
      NumbersApart(seen, first, p, n);
      InsideCounted(seen, key, p, n);
    }
  }

  lemma {:induction false} SumGrows(xs: seq<nat>, x: nat)
    requires Ascending(xs + [x]) && Ascending(xs)
    ensures Sum(Drops(xs + [x], |xs| + 1))
         == Sum(Drops(xs, |xs|)) + if xs == [] then 0 else x - xs[|xs| - 1] - 1
  {
    DropsSnoc(xs, x);
    AscendingSnoc(xs, x);
    if xs != [] && x != xs[|xs| - 1] + 1 {
      SumSnoc(Drops(xs, |xs|), x - xs[|xs| - 1] - 1);
    } else {
      assert Drops(xs, |xs|) + [] == Drops(xs, |xs|);
    }
  }

  /** What is missing between the first n arrivals of a key is what was lost between them. */
  ghost predicate Accounted(seen: seq<Sighting>, lost: seq<bool>, key: Key, n: nat)
    requires n <= |seen| == |lost|
  {
    var xs := Of(Kept(seen, lost, n), key);
    Ascending(xs) && Sum(Drops(xs, |xs|)) == |Lost(seen, lost, key, n)|
  }

  lemma {:induction false} DropsAreLost(seen: seq<Sighting>, lost: seq<bool>, first: Key -> nat, key: Key, n: nat)
    requires n <= |seen| == |lost| <= U32 && Complete(seen, first)
    ensures Accounted(seen, lost, key, n)
  {
    if n == 0 {
      NoneAccounted(seen, lost, key);
    } else {
      DropsAreLost(seen, lost, first, key, n - 1);
      OneMoreAccounted(seen, lost, first, key, n - 1);
    }
  }

  lemma {:induction false} NoneAccounted(seen: seq<Sighting>, lost: seq<bool>, key: Key)
    requires |seen| == |lost|
    ensures Accounted(seen, lost, key, 0)
  {
    assert Lost(seen, lost, key, 0) == {};
  }

  lemma {:induction false} OneMoreAccounted(seen: seq<Sighting>, lost: seq<bool>, first: Key -> nat, key: Key, n: nat)
    requires n < |seen| == |lost| <= U32 && Complete(seen, first) && Accounted(seen, lost, key, n)
    ensures Accounted(seen, lost, key, n + 1)
  {
    var xs := Of(Kept(seen, lost, n), key);
    KeptAscends(seen, lost, first, key, n + 1);
    if lost[n] {
      LostSame(seen, lost, key, n);
    } else {
      OfSnoc(Kept(seen, lost, n), seen[n], key);
      if seen[n].key != key {
        LostSame(seen, lost, key, n);
      } else {
        KeptGap(seen, lost, first, key, n);
        SumGrows(xs, seen[n].index);
        if LastKept(seen, lost, key, n) < 0 { LostSame(seen, lost, key, n); } else { LostMore(seen, lost, key, n); }
      }
    }
  }

  /** Of a complete numbering, whatever runs are lost, by laps or otherwise: the gap sizes reported
      for a thread and domain add up to its lost events that stand between two that arrived. */
  lemma {:induction false} LostAreReported(
    batches: seq<seq<Event>>, parts: seq<seq<seq<Event>>>, seen: seq<Sighting>, lost: seq<bool>, first: Key -> nat, key: Key)
    requires |seen| == |lost| <= U32 && Complete(seen, first)
    requires BatchesMadeOf(batches, parts) && HeadersAgree(Flatten(parts), Kept(seen, lost, |seen|))
    requires forall b: seq<Event>, k :: b in batches && 0 <= k < |b| ==> b[k].Seq32() < U32
    ensures Sum(SizesOf(TrackBatches(NOTHING_SEEN, batches, false).reports, key)) == |Lost(seen, lost, key, |seen|)|
  {
    var kept := Kept(seen, lost, |seen|);
    DropsAreLost(seen, lost, first, key, |seen|);
    DrainedGapsAreDrops(batches, parts, kept, key);
  }
}
