/** Sequence-gap accounting in the engine's drain loop (`engine/src/main.rs`): one expected 32-bit
    sequence number per thread and sequence domain, compared with every event drained. */
module GapTracking {
  import opened Events
  import opened Words

  /** WRITE and BB_ENTRY are numbered by the inline path, everything else by clean calls. */
  function SeqDomain(kind: nat): nat {
    if kind == KIND_WRITE || kind == KIND_BB_ENTRY then 0 else 1
  }

  datatype Key = Key(threadId: nat, domain: nat)

  function KeyOf(ev: Event): Key { Key(ev.threadId, SeqDomain(ev.Kind())) }

  /** Kinds 0 and 11, writes and block entries. */
  predicate NumberedInline(ev: Event) { ev.Kind() == 0 || ev.Kind() == 11 }

  /** Two events share a numbering exactly when they are of one thread and both or neither of them
      are writes or block entries. */
  lemma SharedNumbering(a: Event, b: Event)
    ensures KeyOf(a) == KeyOf(b) <==> a.threadId == b.threadId && (NumberedInline(a) <==> NumberedInline(b))
  {
  }

  /** A gap as it is printed: whose numbering, and how many events are missing. */
  datatype Report = Report(key: Key, size: nat)

  /** `reports` is the history of the gaps that `gaps` counts. */
  datatype Tracker = Tracker(expected: map<Key, nat>, gaps: nat, reports: seq<Report>)

  function WrapSub(a: nat, b: nat): nat
    requires a < U32 && b < U32
  {
    if a >= b then a - b else U32 + a - b
  }

  predicate Wrapped(s: Tracker) {
    forall key :: key in s.expected ==> s.expected[key] < U32
  }

  function Observe(s: Tracker, key: Key, s32: nat): (s': Tracker)
    requires Wrapped(s) && s32 < U32
    ensures Wrapped(s')
  {
    var want := if key in s.expected then s.expected[key] else s32;
    var next := (s32 + 1) % U32;
    if s32 != want then
      Tracker(s.expected[key := next], s.gaps + 1, s.reports + [Report(key, WrapSub(s32, want))])
    else s.(expected := s.expected[key := next])
  }

  // ----- the true numbering behind the 32-bit one -----

  /** An event seen: its key and its true, unwrapped position in its domain's numbering. */
  datatype Sighting = Sighting(key: Key, index: nat)

  const NOTHING_SEEN: Tracker := Tracker(map[], 0, [])

  function ObserveAll(seen: seq<Sighting>): (s: Tracker)
    ensures Wrapped(s)
  {
    if seen == [] then NOTHING_SEEN
    else
      var last := seen[|seen| - 1];
      Observe(ObserveAll(seen[..|seen| - 1]), last.key, last.index % U32)
  }

  /** The true positions of one key, in the order seen. */
  function Of(seen: seq<Sighting>, key: Key): seq<nat> {
    if seen == [] then []
    else
      var last := seen[|seen| - 1];
      var rest := Of(seen[..|seen| - 1], key);
      if last.key == key then rest + [last.index] else rest
  }

  function SizesOf(reports: seq<Report>, key: Key): seq<nat> {
    if reports == [] then []
    else
      var last := reports[|reports| - 1];
      var rest := SizesOf(reports[..|reports| - 1], key);
      if last.key == key then rest + [last.size] else rest
  }

  lemma ObserveSnoc(seen: seq<Sighting>, x: Sighting)
    ensures ObserveAll(seen + [x]) == Observe(ObserveAll(seen), x.key, x.index % U32)
  {
    assert (seen + [x])[..|seen|] == seen;
  }

  lemma OfSnoc(seen: seq<Sighting>, x: Sighting, key: Key)
    ensures Of(seen + [x], key) == if x.key == key then Of(seen, key) + [x.index] else Of(seen, key)
  {
    assert (seen + [x])[..|seen|] == seen;
  }

  /** Positions grow, and no run of dropped events is 2^32 or longer. */
  predicate Ascending(xs: seq<nat>) {
    forall k {:trigger Follows(xs, k)} :: 0 < k < |xs| ==> Follows(xs, k)
  }

  predicate Follows(xs: seq<nat>, k: nat)
    requires 0 < k < |xs|
  {
    xs[k - 1] < xs[k] <= xs[k - 1] + U32
  }

  /** Lengths of the runs of positions dropped between the first n sightings, in order. */
  function Drops(xs: seq<nat>, n: nat): seq<nat>
    requires Ascending(xs) && n <= |xs|
  {
    if n < 2 then []
    else
      var before := Drops(xs, n - 1);
      assert Follows(xs, n - 1);
      if xs[n - 1] == xs[n - 2] + 1 then before else before + [xs[n - 1] - xs[n - 2] - 1]
  }

  /** The expected number of a key is the wrapped successor of its last position. */
  lemma {:induction false} ExpectedIsNext(seen: seq<Sighting>, key: Key)
    ensures var xs, s := Of(seen, key), ObserveAll(seen);
            && (key in s.expected <==> xs != [])
            && (xs != [] ==> s.expected[key] == (xs[|xs| - 1] + 1) % U32)
  {
    if seen != [] {
      ExpectedIsNext(seen[..|seen| - 1], key);
    }
  }

  /** A gap is seen exactly when positions were dropped, with their exact number, across the wrap. */
  lemma WrappedDifference(prev: nat, now: nat)
    requires prev < now <= prev + U32
    ensures now % U32 == (prev + 1) % U32 <==> now == prev + 1
    ensures WrapSub(now % U32, (prev + 1) % U32) == now - prev - 1
  {
    var a, b := now % U32, (prev + 1) % U32;
    assert now == U32 * (now / U32) + a && prev + 1 == U32 * ((prev + 1) / U32) + b;
  }

  lemma SizesSnoc(reports: seq<Report>, r: Report, key: Key)
    ensures SizesOf(reports + [r], key)
         == if r.key == key then SizesOf(reports, key) + [r.size] else SizesOf(reports, key)
  {
    assert (reports + [r])[..|reports|] == reports;
  }

  lemma AscendingSnoc(xs: seq<nat>, x: nat)
    requires Ascending(xs + [x])
    ensures Ascending(xs)
    ensures xs != [] ==> xs[|xs| - 1] < x <= xs[|xs| - 1] + U32
  {
    var ys := xs + [x];
    forall k | 0 < k < |xs| ensures Follows(xs, k) { assert Follows(ys, k); }
    if xs != [] { assert Follows(ys, |xs|); }
  }

  lemma {:induction false} DropsPrefix(xs: seq<nat>, x: nat, n: nat)
    requires Ascending(xs + [x]) && Ascending(xs) && n <= |xs|
    ensures Drops(xs + [x], n) == Drops(xs, n)
  {
    if n > 0 { DropsPrefix(xs, x, n - 1); }
  }

  /** What one observation adds to the reports of its key. */
  lemma SizesStep(s: Tracker, key: Key, s32: nat)
    requires Wrapped(s) && s32 < U32
    ensures SizesOf(Observe(s, key, s32).reports, key)
         == SizesOf(s.reports, key)
            + if key in s.expected && s32 != s.expected[key] then [WrapSub(s32, s.expected[key])] else []
  {
    if key in s.expected && s32 != s.expected[key] {
      SizesSnoc(s.reports, Report(key, WrapSub(s32, s.expected[key])), key);
    }
  }

  lemma {:induction false} DropsSnoc(xs: seq<nat>, x: nat)
    requires Ascending(xs + [x]) && Ascending(xs)
    ensures Drops(xs + [x], |xs| + 1)
         == Drops(xs, |xs|) + if xs != [] && x != xs[|xs| - 1] + 1 then [x - xs[|xs| - 1] - 1] else []
  {
    DropsPrefix(xs, x, |xs|);
    AscendingSnoc(xs, x);
  }

  /** One more sighting of the key: a report exactly when positions were dropped before it. */
  lemma {:induction false} ReportsStep(seen: seq<Sighting>, x: Sighting)
    requires Ascending(Of(seen, x.key) + [x.index]) && Ascending(Of(seen, x.key))
    requires SizesOf(ObserveAll(seen).reports, x.key) == Drops(Of(seen, x.key), |Of(seen, x.key)|)
    ensures var xs := Of(seen, x.key) + [x.index];
            SizesOf(Observe(ObserveAll(seen), x.key, x.index % U32).reports, x.key) == Drops(xs, |xs|)
  {
    var xs := Of(seen, x.key);
    ExpectedIsNext(seen, x.key);
    SizesStep(ObserveAll(seen), x.key, x.index % U32);
    DropsSnoc(xs, x.index);
    if xs != [] {
      AscendingSnoc(xs, x.index);
      WrappedDifference(xs[|xs| - 1], x.index);
    }
  }

  lemma {:induction false} ReportsElsewhere(s: Tracker, x: Sighting, key: Key)
    requires Wrapped(s) && x.key != key
    ensures SizesOf(Observe(s, x.key, x.index % U32).reports, key) == SizesOf(s.reports, key)
  {
    var s32 := x.index % U32;
    if x.key in s.expected { SizesSnoc(s.reports, Report(x.key, WrapSub(s32, s.expected[x.key])), key); }
  }

  /** For every thread and domain, whatever is interleaved with it: the gaps reported are exactly
      its runs of dropped events after the first one seen, in order and with their exact sizes. */
  lemma {:induction false} ReportsAreDrops(seen: seq<Sighting>, key: Key)
    requires Ascending(Of(seen, key))
    ensures SizesOf(ObserveAll(seen).reports, key) == Drops(Of(seen, key), |Of(seen, key)|)
  {
    if seen != [] {
      var rest, last := seen[..|seen| - 1], seen[|seen| - 1];
      if last.key == key {
        AscendingSnoc(Of(rest, key), last.index);
        ReportsAreDrops(rest, key);
        ReportsStep(rest, last);
      } else {
        ReportsAreDrops(rest, key);
        ReportsElsewhere(ObserveAll(rest), last, key);
      }
    }
  }

  lemma {:induction false} GapsAreReports(seen: seq<Sighting>)
    ensures ObserveAll(seen).gaps == |ObserveAll(seen).reports|
  {
    if seen != [] { GapsAreReports(seen[..|seen| - 1]); }
  }

  // ----- gap sizes add up to the events that never arrived -----

  function Sum(xs: seq<nat>): nat {
    if xs == [] then 0 else Sum(xs[..|xs| - 1]) + xs[|xs| - 1]
  }

  function Span(lo: nat, hi: nat): (r: set<nat>)
    requires lo <= hi
    ensures forall i :: i in r <==> lo <= i < hi
    ensures |r| == hi - lo
    decreases hi - lo
  {
    if lo == hi then {} else Span(lo, hi - 1) + {hi - 1}
  }

  /** The positions dropped between the first n sightings, run by run. */
  function Missing(xs: seq<nat>, n: nat): set<nat>
    requires Ascending(xs) && n <= |xs|
  {
    if n < 2 then {}
    else
      assert Follows(xs, n - 1);
      Missing(xs, n - 1) + Span(xs[n - 2] + 1, xs[n - 1])
  }

  lemma {:induction false} Climbs(xs: seq<nat>, n: nat)
    requires Ascending(xs) && 0 < n <= |xs|
    ensures forall j :: 0 <= j < n ==> xs[0] <= xs[j] <= xs[n - 1]
  {
    if n > 1 {
      assert Follows(xs, n - 1);
      Climbs(xs, n - 1);
    }
  }

  predicate Unseen(xs: seq<nat>, n: nat, i: nat)
    requires n <= |xs|
  {
    forall j :: 0 <= j < n ==> xs[j] != i
  }

  lemma UnseenSnoc(xs: seq<nat>, n: nat, i: nat)
    requires 0 < n <= |xs|
    ensures Unseen(xs, n, i) <==> Unseen(xs, n - 1, i) && xs[n - 1] != i
  {
  }

  lemma {:induction false} BeyondUnseen(xs: seq<nat>, n: nat, i: nat)
    requires Ascending(xs) && 0 < n <= |xs| && xs[n - 1] < i
    ensures Unseen(xs, n, i)
  {
    Climbs(xs, n);
  }

  /** They are exactly the positions between the first and the last one seen that were not seen. */
  lemma {:induction false} MissingMeaning(xs: seq<nat>, n: nat, i: nat)
    requires Ascending(xs) && 0 < n <= |xs|
    ensures i in Missing(xs, n) <==> xs[0] <= i <= xs[n - 1] && Unseen(xs, n, i)
  {
    if n > 1 {
      assert Follows(xs, n - 1);
      MissingMeaning(xs, n - 1, i);
      UnseenSnoc(xs, n, i);
      Climbs(xs, n - 1);
      if xs[n - 2] < i { BeyondUnseen(xs, n - 1, i); }
    }
  }

  lemma {:induction false} DropsSumToMissing(xs: seq<nat>, n: nat)
    requires Ascending(xs) && n <= |xs|
    ensures Sum(Drops(xs, n)) == |Missing(xs, n)|
  {
    if n > 1 {
      DropsSumToMissing(xs, n - 1);
      MissingSize(xs, n);
      assert Follows(xs, n - 1);
      if xs[n - 1] != xs[n - 2] + 1 { SumSnoc(Drops(xs, n - 1), xs[n - 1] - xs[n - 2] - 1); }
    }
  }

  lemma MissingSize(xs: seq<nat>, n: nat)
    requires Ascending(xs) && 1 < n <= |xs|
    ensures xs[n - 2] < xs[n - 1]
    ensures |Missing(xs, n)| == |Missing(xs, n - 1)| + (xs[n - 1] - xs[n - 2] - 1)
  {
    assert Follows(xs, n - 1);
    var before := Missing(xs, n - 1);
    forall i | i in before ensures i <= xs[n - 2] { MissingMeaning(xs, n - 1, i); }
    assert before !! Span(xs[n - 2] + 1, xs[n - 1]);
  }

  lemma SumSnoc(xs: seq<nat>, x: nat)
    ensures Sum(xs + [x]) == Sum(xs) + x
  {
    assert (xs + [x])[..|xs|] == xs;
  }

  /** For one thread and domain: the reported sizes add up to the events that were dropped between
      the first and the last event seen. */
  lemma ReportedIsDropped(seen: seq<Sighting>, key: Key)
    requires Ascending(Of(seen, key))
    ensures Sum(SizesOf(ObserveAll(seen).reports, key)) == |Missing(Of(seen, key), |Of(seen, key)|)|
  {
    ReportsAreDrops(seen, key);
    DropsSumToMissing(Of(seen, key), |Of(seen, key)|);
  }

  // ----- the drain loop -----

  /** One drained batch from position `i`: snapshots are taken seven slots at a time, continuation
      slots are not tracked, and `noBb` skips block entries before they are looked at. */
  function Track(s: Tracker, batch: seq<Event>, i: nat, noBb: bool): (s': Tracker)
    requires Wrapped(s) && i <= |batch|
    requires forall k :: 0 <= k < |batch| ==> batch[k].Seq32() < U32
    ensures Wrapped(s')
    decreases |batch| - i
  {
    if i == |batch| then s
    else
      var ev := batch[i];
      if noBb && ev.Kind() == KIND_BB_ENTRY then Track(s, batch, i + 1, noBb)
      else
        Track(TrackOne(s, ev), batch, i + SlotsConsumed(batch, i), noBb)
  }

  function TrackOne(s: Tracker, ev: Event): (s': Tracker)
    requires Wrapped(s) && ev.Seq32() < U32
    ensures Wrapped(s')
  {
    if ev.IsContinuation() then s else Observe(s, KeyOf(ev), ev.Seq32())
  }

  /** `apply_reg_snapshot(..).max(1)`: seven for a whole snapshot, one for a short or torn one. */
  function SlotsConsumed(batch: seq<Event>, i: nat): (n: nat)
    requires i < |batch|
    ensures 1 <= n <= |batch| - i
  {
    if batch[i].Kind() == KIND_REG_SNAPSHOT && i + REG_SNAPSHOT_SLOTS <= |batch|
       && forall k :: i <= k < i + REG_SNAPSHOT_SLOTS ==> batch[k].Kind() == KIND_REG_SNAPSHOT
    then REG_SNAPSHOT_SLOTS else 1
  }

  class GapTracker {
    var expected: map<Key, nat>
    var gaps: nat
    ghost var reports: seq<Report>

    constructor ()
      ensures View() == NOTHING_SEEN
    {
      expected, gaps, reports := map[], 0, [];
    }

    ghost function View(): Tracker
      reads this
    {
      Tracker(expected, gaps, reports)
    }

    /** One tracked event. */
    method Note(ev: Event)
      requires Wrapped(View()) && ev.Seq32() < U32
      modifies this
      ensures View() == TrackOne(old(View()), ev)
    {
      if !ev.IsContinuation() {
        var key := KeyOf(ev);
        var s32 := ev.Seq32();
        var want := if key in expected then expected[key] else s32;
        if s32 != want {
          gaps := gaps + 1;
          reports := reports + [Report(key, WrapSub(s32, want))];
        }
        expected := expected[key := (s32 + 1) % U32];
      }
    }

    /** The tracking part of the drain loop over one batch. */
    method Drain(batch: seq<Event>, noBb: bool)
      requires Wrapped(View())
      requires forall k :: 0 <= k < |batch| ==> batch[k].Seq32() < U32
      modifies this
      ensures Wrapped(View()) && View() == Track(old(View()), batch, 0, noBb)
    {
      var i := 0;
      while i < |batch|
        invariant i <= |batch| && Wrapped(View())
        invariant Track(View(), batch, i, noBb) == Track(old(View()), batch, 0, noBb)
      {
        var ev := batch[i];
        if noBb && ev.Kind() == KIND_BB_ENTRY {
          i := i + 1;
        } else {
          var consumed := SlotsConsumed(batch, i);
          Note(ev);
          i := i + consumed;
        }
      }
    }
  }

  /** A run whose slots after the first are recognisably not headers. */
  predicate CleanRun(run: seq<Event>) {
    && IsRun(run) && !run[0].IsContinuation()
    && (if run[0].Kind() == KIND_REG_SNAPSHOT
        then forall k :: 0 <= k < |run| ==> run[k].Kind() == KIND_REG_SNAPSHOT
        else forall k :: 0 < k < |run| ==> run[k].IsContinuation() && run[k].Kind() == KIND_WRITE)
  }

  predicate AllClean(runs: seq<seq<Event>>) {
    forall i {:trigger CleanRun(runs[i])} :: 0 <= i < |runs| ==> CleanRun(runs[i])
  }

  /** From position `i` the batch is these pieces, one after the other. */
  predicate Pieces(batch: seq<Event>, i: nat, runs: seq<seq<Event>>)
    decreases |runs|
  {
    if runs == [] then i == |batch|
    else i + |runs[0]| <= |batch| && batch[i..i + |runs[0]|] == runs[0] && Pieces(batch, i + |runs[0]|, runs[1..])
  }

  predicate MadeOf(batch: seq<Event>, i: nat, runs: seq<seq<Event>>) { Pieces(batch, i, runs) && AllClean(runs) }

  predicate Skipped(ev: Event, noBb: bool) { noBb && ev.Kind() == KIND_BB_ENTRY }

  predicate Numbered(runs: seq<seq<Event>>) {
    forall i :: 0 <= i < |runs| ==> |runs[i]| > 0 && runs[i][0].Seq32() < U32
  }

  function TrackHeader(s: Tracker, ev: Event, noBb: bool): (s': Tracker)
    requires Wrapped(s) && ev.Seq32() < U32
    ensures Wrapped(s')
  {
    if Skipped(ev, noBb) then s else TrackOne(s, ev)
  }

  /** Tracking the headers of the runs only. */
  function TrackHeaders(s: Tracker, runs: seq<seq<Event>>, noBb: bool): (s': Tracker)
    requires Wrapped(s)
    requires Numbered(runs)
    ensures Wrapped(s')
    decreases |runs|
  {
    if runs == [] then s else TrackHeaders(TrackHeader(s, runs[0][0], noBb), runs[1..], noBb)
  }

  lemma {:induction false} FirstRunHere(batch: seq<Event>, i: nat, runs: seq<seq<Event>>)
    requires MadeOf(batch, i, runs) && runs != []
    ensures var to := i + |runs[0]|;
            && i < to <= |batch| && batch[i..to] == runs[0] && batch[i] == runs[0][0] && CleanRun(runs[0])
            && MadeOf(batch, to, runs[1..])
  {
    assert CleanRun(runs[0]);
    assert batch[i..i + |runs[0]|][0] == batch[i];
    forall k | 0 <= k < |runs[1..]| ensures CleanRun(runs[1..][k]) { assert CleanRun(runs[k + 1]); }
  }

  lemma {:induction false} TailNotTracked(s: Tracker, batch: seq<Event>, i: nat, to: nat, noBb: bool)
    requires Wrapped(s) && i <= to <= |batch|
    requires forall k :: 0 <= k < |batch| ==> batch[k].Seq32() < U32
    requires forall k :: i <= k < to ==> batch[k].IsContinuation() && batch[k].Kind() == KIND_WRITE
    ensures Track(s, batch, i, noBb) == Track(s, batch, to, noBb)
    decreases |batch| - i
  {
    if i < to { TailNotTracked(s, batch, i + 1, to, noBb); }
  }

  lemma TrackRun(s: Tracker, batch: seq<Event>, i: nat, len: nat, noBb: bool)
    requires Wrapped(s) && 0 < len <= |batch| - i && i <= |batch|
    requires forall k :: 0 <= k < |batch| ==> batch[k].Seq32() < U32
    requires CleanRun(batch[i..i + len])
    ensures Track(s, batch, i, noBb) == Track(TrackHeader(s, batch[i], noBb), batch, i + len, noBb)
  {
    var run := batch[i..i + len];
    assert forall k :: i <= k < i + len ==> batch[k] == run[k - i];
    if run[0].Kind() != KIND_REG_SNAPSHOT {
      TailNotTracked(TrackHeader(s, batch[i], noBb), batch, i + 1, i + len, noBb);
    }
  }

  lemma FirstTracked(s: Tracker, batch: seq<Event>, i: nat, runs: seq<seq<Event>>, noBb: bool)
    requires Wrapped(s) && i <= |batch| && MadeOf(batch, i, runs) && runs != []
    requires forall k :: 0 <= k < |batch| ==> batch[k].Seq32() < U32
    ensures i + |runs[0]| <= |batch| && |runs[0]| > 0 && runs[0][0].Seq32() < U32
    ensures Track(s, batch, i, noBb) == Track(TrackHeader(s, runs[0][0], noBb), batch, i + |runs[0]|, noBb)
  {
    FirstRunHere(batch, i, runs);
    TrackRun(s, batch, i, |runs[0]|, noBb);
  }

  lemma {:induction false} HeadersFirst(s: Tracker, runs: seq<seq<Event>>, noBb: bool)
    requires Wrapped(s) && Numbered(runs) && runs != []
    ensures Numbered(runs[1..])
    ensures TrackHeaders(s, runs, noBb) == TrackHeaders(TrackHeader(s, runs[0][0], noBb), runs[1..], noBb)
  {
  }

  /** A batch of whole runs counts each run once, by its header: neither the continuation slots of
      a compound write nor the six register slots of a snapshot are taken for numbered events. With
      `--no-bb` the block entries are left out, and nothing else. */
  lemma {:induction false} RunsCountOnce(s: Tracker, batch: seq<Event>, i: nat, runs: seq<seq<Event>>, noBb: bool)
    requires Wrapped(s) && i <= |batch| && MadeOf(batch, i, runs)
    requires forall k :: 0 <= k < |batch| ==> batch[k].Seq32() < U32
    requires Numbered(runs)
    ensures Track(s, batch, i, noBb) == TrackHeaders(s, runs, noBb)
    decreases |runs|
  {
    if runs != [] {
      FirstRunHere(batch, i, runs);
      FirstTracked(s, batch, i, runs, noBb);
      HeadersFirst(s, runs, noBb);
      RunsCountOnce(TrackHeader(s, runs[0][0], noBb), batch, i + |runs[0]|, runs[1..], noBb);
    }
  }

  // ----- from drained batches to the true numbering -----

  /** The event is a numbered one, and this is whose and which. */
  predicate Agrees(ev: Event, at: Sighting) {
    && !ev.IsContinuation() && ev.Seq32() == at.index % 0x1_0000_0000
    && at.key == Key(ev.threadId, if NumberedInline(ev) then 0 else 1)
  }

  predicate HeadersAgree(runs: seq<seq<Event>>, seen: seq<Sighting>) {
    |runs| == |seen| && forall i :: 0 <= i < |runs| ==> |runs[i]| > 0 && Agrees(runs[i][0], seen[i])
  }

  /** What is left of the first n sightings when the marked ones are skipped. */
  function Kept(seen: seq<Sighting>, skip: seq<bool>, n: nat): seq<Sighting>
    requires n <= |seen| == |skip|
  {
    if n == 0 then []
    else if skip[n - 1] then Kept(seen, skip, n - 1)
    else Kept(seen, skip, n - 1) + [seen[n - 1]]
  }

  function SkippedRuns(runs: seq<seq<Event>>, noBb: bool): (r: seq<bool>)
    ensures |r| == |runs|
  {
    seq(|runs|, i requires 0 <= i < |runs| => |runs[i]| > 0 && Skipped(runs[i][0], noBb))
  }

  lemma {:induction false} TrackHeadersSnoc(s: Tracker, runs: seq<seq<Event>>, last: seq<Event>, noBb: bool)
    requires Wrapped(s) && |last| > 0 && last[0].Seq32() < U32
    requires Numbered(runs)
    ensures TrackHeaders(s, runs + [last], noBb) == TrackHeader(TrackHeaders(s, runs, noBb), last[0], noBb)
    decreases |runs|
  {
    var all := runs + [last];
    if runs == [] {
      assert all[1..] == [];
    } else {
      assert all[0] == runs[0] && all[1..] == runs[1..] + [last];
      TrackHeadersSnoc(TrackHeader(s, runs[0][0], noBb), runs[1..], last, noBb);
    }
  }

  lemma {:induction false} HeadersWrapped(runs: seq<seq<Event>>, seen: seq<Sighting>)
    requires HeadersAgree(runs, seen)
    ensures Numbered(runs)
  {
    forall i | 0 <= i < |runs| ensures |runs[i]| > 0 && runs[i][0].Seq32() < U32 {
      assert Agrees(runs[i][0], seen[i]);
    }
  }

  lemma HeaderIsSighting(before: seq<Sighting>, ev: Event, x: Sighting, noBb: bool)
    requires Agrees(ev, x)
    ensures ev.Seq32() < U32
    ensures TrackHeader(ObserveAll(before), ev, noBb) == ObserveAll(if Skipped(ev, noBb) then before else before + [x])
  {
    ObserveSnoc(before, x);
  }

  lemma KeptNext(runs: seq<seq<Event>>, seen: seq<Sighting>, noBb: bool, n: nat)
    requires n < |runs| == |seen| && |runs[n]| > 0
    ensures var skip := SkippedRuns(runs, noBb);
            Kept(seen, skip, n + 1)
            == if Skipped(runs[n][0], noBb) then Kept(seen, skip, n) else Kept(seen, skip, n) + [seen[n]]
  {
  }

  /** Tracking the headers of the first n runs of a list is observing their true positions one by
      one, those of skipped block entries left out. */
  lemma {:induction false} HeadersAreSightings(runs: seq<seq<Event>>, seen: seq<Sighting>, noBb: bool, n: nat)
    requires HeadersAgree(runs, seen) && n <= |runs|
    ensures Numbered(runs[..n])
    ensures TrackHeaders(NOTHING_SEEN, runs[..n], noBb) == ObserveAll(Kept(seen, SkippedRuns(runs, noBb), n))
  {
    HeadersWrapped(runs, seen);
    if n > 0 {
      HeadersAreSightings(runs, seen, noBb, n - 1);
      OneMoreHeader(runs, seen, noBb, n - 1);
    }
  }

  lemma {:induction false} OneMoreHeader(runs: seq<seq<Event>>, seen: seq<Sighting>, noBb: bool, n: nat)
    requires HeadersAgree(runs, seen) && n < |runs|
    requires Numbered(runs)
    requires Numbered(runs[..n]) && Numbered(runs[..n + 1])
    requires TrackHeaders(NOTHING_SEEN, runs[..n], noBb) == ObserveAll(Kept(seen, SkippedRuns(runs, noBb), n))
    ensures TrackHeaders(NOTHING_SEEN, runs[..n + 1], noBb) == ObserveAll(Kept(seen, SkippedRuns(runs, noBb), n + 1))
  {
    var last, kept := runs[n], Kept(seen, SkippedRuns(runs, noBb), n);
    assert Agrees(last[0], seen[n]);
    assert runs[..n + 1] == runs[..n] + [last];
    TrackHeadersSnoc(NOTHING_SEEN, runs[..n], last, noBb);
    HeaderIsSighting(kept, last[0], seen[n], noBb);
    KeptNext(runs, seen, noBb, n);
  }

  /** Batches drained one after the other, each made of whole runs. */
  function TrackBatches(s: Tracker, batches: seq<seq<Event>>, noBb: bool): (s': Tracker)
    requires Wrapped(s)
    requires forall b: seq<Event>, k :: b in batches && 0 <= k < |b| ==> b[k].Seq32() < U32
    ensures Wrapped(s')
    decreases |batches|
  {
    if batches == [] then s
    else assert batches[0] in batches; TrackBatches(Track(s, batches[0], 0, noBb), batches[1..], noBb)
  }

  function Flatten(parts: seq<seq<seq<Event>>>): seq<seq<Event>> {
    if parts == [] then [] else parts[0] + Flatten(parts[1..])
  }

  predicate BatchesMadeOf(batches: seq<seq<Event>>, parts: seq<seq<seq<Event>>>) {
    |batches| == |parts| && forall i :: 0 <= i < |batches| ==> MadeOf(batches[i], 0, parts[i])
  }

  lemma {:induction false} TrackHeadersJoin(s: Tracker, a: seq<seq<Event>>, b: seq<seq<Event>>, noBb: bool)
    requires Wrapped(s)
    requires Numbered(a + b)
    ensures Numbered(a) && Numbered(b)
    ensures TrackHeaders(s, a + b, noBb) == TrackHeaders(TrackHeaders(s, a, noBb), b, noBb)
    decreases |a|
  {
    forall i | 0 <= i < |a| ensures |a[i]| > 0 && a[i][0].Seq32() < U32 { assert (a + b)[i] == a[i]; }
    forall i | 0 <= i < |b| ensures |b[i]| > 0 && b[i][0].Seq32() < U32 { assert (a + b)[|a| + i] == b[i]; }
    if a == [] {
      assert a + b == b;
    } else {
      assert (a + b)[0] == a[0] && (a + b)[1..] == a[1..] + b;
      TrackHeadersJoin(TrackHeader(s, a[0][0], noBb), a[1..], b, noBb);
    }
  }

  lemma {:induction false} BatchesTrackHeaders(s: Tracker, batches: seq<seq<Event>>, parts: seq<seq<seq<Event>>>, noBb: bool)
    requires Wrapped(s) && BatchesMadeOf(batches, parts)
    requires forall b: seq<Event>, k :: b in batches && 0 <= k < |b| ==> b[k].Seq32() < U32
    requires Numbered(Flatten(parts))
    ensures TrackBatches(s, batches, noBb) == TrackHeaders(s, Flatten(parts), noBb)
    decreases |batches|
  {
    if batches != [] {
      var rest := Flatten(parts[1..]);
      TrackHeadersJoin(s, parts[0], rest, noBb);
      assert batches[0] in batches && MadeOf(batches[0], 0, parts[0]);
      RunsCountOnce(s, batches[0], 0, parts[0], noBb);
      BatchesTrackHeaders(TrackHeaders(s, parts[0], noBb), batches[1..], parts[1..], noBb);
    }
  }

  /** The drain loop, whatever the batches of whole runs, observes the true positions of their
      headers, block entries left out with `--no-bb`. */
  lemma {:induction false} DrainObserves(
    batches: seq<seq<Event>>, parts: seq<seq<seq<Event>>>, seen: seq<Sighting>, noBb: bool)
    requires BatchesMadeOf(batches, parts) && HeadersAgree(Flatten(parts), seen)
    requires forall b: seq<Event>, k :: b in batches && 0 <= k < |b| ==> b[k].Seq32() < U32
    ensures TrackBatches(NOTHING_SEEN, batches, noBb) == ObserveAll(Kept(seen, SkippedRuns(Flatten(parts), noBb), |seen|))
  {
    var runs := Flatten(parts);
    HeadersWrapped(runs, seen);
    HeadersAreSightings(runs, seen, noBb, |runs|);
    assert runs[..|runs|] == runs;
    BatchesTrackHeaders(NOTHING_SEEN, batches, parts, noBb);
  }

  lemma {:induction false} NothingSkipped(seen: seq<Sighting>, skip: seq<bool>, n: nat)
    requires n <= |seen| == |skip| && forall i :: 0 <= i < n ==> !skip[i]
    ensures Kept(seen, skip, n) == seen[..n]
  {
    if n > 0 {
      NothingSkipped(seen, skip, n - 1);
      assert seen[..n] == seen[..n - 1] + [seen[n - 1]];
    }
  }

  /** The drain loop, end to end: over any batches of whole runs, and for every thread and domain
      whose dropped runs are shorter than 2^32, the gaps reported are its runs of dropped events
      after the first one seen, in order and with their exact sizes, and the sizes add up to the
      events that never arrived. The counter counts the reports of all of them. */
  lemma {:induction false} DrainedGapsAreDrops(
    batches: seq<seq<Event>>, parts: seq<seq<seq<Event>>>, seen: seq<Sighting>, key: Key)
    requires BatchesMadeOf(batches, parts) && HeadersAgree(Flatten(parts), seen) && Ascending(Of(seen, key))
    requires forall b: seq<Event>, k :: b in batches && 0 <= k < |b| ==> b[k].Seq32() < U32
    ensures var e, xs := TrackBatches(NOTHING_SEEN, batches, false), Of(seen, key);
            && SizesOf(e.reports, key) == Drops(xs, |xs|)
            && Sum(SizesOf(e.reports, key)) == |Missing(xs, |xs|)|
            && e.gaps == |e.reports|
  {
    DrainObserves(batches, parts, seen, false);
    NothingSkipped(seen, SkippedRuns(Flatten(parts), false), |seen|);
    assert seen[..|seen|] == seen;
    ReportsAreDrops(seen, key);
    ReportedIsDropped(seen, key);
    GapsAreReports(seen);
  }

  // ----- skipping events of a complete stream -----

  /** How many of the first n sightings have this key. */
  function CountOf(seen: seq<Sighting>, key: Key, n: nat): (c: nat)
    requires n <= |seen|
    ensures c <= n
  {
    if n == 0 then 0 else CountOf(seen, key, n - 1) + if seen[n - 1].key == key then 1 else 0
  }

  /** Every event of every key is there: each key is numbered consecutively from some first number. */
  ghost predicate Complete(seen: seq<Sighting>, first: Key -> nat) {
    forall i {:trigger NumberedAt(seen, first, i)} :: 0 <= i < |seen| ==> NumberedAt(seen, first, i)
  }

  predicate NumberedAt(seen: seq<Sighting>, first: Key -> nat, i: nat)
    requires i < |seen|
  {
    seen[i].index == first(seen[i].key) + CountOf(seen, seen[i].key, i)
  }

  /** A skipped sighting stands between two kept ones of its own key. */
  predicate SplitAt(seen: seq<Sighting>, skip: seq<bool>, i: nat, j: nat, k: nat)
    requires i < j < k < |seen| == |skip|
  {
    !skip[i] && skip[j] && !skip[k] && seen[i].key == seen[j].key == seen[k].key
  }

  predicate Split(seen: seq<Sighting>, skip: seq<bool>, n: nat)
    requires n <= |seen| == |skip|
  {
    exists i, j, k :: 0 <= i < j < k < n && SplitAt(seen, skip, i, j, k)
  }

  function LastKept(seen: seq<Sighting>, skip: seq<bool>, key: Key, n: nat): (p: int)
    requires n <= |seen| == |skip|
    ensures -1 <= p < n
    ensures p >= 0 ==> !skip[p] && seen[p].key == key
    ensures forall j :: p < j < n && seen[j].key == key ==> skip[j]
  {
    if n == 0 then -1
    else if !skip[n - 1] && seen[n - 1].key == key then n - 1
    else LastKept(seen, skip, key, n - 1)
  }

  lemma {:induction false} LastKeptIsLast(seen: seq<Sighting>, skip: seq<bool>, key: Key, n: nat)
    requires n <= |seen| == |skip|
    ensures var xs, p := Of(Kept(seen, skip, n), key), LastKept(seen, skip, key, n);
            (xs == [] <==> p < 0) && (p >= 0 ==> xs[|xs| - 1] == seen[p].index)
  {
    if n > 0 {
      LastKeptIsLast(seen, skip, key, n - 1);
      if !skip[n - 1] { OfSnoc(Kept(seen, skip, n - 1), seen[n - 1], key); }
    }
  }

  predicate SeenBetween(seen: seq<Sighting>, key: Key, p: int, n: nat)
    requires n <= |seen| && -1 <= p
  {
    exists j :: p < j < n && seen[j].key == key
  }

  /** Two sightings of a key are numbered one apart exactly when none of that key is between them. */
  lemma {:induction false} CountBetween(seen: seq<Sighting>, key: Key, p: nat, n: nat)
    requires p < n <= |seen| && seen[p].key == key
    ensures CountOf(seen, key, p) < CountOf(seen, key, n) <= CountOf(seen, key, p) + (n - p)
    ensures CountOf(seen, key, n) == CountOf(seen, key, p) + 1 <==> !SeenBetween(seen, key, p, n)
  {
    if p < n - 1 {
      CountBetween(seen, key, p, n - 1);
      assert SeenBetween(seen, key, p, n) <==> SeenBetween(seen, key, p, n - 1) || seen[n - 1].key == key;
    }
  }

  lemma ReportCounted(s: Tracker, key: Key, s32: nat)
    requires Wrapped(s) && s32 < U32
    ensures Observe(s, key, s32).gaps == s.gaps + if key in s.expected && s32 != s.expected[key] then 1 else 0
  {
  }

  /** One more sighting, less than 2^32 after the last of its key: a gap exactly when it is not the
      next one. */
  lemma {:induction false} GapStep(before: seq<Sighting>, x: Sighting)
    requires var xs := Of(before, x.key); xs != [] ==> xs[|xs| - 1] < x.index <= xs[|xs| - 1] + U32
    ensures var xs := Of(before, x.key);
            ObserveAll(before + [x]).gaps
            == ObserveAll(before).gaps + if xs != [] && x.index != xs[|xs| - 1] + 1 then 1 else 0
  {
    var xs := Of(before, x.key);
    ObserveSnoc(before, x);
    ReportCounted(ObserveAll(before), x.key, x.index % U32);
    ExpectedIsNext(before, x.key);
    if xs != [] { WrappedDifference(xs[|xs| - 1], x.index); }
  }

  /** A kept event that follows a skipped one of its key. */
  predicate AfterSkip(seen: seq<Sighting>, skip: seq<bool>, n: nat)
    requires n < |seen| == |skip|
  {
    !skip[n] && LastKept(seen, skip, seen[n].key, n) >= 0
    && SeenBetween(seen, seen[n].key, LastKept(seen, skip, seen[n].key, n), n)
  }

  /** The tracker reports a gap exactly there. */
  lemma {:induction false} GapAtKept(seen: seq<Sighting>, skip: seq<bool>, first: Key -> nat, n: nat)
    requires n < |seen| == |skip| <= U32 && Complete(seen, first)
    ensures ObserveAll(Kept(seen, skip, n + 1)).gaps
         == ObserveAll(Kept(seen, skip, n)).gaps + if AfterSkip(seen, skip, n) then 1 else 0
  {
    if !skip[n] {
      var key, before := seen[n].key, Kept(seen, skip, n);
      var p := LastKept(seen, skip, key, n);
      LastKeptIsLast(seen, skip, key, n);
      if p >= 0 {
        CountBetween(seen, key, p, n);
        NumbersApart(seen, first, p, n);
      }
      GapStep(before, seen[n]);
    }
  }

  lemma NumbersApart(seen: seq<Sighting>, first: Key -> nat, p: nat, n: nat)
    requires p < n < |seen| && Complete(seen, first) && seen[p].key == seen[n].key
    ensures seen[n].index - seen[p].index == CountOf(seen, seen[n].key, n) - CountOf(seen, seen[n].key, p)
  {
    assert NumberedAt(seen, first, p) && NumberedAt(seen, first, n);
  }

  lemma {:induction false} SplitGrows(seen: seq<Sighting>, skip: seq<bool>, n: nat)
    requires n < |seen| == |skip|
    ensures Split(seen, skip, n + 1) <==> Split(seen, skip, n) || AfterSkip(seen, skip, n)
  {
    var p := LastKept(seen, skip, seen[n].key, n);
    if Split(seen, skip, n + 1) {
      var i, j, k :| 0 <= i < j < k < n + 1 && SplitAt(seen, skip, i, j, k);
      if k == n && j < p { assert SplitAt(seen, skip, i, j, p); }
    }
    if Split(seen, skip, n) {
      var i, j, k :| 0 <= i < j < k < n && SplitAt(seen, skip, i, j, k);
      assert SplitAt(seen, skip, i, j, k);
    } else if AfterSkip(seen, skip, n) {
      var j :| p < j < n && seen[j].key == seen[n].key;
      assert SplitAt(seen, skip, p, j, n);
    }
  }

  /** How many of the first n events follow a skipped one of their key. */
  function CountAfterSkip(seen: seq<Sighting>, skip: seq<bool>, n: nat): nat
    requires n <= |seen| == |skip|
  {
    if n == 0 then 0 else CountAfterSkip(seen, skip, n - 1) + if AfterSkip(seen, skip, n - 1) then 1 else 0
  }

  lemma {:induction false} NoneAfterSkip(seen: seq<Sighting>, skip: seq<bool>, n: nat)
    requires n <= |seen| == |skip|
    ensures CountAfterSkip(seen, skip, n) == 0 <==> !Split(seen, skip, n)
  {
    if n > 0 {
      NoneAfterSkip(seen, skip, n - 1);
      SplitGrows(seen, skip, n - 1);
    }
  }

  /** The gaps reported on what is left of a complete stream are the events that follow a skipped
      one of their own key. */
  lemma {:induction false} GapsAfterSkips(seen: seq<Sighting>, skip: seq<bool>, first: Key -> nat, n: nat)
    requires n <= |seen| == |skip| <= U32 && Complete(seen, first)
    ensures ObserveAll(Kept(seen, skip, n)).gaps == CountAfterSkip(seen, skip, n)
  {
    if n > 0 {
      GapsAfterSkips(seen, skip, first, n - 1);
      GapAtKept(seen, skip, first, n - 1);
    }
  }

  /** Skipping events of a complete stream makes the tracker report gaps exactly when a skipped
      event stands between two kept ones of its own thread and domain. */
  lemma {:induction false} SkippingSplits(seen: seq<Sighting>, skip: seq<bool>, first: Key -> nat)
    requires |seen| == |skip| <= U32 && Complete(seen, first)
    ensures ObserveAll(Kept(seen, skip, |seen|)).gaps == 0 <==> !Split(seen, skip, |seen|)
  {
    GapsAfterSkips(seen, skip, first, |seen|);
    NoneAfterSkip(seen, skip, |seen|);
  }

  /** The documented remedy for reported gaps, `--no-bb`, makes a complete stream report gaps itself,
      exactly when a block entry of a thread stands between two of its writes; without the flag the
      same stream never reports one. Snapshots and compound writes may be in the stream, and it may
      be drained in any batches of whole runs. */
  lemma {:induction false} NoBbGapsExactly(
    batches: seq<seq<Event>>, parts: seq<seq<seq<Event>>>, seen: seq<Sighting>, first: Key -> nat)
    requires BatchesMadeOf(batches, parts) && HeadersAgree(Flatten(parts), seen)
    requires Complete(seen, first) && |seen| <= U32
    requires forall b: seq<Event>, k :: b in batches && 0 <= k < |b| ==> b[k].Seq32() < U32
    ensures TrackBatches(NOTHING_SEEN, batches, true).gaps == 0
            <==> !Split(seen, SkippedRuns(Flatten(parts), true), |seen|)
    ensures TrackBatches(NOTHING_SEEN, batches, false).gaps == 0
  {
    DrainObserves(batches, parts, seen, true);
    SkippingSplits(seen, SkippedRuns(Flatten(parts), true), first);
    DrainObserves(batches, parts, seen, false);
    SkippingSplits(seen, SkippedRuns(Flatten(parts), false), first);
  }
}
