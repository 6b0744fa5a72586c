/** The type belief of one heap object (`engine/src/heap_graph.rs`): full scoring against the known
    struct layouts, then one cheap confirmation or contradiction per write. */
module TypeConfidence {
  import opened OrderedMap
  import opened Words

  const CONFIRM_DELTA: real := 0.02
  const CONTRADICT_PENALTY: real := 0.08
  const RESCORE_THRESHOLD: real := 0.3
  const RESCORE_COOLDOWN: nat := 1024
  const NAMED: real := 0.5
  const TOP: nat := 3

  datatype HeapField = HeapField(size: nat, lastValue: nat, isPointer: bool, writeCount: nat, lastSeq: nat)

  datatype LayoutField = LayoutField(offset: nat, size: nat, isPointer: bool)
  {
    predicate Agrees(seenSize: nat, seenPointer: bool) { seenSize == size || (isPointer && seenPointer) }
  }

  datatype Candidate = Candidate(name: string, byteSize: nat, fields: seq<LayoutField>)
  {
    /** Does a write of this shape at this offset fit some field of the layout? */
    predicate Expects(offset: nat, size: nat, isPointer: bool) {
      exists k :: 0 <= k < |fields| && fields[k].offset == offset && fields[k].Agrees(size, isPointer)
    }
  }

  /** `candidate` is the 16-bit index the engine stores, not the true index. */
  datatype ScoreEntry = ScoreEntry(candidate: nat, score: real)

  /** What is believed of one object. `top` holds the filled entries of the score cache. */
  datatype Belief = Belief(
    inferred: Option<string>, confidence: real, top: seq<ScoreEntry>, lastRescore: nat, sinceRescore: nat)

  const NO_BELIEF: Belief := Belief(None, 0.0, [], 0, 0)

  // ----- scoring one candidate -----

  function Matches(c: Candidate, seen: map<nat, HeapField>, n: nat): (r: nat)
    requires n <= |c.fields|
    ensures r <= n
  {
    if n == 0 then 0
    else
      var f := c.fields[n - 1];
      Matches(c, seen, n - 1) + if Matched(f, seen) then 1 else 0
  }

  predicate Matched(f: LayoutField, seen: map<nat, HeapField>) {
    f.offset in seen && f.Agrees(seen[f.offset].size, seen[f.offset].isPointer)
  }

  /** The match count is full exactly when every layout field was seen as it should be, and zero
      exactly when none was. */
  lemma {:induction false} MatchesExtremes(c: Candidate, seen: map<nat, HeapField>, n: nat)
    requires n <= |c.fields|
    ensures Matches(c, seen, n) == n <==> forall k :: 0 <= k < n ==> Matched(c.fields[k], seen)
    ensures Matches(c, seen, n) == 0 <==> forall k :: 0 <= k < n ==> !Matched(c.fields[k], seen)
  {
    if n > 0 { MatchesExtremes(c, seen, n - 1); }
  }

  function Min(a: real, b: real): real { if a <= b then a else b }

  function Max(a: real, b: real): real { if a >= b then a else b }

  function Score(c: Candidate, seen: map<nat, HeapField>, size: nat): real
    requires c.fields != []
  {
    Min(Matches(c, seen, |c.fields|) as real / |c.fields| as real + if size == c.byteSize then 0.1 else 0.0, 1.0)
  }

  /** The layout fields that were seen as they should be: at their offset, with their size, or as a
      pointer where one is expected. */
  function SeenFields(c: Candidate, seen: map<nat, HeapField>, n: nat): set<nat>
    requires n <= |c.fields|
  {
    set k: nat | k < n && c.fields[k].offset in seen
                 && (seen[c.fields[k].offset].size == c.fields[k].size
                     || (c.fields[k].isPointer && seen[c.fields[k].offset].isPointer))
  }

  lemma {:induction false} MatchesCount(c: Candidate, seen: map<nat, HeapField>, n: nat)
    requires n <= |c.fields|
    ensures Matches(c, seen, n) == |SeenFields(c, seen, n)|
  {
    if n == 0 {
      assert SeenFields(c, seen, 0) == {};
    } else {
      MatchesCount(c, seen, n - 1);
      if Matched(c.fields[n - 1], seen) {
        assert SeenFields(c, seen, n) == SeenFields(c, seen, n - 1) + {n - 1};
      } else {
        assert SeenFields(c, seen, n) == SeenFields(c, seen, n - 1);
      }
    }
  }

  /** A score is the fraction of the layout's fields seen as they should be, one tenth more if the
      object has the layout's size, and never above 1; a layout is listed exactly when it has fields
      and one of them was seen or the size is right. */
  lemma ScoreMeaning(c: Candidate, seen: map<nat, HeapField>, size: nat)
    requires c.fields != []
    ensures var fraction := |SeenFields(c, seen, |c.fields|)| as real / |c.fields| as real;
            && 0.0 <= fraction <= 1.0
            && (size != c.byteSize ==> Score(c, seen, size) == fraction)
            && (size == c.byteSize ==> Score(c, seen, size) == if fraction <= 0.9 then fraction + 0.1 else 1.0)
    ensures Listed(c, seen, size) <==> SeenFields(c, seen, |c.fields|) != {} || size == c.byteSize
  {
    MatchesCount(c, seen, |c.fields|);
    var m, n := |SeenFields(c, seen, |c.fields|)|, |c.fields|;
    Fraction(m, n);
    assert SeenFields(c, seen, n) != {} <==> m > 0;
  }

  lemma Fraction(m: nat, n: nat)
    requires m <= n && n > 0
    ensures 0.0 <= m as real / n as real <= 1.0 && (m as real / n as real > 0.0 <==> m > 0)
  {
  }

  /** Layouts without fields and layouts that score nothing are not listed. */
  predicate Listed(c: Candidate, seen: map<nat, HeapField>, size: nat) {
    c.fields != [] && Score(c, seen, size) > 0.0
  }

  function Scores(cands: seq<Candidate>, seen: map<nat, HeapField>, size: nat, n: nat): (r: seq<ScoreEntry>)
    requires n <= |cands|
    ensures |r| <= n
    ensures forall k :: 0 <= k < |r| ==> r[k].candidate < |cands| && 0.0 < r[k].score <= 1.0
  {
    if n == 0 then []
    else
      var before, c := Scores(cands, seen, size, n - 1), cands[n - 1];
      if Listed(c, seen, size) then before + [ScoreEntry((n - 1) % U16, Score(c, seen, size))] else before
  }

  // ----- the stable descending sort -----

  /** Insert behind every entry that scores at least as much. */
  function Insert(s: seq<ScoreEntry>, e: ScoreEntry): (r: seq<ScoreEntry>)
    ensures |r| == |s| + 1 && forall x :: x in r ==> x in s || x == e
  {
    if s == [] || s[|s| - 1].score >= e.score then s + [e]
    else Insert(s[..|s| - 1], e) + [s[|s| - 1]]
  }

  function Sorted(s: seq<ScoreEntry>, n: nat): (r: seq<ScoreEntry>)
    requires n <= |s|
    ensures |r| == n && forall x :: x in r ==> x in s
  {
    if n == 0 then [] else Insert(Sorted(s, n - 1), s[n - 1])
  }

  lemma {:induction false} InsertPermutes(s: seq<ScoreEntry>, e: ScoreEntry)
    ensures multiset(Insert(s, e)) == multiset(s) + multiset{e}
  {
    if s != [] && s[|s| - 1].score < e.score {
      InsertPermutes(s[..|s| - 1], e);
      assert s == s[..|s| - 1] + [s[|s| - 1]];
    }
  }

  lemma TakeOneMore(s: seq<ScoreEntry>, n: nat)
    requires 0 < n <= |s|
    ensures multiset(s[..n]) == multiset(s[..n - 1]) + multiset{s[n - 1]}
  {
    assert s[..n] == s[..n - 1] + [s[n - 1]];
  }

  /** Sorting neither loses nor invents an entry. */
  lemma {:induction false} SortedPermutes(s: seq<ScoreEntry>, n: nat)
    requires n <= |s|
    ensures multiset(Sorted(s, n)) == multiset(s[..n])
  {
    if n == 0 {
      assert s[..0] == [];
    } else {
      SortedPermutes(s, n - 1);
      InsertPermutes(Sorted(s, n - 1), s[n - 1]);
      TakeOneMore(s, n);
    }
  }

  predicate Descending(s: seq<ScoreEntry>) {
    forall i, j :: 0 <= i < j < |s| ==> s[i].score >= s[j].score
  }

  lemma {:induction false} InsertDescending(s: seq<ScoreEntry>, e: ScoreEntry)
    requires Descending(s)
    ensures Descending(Insert(s, e))
    ensures Insert(s, e)[0] == if s == [] || s[0].score < e.score then e else s[0]
  {
    if s != [] && s[|s| - 1].score < e.score {
      var init, last := s[..|s| - 1], s[|s| - 1];
      InsertDescending(init, e);
      var r := Insert(init, e);
      forall i | 0 <= i < |r| ensures r[i].score >= last.score {
        assert r[i] in r;
      }
    }
  }

  lemma {:induction false} SortedDescending(s: seq<ScoreEntry>, n: nat)
    requires n <= |s|
    ensures Descending(Sorted(s, n))
  {
    if n > 0 {
      SortedDescending(s, n - 1);
      InsertDescending(Sorted(s, n - 1), s[n - 1]);
    }
  }

  /** Position k holds the highest score of the first n entries, and none before it reaches it. */
  predicate FirstBest(s: seq<ScoreEntry>, n: nat, k: nat)
    requires k < n <= |s|
  {
    (forall j :: 0 <= j < n ==> s[j].score <= s[k].score) && forall j :: 0 <= j < k ==> s[j].score < s[k].score
  }

  /** The sort keeps ties in their order: the first of the best entries comes out on top. */
  lemma {:induction false} SortedHead(s: seq<ScoreEntry>, n: nat) returns (k: nat)
    requires 0 < n <= |s|
    ensures k < n && Sorted(s, n)[0] == s[k] && FirstBest(s, n, k)
  {
    SortedDescending(s, n - 1);
    InsertDescending(Sorted(s, n - 1), s[n - 1]);
    if n == 1 {
      k := 0;
    } else {
      var before := SortedHead(s, n - 1);
      k := if s[before].score < s[n - 1].score then n - 1 else before;
    }
  }

  // ----- the whole rescore -----

  function Ranking(cands: seq<Candidate>, seen: map<nat, HeapField>, size: nat): (r: seq<ScoreEntry>)
    ensures |r| <= TOP
    ensures forall k :: 0 <= k < |r| ==> r[k].candidate < |cands| && 0.0 < r[k].score <= 1.0
  {
    var scores := Scores(cands, seen, size, |cands|);
    var all := Sorted(scores, |scores|);
    assert forall k :: 0 <= k < |all| ==> all[k] in all;
    if |all| > TOP then all[..TOP] else all
  }

  /** `score_object`: a weak best score leaves the name and the confidence as they were. */
  function Rescore(b: Belief, cands: seq<Candidate>, seen: map<nat, HeapField>, size: nat): Belief {
    var top := Ranking(cands, seen, size);
    if top != [] && top[0].score >= NAMED
    then Belief(Some(cands[top[0].candidate].name), top[0].score, top, 0, 0)
    else Belief(b.inferred, b.confidence, top, 0, 0)
  }

  predicate Beats(cands: seq<Candidate>, seen: map<nat, HeapField>, size: nat, best: nat, other: nat)
    requires best < |cands| && other < |cands| && cands[best].fields != []
  {
    cands[other].fields == []
    || Score(cands[other], seen, size) < Score(cands[best], seen, size)
    || (Score(cands[other], seen, size) == Score(cands[best], seen, size) && best <= other)
  }

  /** `best` is the first of the highest scoring layouts, and it scores something. */
  predicate Best(cands: seq<Candidate>, seen: map<nat, HeapField>, size: nat, best: nat) {
    && best < |cands| && Listed(cands[best], seen, size)
    && forall other: nat | other < |cands| :: Beats(cands, seen, size, best, other)
  }

  /** Where an entry of the score list comes from. */
  lemma {:induction false} ScoresOrigin(
    cands: seq<Candidate>, seen: map<nat, HeapField>, size: nat, n: nat, k: nat) returns (at: nat)
    requires n <= |cands| && k < |Scores(cands, seen, size, n)|
    ensures at < n && Listed(cands[at], seen, size)
    ensures Scores(cands, seen, size, n)[k] == ScoreEntry(at % U16, Score(cands[at], seen, size))
    ensures k == |Scores(cands, seen, size, at)|
  {
    if k < |Scores(cands, seen, size, n - 1)| {
      at := ScoresOrigin(cands, seen, size, n - 1, k);
    } else {
      at := n - 1;
    }
  }

  /** Where a listed layout ends up in the score list. */
  lemma {:induction false} ScoresPlace(cands: seq<Candidate>, seen: map<nat, HeapField>, size: nat, n: nat, at: nat)
    requires at < n <= |cands| && Listed(cands[at], seen, size)
    ensures var s, k := Scores(cands, seen, size, n), |Scores(cands, seen, size, at)|;
            k < |s| && s[k] == ScoreEntry(at % U16, Score(cands[at], seen, size))
  {
    if at < n - 1 { ScoresPlace(cands, seen, size, n - 1, at); }
  }

  lemma BestOfScores(cands: seq<Candidate>, seen: map<nat, HeapField>, size: nat, k: nat) returns (best: nat)
    requires k < |Scores(cands, seen, size, |cands|)|
    requires FirstBest(Scores(cands, seen, size, |cands|), |Scores(cands, seen, size, |cands|)|, k)
    ensures Best(cands, seen, size, best)
    ensures Scores(cands, seen, size, |cands|)[k] == ScoreEntry(best % U16, Score(cands[best], seen, size))
  {
    best := ScoresOrigin(cands, seen, size, |cands|, k);
    forall other: nat | other < |cands| ensures Beats(cands, seen, size, best, other) {
      if Listed(cands[other], seen, size) {
        ScoresPlace(cands, seen, size, |cands|, other);
        if other < best {
          ScoresPlace(cands, seen, size, best, other);
        }
      }
    }
  }

  lemma NothingScored(cands: seq<Candidate>, seen: map<nat, HeapField>, size: nat, at: nat)
    requires at < |cands| && Scores(cands, seen, size, |cands|) == []
    ensures !Listed(cands[at], seen, size)
  {
    if Listed(cands[at], seen, size) { ScoresPlace(cands, seen, size, |cands|, at); }
  }

  lemma RankingIsSortedPrefix(cands: seq<Candidate>, seen: map<nat, HeapField>, size: nat)
    ensures var top, s := Ranking(cands, seen, size), Scores(cands, seen, size, |cands|);
            && Descending(top) && |top| == (if |s| > TOP then TOP else |s|)
            && (s != [] ==> top[0] == Sorted(s, |s|)[0])
  {
    var s := Scores(cands, seen, size, |cands|);
    SortedDescending(s, |s|);
  }

  /** What a ranking must put on top: the highest score over all layouts, the first of them on a
      tie, under its index modulo 2^16; nothing exactly when no layout scores. */
  predicate TopIsBest(top: seq<ScoreEntry>, cands: seq<Candidate>, seen: map<nat, HeapField>, size: nat, best: nat) {
    if top == [] then forall at: nat :: at < |cands| ==> !Listed(cands[at], seen, size)
    else
      && Best(cands, seen, size, best)
      && top[0] == ScoreEntry(best % U16, Score(cands[best], seen, size))
  }

  lemma RankingTakesBest(cands: seq<Candidate>, seen: map<nat, HeapField>, size: nat) returns (best: nat)
    ensures TopIsBest(Ranking(cands, seen, size), cands, seen, size, best)
  {
    RankingIsSortedPrefix(cands, seen, size);
    var s := Scores(cands, seen, size, |cands|);
    if s == [] {
      best := 0;
      forall at: nat | at < |cands| ensures !Listed(cands[at], seen, size) {
        NothingScored(cands, seen, size, at);
      }
    } else {
      var k := SortedHead(s, |s|);
      best := BestOfScores(cands, seen, size, k);
    }
  }

  predicate Convincing(top: seq<ScoreEntry>) { top != [] && top[0].score >= 0.5 }

  /** After a full rescore the best layout is on top, the others in descending order, and the top
      entry names the best layout exactly when its true index fits 16 bits. The object takes over the
      name and the score of the top entry if that is at least one half. */
  lemma {:induction false} RescoreTakesBest(b: Belief, cands: seq<Candidate>, seen: map<nat, HeapField>, size: nat)
    returns (best: nat)
    ensures var top := Ranking(cands, seen, size);
            && Rescore(b, cands, seen, size) == Belief(if Convincing(top) then Some(cands[top[0].candidate].name) else b.inferred,
                                                       if Convincing(top) then top[0].score else b.confidence, top, 0, 0)
            && Descending(top) && TopIsBest(top, cands, seen, size, best)
            && (top != [] ==> (top[0].candidate == best <==> best < 65536))
  {
    best := RankingTakesBest(cands, seen, size);
    RankingIsSortedPrefix(cands, seen, size);
    FitsField(best);
  }

  /** The cache holds the three best entries: at most three, all of them unless there are more, and no
      entry left out beats one that is in. */
  lemma {:induction false} CacheHoldsThree(cands: seq<Candidate>, seen: map<nat, HeapField>, size: nat)
    ensures var top, all := Ranking(cands, seen, size), multiset(Scores(cands, seen, size, |cands|));
            && |top| <= 3 && multiset(top) <= all && (|top| < 3 ==> multiset(top) == all)
            && forall e :: e in all - multiset(top) ==> |top| == 3 && e.score <= top[2].score
  {
    var scores := Scores(cands, seen, size, |cands|);
    var all, top := Sorted(scores, |scores|), Ranking(cands, seen, size);
    SortedPermutes(scores, |scores|);
    SortedDescending(scores, |scores|);
    assert scores[..|scores|] == scores;
    if |all| > 3 {
      assert all == all[..3] + all[3..];
      forall e | e in multiset(all) - multiset(all[..3]) ensures e.score <= all[2].score {
        assert e in multiset(all[3..]);
        var k :| 0 <= k < |all[3..]| && all[3..][k] == e;
        assert all[k + 3] == e;
      }
    }
  }

  lemma FitsField(n: nat)
    ensures n % U16 == n <==> n < U16
  {
  }

  // ----- one write -----

  datatype Outcome = Outcome(belief: Belief, rescored: bool, contradicted: bool)

  function TopIndex(b: Belief): nat { if b.top == [] then 0 else b.top[0].candidate }

  /** The name follows the confidence; a name already there is replaced only if the top moved. */
  function Propagate(b: Belief, cands: seq<Candidate>, was: nat): Belief {
    if b.confidence < NAMED then b.(inferred := None)
    else if (b.inferred.None? || TopIndex(b) != was) && TopIndex(b) < |cands|
    then b.(inferred := Some(cands[TopIndex(b)].name))
    else b
  }

  function WithConfidence(b: Belief, confidence: real): Belief
    requires b.top != []
  {
    b.(confidence := confidence, top := b.top[0 := b.top[0].(score := confidence)])
  }

  /** `update_confidence`, for a write of `size` bytes at `offset`; `seen` already contains it. */
  function Update(b: Belief, cands: seq<Candidate>, seen: map<nat, HeapField>, objectSize: nat,
                  offset: nat, size: nat, isPointer: bool, at: nat): Outcome
  {
    var b1 := b.(sinceRescore := b.sinceRescore + 1);
    if b.top == [] then
      if |seen| >= 2 then Outcome(Rescore(b1, cands, seen, objectSize).(lastRescore := at), true, false)
      else Outcome(b1, false, false)
    else if b.top[0].candidate >= |cands| then Outcome(b1, false, false)
    else
      var was := b.top[0].candidate;
      if cands[was].Expects(offset, size, isPointer) then
        var raised := Min(b.confidence + CONFIRM_DELTA * (1.0 - b.confidence), 1.0);
        Outcome(Propagate(WithConfidence(b1, raised), cands, was), false, false)
      else
        var b2 := WithConfidence(b1, Max(b.confidence - CONTRADICT_PENALTY, 0.0));
        if b2.confidence < RESCORE_THRESHOLD && b2.sinceRescore >= RESCORE_COOLDOWN then
          Outcome(Propagate(Rescore(b2, cands, seen, objectSize).(lastRescore := at), cands, was), true, true)
        else Outcome(Propagate(b2, cands, was), false, true)
  }

  // ----- what every write keeps -----

  /** Confidence is a fraction; an object is named exactly when it reaches one half, and the name
      is that of the entry on top. */
  predicate Sound(b: Belief, cands: seq<Candidate>) {
    && 0.0 <= b.confidence <= 1.0 && |b.top| <= 3
    && (forall k :: 0 <= k < |b.top| ==> b.top[k].candidate < |cands|)
    && (b.inferred.Some? <==> b.confidence >= 0.5)
    && (b.inferred.Some? ==> b.top != [] && b.inferred.value == cands[b.top[0].candidate].name)
  }

  lemma RescoreSound(b: Belief, cands: seq<Candidate>, seen: map<nat, HeapField>, size: nat)
    requires Sound(b, cands) && b.inferred.None?
    ensures Sound(Rescore(b, cands, seen, size), cands)
  {
  }

  lemma PropagateSound(b: Belief, cands: seq<Candidate>, was: nat)
    requires 0.0 <= b.confidence <= 1.0 && |b.top| <= TOP && was < |cands|
    requires forall k :: 0 <= k < |b.top| ==> b.top[k].candidate < |cands|
    requires b.top != [] || b.confidence < NAMED
    requires b.inferred.Some? && TopIndex(b) == was ==> b.inferred.value == cands[was].name
    ensures Sound(Propagate(b, cands, was), cands)
  {
  }

  lemma UpdateSound(b: Belief, cands: seq<Candidate>, seen: map<nat, HeapField>, objectSize: nat,
                    offset: nat, size: nat, isPointer: bool, at: nat)
    requires Sound(b, cands)
    ensures Sound(Update(b, cands, seen, objectSize, offset, size, isPointer, at).belief, cands)
  {
    var b1 := b.(sinceRescore := b.sinceRescore + 1);
    if b.top == [] {
      RescoreSound(b1, cands, seen, objectSize);
    } else {
      var was := b.top[0].candidate;
      var raised := Min(b.confidence + CONFIRM_DELTA * (1.0 - b.confidence), 1.0);
      PropagateSound(WithConfidence(b1, raised), cands, was);
      var b2 := WithConfidence(b1, Max(b.confidence - CONTRADICT_PENALTY, 0.0));
      PropagateSound(b2, cands, was);
      if b2.confidence < RESCORE_THRESHOLD {
        RescoreSound(b2.(inferred := None), cands, seen, objectSize);
        PropagateSound(Rescore(b2, cands, seen, objectSize).(lastRescore := at), cands, was);
      }
    }
  }

  /** One write confirms, contradicts or scores afresh. It never turns one name into another: a
      named object is too confident to be rescored, so its name is kept or dropped. A rescore needs
      an empty cache, or a confidence fallen below 0.3 at least 1024 writes after the last one. */
  lemma UpdateMoves(b: Belief, cands: seq<Candidate>, seen: map<nat, HeapField>, objectSize: nat,
                    offset: nat, size: nat, isPointer: bool, at: nat)
    requires Sound(b, cands)
    ensures var o := Update(b, cands, seen, objectSize, offset, size, isPointer, at);
            && (b.inferred.Some? && o.belief.inferred.Some? ==> o.belief.inferred == b.inferred)
            && (b.inferred.Some? ==> !o.rescored)
            && (o.rescored ==> b.top == [] || (b.sinceRescore + 1 >= 1024 && b.confidence < 0.38))
            && (o.belief.sinceRescore == if o.rescored then 0 else b.sinceRescore + 1)
            && (!o.contradicted && !o.rescored ==> o.belief.confidence >= b.confidence)
            && (o.contradicted && !o.rescored ==>
                  o.belief.confidence == if b.confidence >= 0.08 then b.confidence - 0.08 else 0.0)
  {
  }

  /** The write fits the layout on top: some field of it at that offset has the size, or both are
      pointers. */
  predicate Confirms(b: Belief, cands: seq<Candidate>, offset: nat, size: nat, isPointer: bool) {
    && b.top != [] && b.top[0].candidate < |cands|
    && exists k: nat :: k < |cands[b.top[0].candidate].fields| && FitsAt(cands[b.top[0].candidate].fields[k], offset, size, isPointer)
  }

  predicate FitsAt(f: LayoutField, offset: nat, size: nat, isPointer: bool) {
    f.offset == offset && (size == f.size || (f.isPointer && isPointer))
  }

  /** What one write does, in numbers. With an empty cache it scores as soon as two fields are known.
      Otherwise a write that fits the layout on top takes the confidence two hundredths of the way to
      1; any other counts as a contradiction and costs eight hundredths, and below 0.3 it scores
      afresh if at least 1024 writes have passed since the last time. */
  lemma {:induction false} UpdateExactly(
    b: Belief, cands: seq<Candidate>, seen: map<nat, HeapField>, objectSize: nat,
    offset: nat, size: nat, isPointer: bool, at: nat)
    requires Sound(b, cands)
    ensures var o := Update(b, cands, seen, objectSize, offset, size, isPointer, at);
            var known, fits := b.top != [], Confirms(b, cands, offset, size, isPointer);
            var lower := if b.confidence >= 0.08 then b.confidence - 0.08 else 0.0;
            && (o.contradicted <==> known && !fits)
            && (o.rescored <==> if known then !fits && lower < 0.3 && b.sinceRescore + 1 >= 1024 else |seen| >= 2)
            && (o.rescored ==> o.belief.lastRescore == at && o.belief.sinceRescore == 0
                               && o.belief.top == Ranking(cands, seen, objectSize))
            && (!o.rescored ==> o.belief.lastRescore == b.lastRescore && o.belief.sinceRescore == b.sinceRescore + 1)
            && (!o.rescored && known ==>
                  && o.belief.confidence == (if fits then b.confidence + 0.02 * (1.0 - b.confidence) else lower)
                  && o.belief.top == b.top[0 := ScoreEntry(b.top[0].candidate, o.belief.confidence)])
            && (!o.rescored && !known ==> o.belief.confidence == b.confidence && o.belief.top == [])
            && (o.rescored ==>
                  o.belief.confidence == (if o.belief.top != [] && o.belief.top[0].score >= 0.5 then o.belief.top[0].score
                                          else if known then lower else b.confidence))
  {
    if b.top != [] {
      var c := cands[b.top[0].candidate];
      assert c.Expects(offset, size, isPointer) <==> Confirms(b, cands, offset, size, isPointer) by {
        if c.Expects(offset, size, isPointer) {
          var k :| 0 <= k < |c.fields| && c.fields[k].offset == offset && c.fields[k].Agrees(size, isPointer);
          assert FitsAt(c.fields[k], offset, size, isPointer);
        }
        if Confirms(b, cands, offset, size, isPointer) {
          var k: nat :| k < |c.fields| && FitsAt(c.fields[k], offset, size, isPointer);
          assert c.fields[k].offset == offset && c.fields[k].Agrees(size, isPointer);
        }
      }
    }
  }

  // ----- whole histories of one object -----

  /** A write to the object, with the fields known once it is recorded. */
  datatype Observation = Observation(
    seen: map<nat, HeapField>, objectSize: nat, offset: nat, size: nat, isPointer: bool, at: nat)

  function Next(b: Belief, cands: seq<Candidate>, w: Observation): Outcome {
    Update(b, cands, w.seen, w.objectSize, w.offset, w.size, w.isPointer, w.at)
  }

  /** The belief after the first n writes. */
  function After(b: Belief, cands: seq<Candidate>, ws: seq<Observation>, n: nat): Belief
    requires n <= |ws|
  {
    if n == 0 then b else Next(After(b, cands, ws, n - 1), cands, ws[n - 1]).belief
  }

  lemma {:induction false} AfterSound(b: Belief, cands: seq<Candidate>, ws: seq<Observation>, n: nat)
    requires Sound(b, cands) && n <= |ws|
    ensures Sound(After(b, cands, ws, n), cands)
  {
    if n > 0 {
      AfterSound(b, cands, ws, n - 1);
      var w, c := ws[n - 1], After(b, cands, ws, n - 1);
      UpdateSound(c, cands, w.seen, w.objectSize, w.offset, w.size, w.isPointer, w.at);
    }
  }

  /** Between two different names an object is unnamed at some point in between. */
  lemma {:induction false} NamesAreSeparated(b: Belief, cands: seq<Candidate>, ws: seq<Observation>, n: nat)
    requires Sound(b, cands) && n <= |ws|
    requires forall i: nat :: i <= n ==> After(b, cands, ws, i).inferred.Some?
    ensures After(b, cands, ws, n).inferred == b.inferred
  {
    if n > 0 {
      NamesAreSeparated(b, cands, ws, n - 1);
      AfterSound(b, cands, ws, n - 1);
      var w, c := ws[n - 1], After(b, cands, ws, n - 1);
      UpdateMoves(c, cands, w.seen, w.objectSize, w.offset, w.size, w.isPointer, w.at);
    }
  }

  /** A name survives at most six contradicting writes in a row. */
  lemma {:induction false} NameOutlivesSixContradictions(
    b: Belief, cands: seq<Candidate>, ws: seq<Observation>, n: nat)
    requires Sound(b, cands) && n <= |ws|
    requires forall i: nat :: i <= n ==> After(b, cands, ws, i).inferred.Some?
    requires forall i: nat :: i < n ==> Next(After(b, cands, ws, i), cands, ws[i]).contradicted
    ensures After(b, cands, ws, n).confidence <= b.confidence - CONTRADICT_PENALTY * n as real
    ensures n <= 6
  {
    AfterSound(b, cands, ws, n);
    if n > 0 {
      NameOutlivesSixContradictions(b, cands, ws, n - 1);
      AfterSound(b, cands, ws, n - 1);
      var w, c := ws[n - 1], After(b, cands, ws, n - 1);
      UpdateMoves(c, cands, w.seen, w.objectSize, w.offset, w.size, w.isPointer, w.at);
    }
  }

  // ----- the loops -----

  method CountMatches(c: Candidate, seen: map<nat, HeapField>) returns (matches: nat)
    ensures matches == Matches(c, seen, |c.fields|)
  {
    matches := 0;
    for k := 0 to |c.fields|
      invariant matches == Matches(c, seen, k)
    {
      var f := c.fields[k];
      if f.offset in seen && f.Agrees(seen[f.offset].size, seen[f.offset].isPointer) {
        matches := matches + 1;
      }
    }
  }

  method ScoreAll(cands: seq<Candidate>, seen: map<nat, HeapField>, size: nat) returns (buf: seq<ScoreEntry>)
    ensures buf == Scores(cands, seen, size, |cands|)
  {
    buf := [];
    for ci := 0 to |cands|
      invariant buf == Scores(cands, seen, size, ci)
    {
      var c := cands[ci];
      if c.fields != [] {
        var matches := CountMatches(c, seen);
        var bonus := if size == c.byteSize then 0.1 else 0.0;
        var score := Min(matches as real / |c.fields| as real + bonus, 1.0);
        if score > 0.0 { buf := buf + [ScoreEntry(ci % U16, score)]; }
      }
    }
  }

  /** Scoring by loops over the layouts and their fields. */
  method ScoreObject(b: Belief, cands: seq<Candidate>, seen: map<nat, HeapField>, size: nat) returns (r: Belief)
    ensures r == Rescore(b, cands, seen, size)
  {
    var buf := ScoreAll(cands, seen, size);
    var all := Sorted(buf, |buf|);
    var top: seq<ScoreEntry> := [];
    var i := 0;
    while i < |all| && i < TOP
      invariant i <= |all| && i <= TOP && top == all[..i]
    {
      top := top + [all[i]];
      i := i + 1;
    }
    assert top == Ranking(cands, seen, size);
    r := b.(top := top, lastRescore := 0, sinceRescore := 0);
    if top != [] && top[0].score >= NAMED {
      r := r.(inferred := Some(cands[top[0].candidate].name), confidence := top[0].score);
    }
  }

  /** One write, as the engine updates the object it found. */
  method UpdateConfidence(b: Belief, cands: seq<Candidate>, seen: map<nat, HeapField>, objectSize: nat,
                          offset: nat, size: nat, isPointer: bool, at: nat)
    returns (belief: Belief, rescored: bool, contradicted: bool)
    ensures Outcome(belief, rescored, contradicted) == Update(b, cands, seen, objectSize, offset, size, isPointer, at)
  {
    belief, rescored, contradicted := b.(sinceRescore := b.sinceRescore + 1), false, false;
    if b.top == [] {
      if |seen| >= 2 {
        belief := ScoreObject(belief, cands, seen, objectSize);
        belief, rescored := belief.(lastRescore := at), true;
      }
      return;
    }
    var was := b.top[0].candidate;
    if was >= |cands| { return; }
    if cands[was].Expects(offset, size, isPointer) {
      var delta := CONFIRM_DELTA * (1.0 - b.confidence);
      belief := WithConfidence(belief, Min(b.confidence + delta, 1.0));
    } else {
      contradicted := true;
      belief := WithConfidence(belief, Max(b.confidence - CONTRADICT_PENALTY, 0.0));
      if belief.confidence < RESCORE_THRESHOLD && belief.sinceRescore >= RESCORE_COOLDOWN {
        belief := ScoreObject(belief, cands, seen, objectSize);
        belief, rescored := belief.(lastRescore := at), true;
      }
    }
    belief := Propagate(belief, cands, was);
  }
}
