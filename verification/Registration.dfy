/** Thread-slot registration in the control segment (`rtmap_ctl_register_thread`,
    `rtmap_ctl_mark_dead`) with any number of threads interleaved one atomic step at a time.
    `granted` and `owner` are history: fresh indices handed out so far, and the thread that
    claimed each slot and has not yet marked it dead. */
module Registration {

  const NAME_LEN: nat := 48

  datatype SlotState = Empty | Active | Dead | Initializing

  datatype Entry = Entry(state: SlotState, threadId: nat, name: seq<char>)

  /** Where a thread stands: scanning for a dead slot, filling claimed slot `i` (`done` of its
      1 + 48 stores made), backing out of a full table, or settled. */
  datatype Phase =
    | Scanning(i: nat)
    | Filling(slot: nat, done: nat)
    | BackingOut
    | Owning(slot: nat)
    | Refused
    | Exited

  datatype Thread = Thread(phase: Phase, id: nat, name: seq<char>)

  datatype Table = Table(
    max: nat, entries: seq<Entry>, count: nat, threads: map<nat, Thread>,
    granted: nat, owner: map<nat, nat>)

  datatype Step =
    | Spawn(p: nat, id: nat, name: seq<char>)
    | TryClaim(p: nat)
    | FetchAdd(p: nat)
    | FetchSub(p: nat)
    | Store(p: nat)
    | Publish(p: nat)
    | MarkDead(p: nat)

  function Init(max: nat): Table {
    Table(max, seq(max, _ => Entry(Empty, 0, seq(NAME_LEN, _ => '\0'))), 0, map[], 0, map[])
  }

  /** Character k of the stored name: `strncpy` of 47 bytes pads with NULs, byte 47 is NUL. */
  function Padded(name: seq<char>, k: nat): char {
    if k < NAME_LEN - 1 && k < |name| then name[k] else '\0'
  }

  /** The first `done` of the stores that fill an entry are visible: the id, then the name. */
  predicate Filled(e: Entry, t: Thread, done: nat) {
    && |e.name| == NAME_LEN
    && (done > 0 ==> e.threadId == t.id)
    && forall k :: 0 <= k < NAME_LEN && k + 1 < done ==> e.name[k] == Padded(t.name, k)
  }

  /** The entry names its thread completely. */
  predicate Complete(e: Entry, t: Thread) { Filled(e, t, NAME_LEN + 1) }

  predicate Enabled(s: Table, step: Step) {
    match step
    case Spawn(p, _, name) => p !in s.threads
    case TryClaim(p) => p in s.threads && s.threads[p].phase.Scanning? && s.threads[p].phase.i < |s.entries|
    case FetchAdd(p) => p in s.threads && s.threads[p].phase == Scanning(|s.entries|)
    case FetchSub(p) => p in s.threads && s.threads[p].phase.BackingOut? && s.count > 0
    case Store(p) =>
      && p in s.threads && s.threads[p].phase.Filling?
      && s.threads[p].phase.slot < |s.entries| && s.threads[p].phase.done <= NAME_LEN
      && |s.entries[s.threads[p].phase.slot].name| == NAME_LEN
    case Publish(p) =>
      && p in s.threads && s.threads[p].phase.Filling?
      && s.threads[p].phase.slot < |s.entries| && s.threads[p].phase.done == NAME_LEN + 1
    case MarkDead(p) => p in s.threads && s.threads[p].phase.Owning? && s.threads[p].phase.slot < |s.entries|
  }

  function At(s: Table, p: nat, phase: Phase): Table
    requires p in s.threads
  {
    s.(threads := s.threads[p := s.threads[p].(phase := phase)])
  }

  function Next(s: Table, step: Step): Table
    requires Enabled(s, step)
  {
    match step
    case Spawn(p, id, name) => s.(threads := s.threads[p := Thread(Scanning(0), id, name)])
    case TryClaim(p) =>
      // compare-and-swap DEAD -> INITIALIZING
      var i := s.threads[p].phase.i;
      if s.entries[i].state.Dead? then
        At(s, p, Filling(i, 0)).(entries := s.entries[i := s.entries[i].(state := Initializing)],
                                 owner := s.owner[i := p])
      else At(s, p, Scanning(i + 1))
    case FetchAdd(p) =>
      var s' := s.(count := s.count + 1);
      if s.count >= s.max then At(s', p, BackingOut)
      else At(s', p, Filling(s.count, 0)).(granted := s.granted + 1, owner := s.owner[s.count := p])
    case FetchSub(p) => At(s, p, Refused).(count := s.count - 1)
    case Store(p) =>
      var t := s.threads[p];
      var i, k := t.phase.slot, t.phase.done;
      var e := s.entries[i];
      var e' := if k == 0 then e.(threadId := t.id) else e.(name := e.name[k - 1 := Padded(t.name, k - 1)]);
      At(s, p, Filling(i, k + 1)).(entries := s.entries[i := e'])
    case Publish(p) =>
      var i := s.threads[p].phase.slot;
      At(s, p, Owning(i)).(entries := s.entries[i := s.entries[i].(state := Active)])
    case MarkDead(p) =>
      var i := s.threads[p].phase.slot;
      At(s, p, Exited).(entries := s.entries[i := s.entries[i].(state := Dead)], owner := s.owner - {i})
  }

  // ----- invariant -----

  predicate Holds(t: Thread, i: nat) {
    (t.phase.Filling? || t.phase.Owning?) && t.phase.slot == i
  }

  function BackingOutSet(threads: map<nat, Thread>): set<nat> {
    set p | p in threads && threads[p].phase.BackingOut?
  }

  /** Slot i agrees with the history of who owns it. */
  predicate SlotInv(s: Table, i: nat)
    requires i < |s.entries|
  {
    var e := s.entries[i];
    && |e.name| == NAME_LEN
    && (i >= s.granted ==> e.state.Empty? && i !in s.owner)
    && (i < s.granted && i !in s.owner ==> e.state.Dead?)
    && (i in s.owner ==>
          && s.owner[i] in s.threads && Holds(s.threads[s.owner[i]], i)
          && (match s.threads[s.owner[i]].phase
              case Filling(_, done) =>
                (e.state.Empty? || e.state.Initializing?) && Filled(e, s.threads[s.owner[i]], done)
              case _ => e.state.Active? && Complete(e, s.threads[s.owner[i]])))
  }

  predicate ThreadInv(s: Table, p: nat)
    requires p in s.threads
  {
    match s.threads[p].phase
    case Scanning(i) => i <= s.max
    case Filling(i, done) => i < s.max && i in s.owner && s.owner[i] == p && done <= NAME_LEN + 1
    case Owning(i) => i < s.max && i in s.owner && s.owner[i] == p
    case _ => true
  }

  ghost predicate Inv(s: Table) {
    && |s.entries| == s.max
    && s.granted <= s.max
    && s.count == s.granted + |BackingOutSet(s.threads)|
    && (BackingOutSet(s.threads) != {} ==> s.granted == s.max)
    && (forall i :: i in s.owner ==> i < s.granted)
    && (forall i :: 0 <= i < s.max ==> SlotInv(s, i))
    && (forall p :: p in s.threads ==> ThreadInv(s, p))
  }

  function Actor(step: Step): nat {
    match step
    case Spawn(p, _, _) => p
    case TryClaim(p) => p
    case FetchAdd(p) => p
    case FetchSub(p) => p
    case Store(p) => p
    case Publish(p) => p
    case MarkDead(p) => p
  }

  /** Only its own phase decides whether a thread is backing out. */
  lemma BackingOutStep(s: Table, step: Step)
    requires Enabled(s, step)
    ensures var b, b' := BackingOutSet(s.threads), BackingOutSet(Next(s, step).threads);
            if step.FetchAdd? && s.count >= s.max then b' == b + {step.p} && step.p !in b
            else if step.FetchSub? then b' == b - {step.p} && step.p in b
            else b' == b
  {
  }

  lemma CountStep(s: Table, step: Step)
    requires Inv(s) && Enabled(s, step)
    ensures var s' := Next(s, step);
            && |s'.entries| == s'.max == s.max && s.granted <= s'.granted <= s'.max
            && s'.count == s'.granted + |BackingOutSet(s'.threads)|
            && (BackingOutSet(s'.threads) != {} ==> s'.granted == s'.max)
            && (step.FetchAdd? && s.count < s.max ==> s.count == s.granted)
  {
    BackingOutStep(s, step);
    if step.FetchAdd? && s.count < s.max {
      assert BackingOutSet(s.threads) == {};
    }
  }

  /** A slot is as it was if its entry, its owner and its owner's thread are. */
  lemma SlotStays(s: Table, s': Table, i: nat)
    requires i < |s.entries| == |s'.entries| && SlotInv(s, i) && s'.entries[i] == s.entries[i]
    requires i in s.owner <==> i in s'.owner
    requires i in s.owner ==> s'.owner[i] == s.owner[i]
                              && s.owner[i] in s'.threads && s'.threads[s.owner[i]] == s.threads[s.owner[i]]
    requires s.granted <= s'.granted && (i < s'.granted ==> i < s.granted)
    ensures SlotInv(s', i)
  {
  }

  /** The step works on slot i. */
  predicate WorksOn(s: Table, step: Step, i: nat)
    requires Enabled(s, step)
  {
    match step
    case Spawn(_, _, _) => false
    case TryClaim(p) => s.threads[p].phase.i == i && s.entries[i].state.Dead?
    case FetchAdd(_) => s.count == i && i < s.max
    case FetchSub(_) => false
    case Store(p) => s.threads[p].phase.slot == i
    case Publish(p) => s.threads[p].phase.slot == i
    case MarkDead(p) => s.threads[p].phase.slot == i
  }

  lemma OtherSlot(s: Table, step: Step, i: nat)
    requires Inv(s) && Enabled(s, step) && i < s.max && !WorksOn(s, step, i)
    ensures |Next(s, step).entries| == s.max && SlotInv(Next(s, step), i)
  {
    CountStep(s, step);
    assert SlotInv(s, i);
    if Actor(step) in s.threads { assert ThreadInv(s, Actor(step)); }
    SlotStays(s, Next(s, step), i);
  }

  lemma WorkedSlot(s: Table, step: Step, i: nat)
    requires Inv(s) && Enabled(s, step) && i < s.max && WorksOn(s, step, i)
    ensures |Next(s, step).entries| == s.max && SlotInv(Next(s, step), i)
  {
    CountStep(s, step);
    assert SlotInv(s, i);
    assert ThreadInv(s, Actor(step));
  }

  lemma SlotsStep(s: Table, step: Step, i: nat)
    requires Inv(s) && Enabled(s, step) && i < s.max
    ensures |Next(s, step).entries| == s.max && SlotInv(Next(s, step), i)
  {
    if WorksOn(s, step, i) { WorkedSlot(s, step, i); } else { OtherSlot(s, step, i); }
  }

  lemma ThreadsStep(s: Table, step: Step, p: nat)
    requires Inv(s) && Enabled(s, step) && p in Next(s, step).threads
    ensures ThreadInv(Next(s, step), p)
  {
    CountStep(s, step);
    if p in s.threads { assert ThreadInv(s, p); }
    if Actor(step) in s.threads { assert ThreadInv(s, Actor(step)); }
    if step.TryClaim? {
      var i := s.threads[step.p].phase.i;
      assert SlotInv(s, i);
    }
  }

  lemma InvStep(s: Table, step: Step)
    requires Inv(s) && Enabled(s, step)
    ensures Inv(Next(s, step))
  {
    CountStep(s, step);
    var s' := Next(s, step);
    forall i | 0 <= i < s'.max ensures SlotInv(s', i) { SlotsStep(s, step, i); }
    forall p | p in s'.threads ensures ThreadInv(s', p) { ThreadsStep(s, step, p); }
    if step.TryClaim? {
      var i := s.threads[step.p].phase.i;
      assert SlotInv(s, i);
    }
  }

  // ----- every run -----

  ghost predicate Legal(s: Table, steps: seq<Step>)
    decreases |steps|
  {
    steps == [] || (Enabled(s, steps[0]) && Legal(Next(s, steps[0]), steps[1..]))
  }

  ghost function Run(s: Table, steps: seq<Step>): Table
    requires Legal(s, steps)
    decreases |steps|
  {
    if steps == [] then s else Run(Next(s, steps[0]), steps[1..])
  }

  lemma {:induction false} InvRun(s: Table, steps: seq<Step>)
    requires Inv(s) && Legal(s, steps)
    ensures Inv(Run(s, steps)) && Run(s, steps).max == s.max
    decreases |steps|
  {
    if steps != [] {
      InvStep(s, steps[0]);
      CountStep(s, steps[0]);
      InvRun(Next(s, steps[0]), steps[1..]);
    }
  }

  lemma InitInv(max: nat)
    ensures Inv(Init(max))
  {
    assert BackingOutSet(Init(max).threads) == {};
  }

  /** The entry shows the thread's id and the first 47 characters of its name, the rest NUL. */
  predicate Shows(e: Entry, t: Thread) {
    && e.threadId == t.id && |e.name| == 48
    && forall k :: 0 <= k < 48 ==> e.name[k] == if k < 47 && k < |t.name| then t.name[k] else '\0'
  }

  /** Over every interleaving of any threads: two threads that hold a slot hold different ones;
      a slot in state ACTIVE belongs to a thread whose id and name it shows; and the shared count is
      the slots granted plus the registrations on their way out. */
  lemma SlotsExclusive(max: nat, steps: seq<Step>)
    requires Legal(Init(max), steps)
    ensures var e := Run(Init(max), steps);
            && |e.entries| == max
            && (forall p, q, i | p in e.threads && q in e.threads ::
                  Holds(e.threads[p], i) && Holds(e.threads[q], i) ==> p == q)
            && (forall i | 0 <= i < max && e.entries[i].state.Active? ::
                  && i in e.owner && e.owner[i] in e.threads
                  && e.threads[e.owner[i]].phase == Owning(i)
                  && Shows(e.entries[i], e.threads[e.owner[i]]))
            && e.count == e.granted + |BackingOutSet(e.threads)|
  {
    InitInv(max);
    InvRun(Init(max), steps);
    var e := Run(Init(max), steps);
    forall p, q, i | p in e.threads && q in e.threads && Holds(e.threads[p], i) && Holds(e.threads[q], i)
      ensures p == q
    {
      assert ThreadInv(e, p) && ThreadInv(e, q);
    }
    forall i | 0 <= i < max && e.entries[i].state.Active?
      ensures i in e.owner && e.owner[i] in e.threads && e.threads[e.owner[i]].phase == Owning(i)
      ensures Shows(e.entries[i], e.threads[e.owner[i]])
    {
      assert SlotInv(e, i);
    }
  }

  /** Indices that a run takes with a successful fetch-add, in order. */
  ghost function FreshGrants(s: Table, steps: seq<Step>): seq<nat>
    requires Legal(s, steps)
    decreases |steps|
  {
    if steps == [] then []
    else (if steps[0].FetchAdd? && s.count < s.max then [s.count] else [])
         + FreshGrants(Next(s, steps[0]), steps[1..])
  }

  /** Fresh indices come out as granted, granted+1, ..., so none is ever granted twice, even with
      failing registrations decrementing the shared count in between. */
  lemma {:induction false} FreshGrantsCountUp(s: Table, steps: seq<Step>)
    requires Inv(s) && Legal(s, steps)
    ensures forall k :: 0 <= k < |FreshGrants(s, steps)| ==> FreshGrants(s, steps)[k] == s.granted + k
    decreases |steps|
  {
    if steps != [] {
      InvStep(s, steps[0]);
      CountStep(s, steps[0]);
      FreshGrantsCountUp(Next(s, steps[0]), steps[1..]);
    }
  }

  // ----- one thread registering alone -----

  /** Thread p scans on from slot i. */
  predicate ScansFrom(s: Table, p: nat, i: nat) { p in s.threads && s.threads[p].phase == Scanning(i) }

  predicate DeadAt(s: Table, j: nat) { j < |s.entries| && s.entries[j].state.Dead? }

  /** The slot that the scan from i on is to find, if there is one: the first dead one. */
  predicate FirstDead(s: Table, i: nat, j: nat) { i <= j && DeadAt(s, j) && forall m: nat :: i <= m < j ==> !DeadAt(s, m) }

  ghost predicate ByOne(steps: seq<Step>, p: nat) { forall k :: 0 <= k < |steps| ==> Actor(steps[k]) == p }

  /** Where the scan ends: in the first dead slot, without touching the count; without a dead one in
      the next fresh slot; in a full table with nothing, and the count as it was. */
  ghost predicate ScanEnds(s: Table, i: nat, p: nat, e: Table) {
    && p in s.threads && p in e.threads && e.threads[p].id == s.threads[p].id && e.threads[p].name == s.threads[p].name
    && (forall j: nat :: FirstDead(s, i, j) ==> e.threads[p].phase == Filling(j, 0) && e.count == s.count)
    && ((forall j: nat :: i <= j ==> !DeadAt(s, j)) ==>
          if s.count < s.max then e.threads[p].phase == Filling(s.count, 0) && e.count == s.count + 1
          else e.threads[p].phase == Refused && e.count == s.count)
  }

  lemma RunTwo(s: Table, a: Step, b: Step)
    requires Enabled(s, a) && Enabled(Next(s, a), b)
    ensures Legal(s, [a, b]) && Run(s, [a, b]) == Next(Next(s, a), b)
  {
    RunOne(Next(s, a), b);
    RunMore(s, a, [b]);
  }

  lemma RunOne(s: Table, a: Step)
    requires Enabled(s, a)
    ensures Legal(s, [a]) && Run(s, [a]) == Next(s, a)
  {
    RunMore(s, a, []);
  }

  lemma RunMore(s: Table, a: Step, rest: seq<Step>)
    requires Enabled(s, a) && Legal(Next(s, a), rest)
    ensures Legal(s, [a] + rest) && Run(s, [a] + rest) == Run(Next(s, a), rest)
  {
    assert ([a] + rest)[1..] == rest;
  }

  lemma {:induction false} ScanAlone(s: Table, p: nat, i: nat) returns (steps: seq<Step>)
    requires Inv(s) && ScansFrom(s, p, i)
    ensures Legal(s, steps) && ByOne(steps, p) && ScanEnds(s, i, p, Run(s, steps))
    decreases s.max - i
  {
    assert ThreadInv(s, p);
    if i == s.max {
      steps := ScanEmpty(s, p);
    } else if DeadAt(s, i) {
      steps := [TryClaim(p)];
      RunOne(s, TryClaim(p));
    } else {
      var s' := Next(s, TryClaim(p));
      InvStep(s, TryClaim(p));
      var rest := ScanAlone(s', p, i + 1);
      steps := [TryClaim(p)] + rest;
      RunMore(s, TryClaim(p), rest);
      ScanSkips(s, p, i, Run(s', rest));
    }
  }

  lemma ScanSkips(s: Table, p: nat, i: nat, e: Table)
    requires ScansFrom(s, p, i) && i < |s.entries| && !DeadAt(s, i) && ScanEnds(Next(s, TryClaim(p)), i + 1, p, e)
    ensures ScanEnds(s, i, p, e)
  {
    var s' := Next(s, TryClaim(p));
    assert s'.entries == s.entries && s'.count == s.count && s'.max == s.max;
    assert forall m: nat :: DeadAt(s', m) <==> DeadAt(s, m);
    forall j: nat | FirstDead(s, i, j) ensures FirstDead(s', i + 1, j) { assert j != i; }
    if forall j: nat :: i <= j ==> !DeadAt(s, j) {
      forall j: nat | i + 1 <= j ensures !DeadAt(s', j) { assert !DeadAt(s, j); }
    }
  }

  /** No slot is left to look at: a fresh one is taken, or the count goes back. */
  lemma ScanEmpty(s: Table, p: nat) returns (steps: seq<Step>)
    requires Inv(s) && ScansFrom(s, p, s.max)
    ensures Legal(s, steps) && ByOne(steps, p) && ScanEnds(s, s.max, p, Run(s, steps))
  {
    if s.count < s.max {
      steps := [FetchAdd(p)];
      RunOne(s, FetchAdd(p));
    } else {
      steps := [FetchAdd(p), FetchSub(p)];
      RunTwo(s, FetchAdd(p), FetchSub(p));
    }
  }

  /** A thread that has a slot fills and publishes it. */
  lemma {:induction false} FillAlone(s: Table, p: nat, i: nat, done: nat) returns (steps: seq<Step>)
    requires Inv(s) && p in s.threads && s.threads[p].phase == Filling(i, done)
    ensures Legal(s, steps) && ByOne(steps, p)
    ensures var e := Run(s, steps);
            && Inv(e) && i < |e.entries| && e.count == s.count
            && e.threads == s.threads[p := s.threads[p].(phase := Owning(i))] && e.entries[i].state.Active?
            && Shows(e.entries[i], s.threads[p])
    decreases 50 - done
  {
    assert ThreadInv(s, p) && SlotInv(s, i);
    var step := if done == 49 then Publish(p) else Store(p);
    var s' := Next(s, step);
    InvStep(s, step);
    if done == 49 {
      steps := [step];
      RunOne(s, step);
    } else {
      var rest := FillAlone(s', p, i, done + 1);
      steps := [step] + rest;
      RunMore(s, step, rest);
    }
  }
}
