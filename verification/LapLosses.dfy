/** Which events the engine gives up when it finds that it was lapped, over whole runs of the
    transport: a position is counted as lost exactly when it was more than a ring behind the
    published head at one of the two checks of a call, and every other one is handed over. */
module LapLosses {
  import opened Events
  import opened ThreadRings
  import opened Transport
  import opened Delivery

  function Positions(lo: nat, hi: nat): (r: set<nat>)
    requires lo <= hi
    ensures forall p :: p in r <==> lo <= p < hi
    ensures |r| == hi - lo
    decreases hi - lo
  {
    if lo == hi then {} else Positions(lo, hi - 1) + {hi - 1}
  }

  /** The first position whose fate is still open. */
  function Mark(s: System): int {
    match s.consumer
    case TailLoaded(t, _) => t
    case Copying(t, _, _, _, _) => t
    case CopyDone(t, _, _) => t
    case Storing(newTail, batch) => newTail - |batch|
    case _ => s.tail
  }

  /** The engine looks at the published head here: before it copies, and after. */
  predicate IsCheck(step: Step) { step == Engine(LoadHead) || step == Engine(ReloadHead) }

  /** At this check the position's fate was open and it was more than a ring behind. */
  predicate OverrunNow(s: System, step: Step, p: nat) { IsCheck(step) && Mark(s) <= p && Overwritten(p, s.cap, s.head) }

  /** The positions a step counts as lost: as many as it adds to the counter, the oldest first. */
  function LostNow(s: System, step: Step): set<nat>
    requires Inv(s) && Enabled(s, step)
  {
    LossAdvances(s, step);
    Positions(Mark(s), Mark(s) + Next(s, step).lapped - s.lapped)
  }

  /** The positions of the events a step hands over. */
  function GivenNow(s: System, step: Step): set<nat>
    requires Inv(s) && Enabled(s, step)
  {
    LossAdvances(s, step);
    Positions(Mark(s), Mark(s) + |Next(s, step).delivered| - |s.delivered|)
  }

  lemma LossAdvances(s: System, step: Step)
    requires Inv(s) && Enabled(s, step)
    ensures var s' := Next(s, step);
            && 0 <= Mark(s) && s.lapped <= s'.lapped && |s.delivered| <= |s'.delivered|
            && Mark(s') == Mark(s) + (s'.lapped - s.lapped) + (|s'.delivered| - |s.delivered|)
            && (s'.lapped == s.lapped || s'.delivered == s.delivered)
  {
    if step.Tracer? { TracerStable(s, step.tracer); }
  }

  /** One step loses exactly the overrun positions. */
  lemma LostByStep(s: System, step: Step, p: nat)
    requires Inv(s) && Enabled(s, step)
    ensures p in LostNow(s, step) <==> OverrunNow(s, step, p)
  {
    LossAdvances(s, step);
    if step.Tracer? { TracerStable(s, step.tracer); }
  }

  /** The positions lost along a run. */
  ghost function Lost(s: System, steps: seq<Step>): set<nat>
    requires Inv(s) && Legal(s, steps)
    decreases |steps|
  {
    if steps == [] then {} else InvStep(s, steps[0]); LostNow(s, steps[0]) + Lost(Next(s, steps[0]), steps[1..])
  }

  /** The positions handed over along a run. */
  ghost function Given(s: System, steps: seq<Step>): set<nat>
    requires Inv(s) && Legal(s, steps)
    decreases |steps|
  {
    if steps == [] then {} else InvStep(s, steps[0]); GivenNow(s, steps[0]) + Given(Next(s, steps[0]), steps[1..])
  }

  /** Some check of the run found the position overrun. */
  ghost predicate Overrun(s: System, steps: seq<Step>, p: nat)
    requires Legal(s, steps)
    decreases |steps|
  {
    steps != [] && (OverrunNow(s, steps[0], p) || Overrun(Next(s, steps[0]), steps[1..], p))
  }

  lemma {:induction false} LostIsOverrun(s: System, steps: seq<Step>, p: nat)
    requires Inv(s) && Legal(s, steps)
    ensures p in Lost(s, steps) <==> Overrun(s, steps, p)
    decreases |steps|
  {
    if steps != [] {
      InvStep(s, steps[0]);
      LostByStep(s, steps[0], p);
      LostIsOverrun(Next(s, steps[0]), steps[1..], p);
    }
  }

  /** Along a run the open mark moves over every position once: each is lost or handed over. */
  lemma {:induction false} FateOfPositions(s: System, steps: seq<Step>)
    requires Inv(s) && Legal(s, steps)
    ensures var e := Run(s, steps);
            && 0 <= Mark(s) <= Mark(e)
            && (forall p: nat :: p in Lost(s, steps) || p in Given(s, steps) <==> Mark(s) <= p < Mark(e))
            && Lost(s, steps) !! Given(s, steps)
            && |Lost(s, steps)| == e.lapped - s.lapped
    decreases |steps|
  {
    if steps != [] {
      var next := Next(s, steps[0]);
      InvStep(s, steps[0]);
      LossAdvances(s, steps[0]);
      FateOfPositions(next, steps[1..]);
      assert LostNow(s, steps[0]) !! Lost(next, steps[1..]);
    }
  }

  /** In every interleaving from an empty ring, once a call of the engine is over: each position
      below the tail was either handed over or counted as lost, never both, and it was lost exactly
      when some check found it more than a ring behind the published head before it was handed
      over. */
  lemma LostInEveryRun(cap: nat, steps: seq<Step>)
    requires cap > 0 && Legal(Init(cap), steps)
    ensures Inv(Init(cap))
    ensures var e, lost, given := Run(Init(cap), steps), Lost(Init(cap), steps), Given(Init(cap), steps);
            && (e.consumer.Resting? ==> forall p: nat :: p in lost || p in given <==> p < e.tail)
            && lost !! given && |lost| == e.lapped
            && (forall p: nat :: p in lost <==> Overrun(Init(cap), steps, p))
  {
    InitInv(cap);
    FateOfPositions(Init(cap), steps);
    forall p: nat ensures p in Lost(Init(cap), steps) <==> Overrun(Init(cap), steps, p) {
      LostIsOverrun(Init(cap), steps, p);
    }
  }
}
