/** The engine's two circular logs, the type-epoch log and the snapshot ring
    (`engine/src/world.rs`): a vector that grows to `cap` entries and is then overwritten in
    place, read oldest first, and searched by a key that grows with time. */
module CircularLogs {
  import opened Modular
  import opened OrderedMap

  /** The last `cap` entries of everything pushed. */
  function Window<T>(log: seq<T>, cap: nat): seq<T> {
    if |log| <= cap then log else log[|log| - cap..]
  }

  predicate Nondecreasing<T>(s: seq<T>, key: T -> nat) {
    forall i, j :: 0 <= i < j < |s| ==> key(s[i]) <= key(s[j])
  }

  /** A vector of `cap` slots written round robin: entry i of the log is in slot i mod cap. */
  ghost predicate Wraps<T>(buf: seq<T>, log: seq<T>, cap: nat)
    requires cap > 0
  {
    && |buf| == |Window(log, cap)|
    && forall i {:trigger log[i]} :: 0 <= i < |log| && |log| <= i + cap ==> i % cap < |buf| && buf[i % cap] == log[i]
  }

  /** What the vector holds of position `i` of the log. */
  lemma SlotHolds<T>(buf: seq<T>, log: seq<T>, cap: nat, i: nat)
    requires cap > 0 && Wraps(buf, log, cap) && |log| <= i + cap && i < |log|
    ensures i % cap < |buf| && buf[i % cap] == log[i]
  {
  }

  /** While the vector grows it is the log. */
  lemma GrowingIsLog<T>(buf: seq<T>, log: seq<T>, cap: nat)
    requires cap > 0 && |log| <= cap
    ensures Wraps(buf, log, cap) <==> buf == log
  {
    forall i | 0 <= i < |log| && i < cap ensures i % cap == i { ModUnique(i, cap, 0, i); }
    if Wraps(buf, log, cap) {
      forall i | 0 <= i < |log| && i < cap ensures buf[i] == log[i] { SlotHolds(buf, log, cap, i); }
    }
  }

  lemma GrowWraps<T>(buf: seq<T>, log: seq<T>, cap: nat, e: T)
    requires cap > 0 && Wraps(buf, log, cap) && |buf| < cap
    ensures Wraps(buf + [e], log + [e], cap)
  {
    GrowingIsLog(buf, log, cap);
    GrowingIsLog(buf + [e], log + [e], cap);
  }

  /** Once it is full, the new entry goes where the only entry that leaves the window was. */
  lemma OverwriteWraps<T>(buf: seq<T>, log: seq<T>, cap: nat, e: T)
    requires cap > 0 && Wraps(buf, log, cap) && |buf| == cap
    ensures Wraps(buf[|log| % cap := e], log + [e], cap)
  {
    var buf', log' := buf[|log| % cap := e], log + [e];
    forall i {:trigger log'[i]} | 0 <= i < |log'| && |log'| <= i + cap
      ensures i % cap < |buf'| && buf'[i % cap] == log'[i]
    {
      if i < |log| {
        assert log[i] == log'[i];
        ModDistinct(i, |log|, cap);
      }
    }
  }

  lemma PushWraps<T>(buf: seq<T>, log: seq<T>, cap: nat, e: T)
    requires cap > 0 && Wraps(buf, log, cap)
    ensures |buf| < cap ==> Wraps(buf + [e], log + [e], cap)
    ensures |buf| == cap ==> Wraps(buf[|log| % cap := e], log + [e], cap)
  {
    if |buf| < cap {
      GrowWraps(buf, log, cap, e);
    } else if |buf| == cap {
      OverwriteWraps(buf, log, cap, e);
    }
  }

  /** In a full vector, `idx` slots on from the next one to be overwritten is position |log| - cap + idx. */
  lemma OldestFirst(n: nat, cap: nat, idx: nat)
    requires 0 < cap <= n && idx < cap
    ensures (n % cap + idx) % cap == (n - cap + idx) % cap
  {
    WrapStep(n, idx, cap);
    AddMod(n - cap + idx, cap);
  }

  /** Reading `start + idx` modulo the capacity walks the window oldest first. */
  lemma SlotIsWindow<T>(buf: seq<T>, log: seq<T>, cap: nat, idx: nat)
    requires cap > 0 && Wraps(buf, log, cap) && idx < |buf|
    ensures var start := if |buf| < cap then 0 else |log| % cap;
            (start + idx) % cap < |buf| && buf[(start + idx) % cap] == Window(log, cap)[idx]
  {
    if |buf| < cap {
      GrowingIsLog(buf, log, cap);
      ModUnique(idx, cap, 0, idx);
    } else {
      OldestFirst(|log|, cap, idx);
      SlotHolds(buf, log, cap, |log| - cap + idx);
    }
  }

  class CircularLog<T> {
    const cap: nat
    var buf: seq<T>
    var next: nat
    var len: nat
    var total: nat
    ghost var log: seq<T>

    ghost predicate Valid()
      reads this
    {
      && cap > 0
      && len == |buf| && next == |log| % cap && total == |log|
      && Wraps(buf, log, cap)
    }

    /** A capacity of 0 makes the first push divide by zero. */
    constructor (cap: nat)
      requires cap > 0
      ensures Valid() && log == [] && this.cap == cap
    {
      this.cap := cap;
      buf, next, len, total, log := [], 0, 0, 0, [];
      new;
      ModUnique(0, cap, 0, 0);
    }

    method Push(e: T)
      requires Valid()
      modifies this
      ensures Valid() && log == old(log) + [e]
    {
      PushWraps(buf, log, cap, e);
      if |buf| < cap {
        buf := buf + [e];
      } else {
        buf := buf[next := e];
      }
      WrapStepOne(|log|, cap);
      next := (next + 1) % cap;
      len := if len + 1 < cap then len + 1 else cap;
      total := total + 1;
      log := log + [e];
    }

    /** `slot`: index 0 is the oldest entry kept. */
    method Get(idx: nat) returns (r: Option<T>)
      requires Valid()
      ensures r == if idx < |Window(log, cap)| then Some(Window(log, cap)[idx]) else None
    {
      if idx >= len { return None; }
      SlotIsWindow(buf, log, cap, idx);
      var start := if len < cap then 0 else next;
      r := Some(buf[(start + idx) % cap]);
    }

    /** `iter`: the two halves of the vector, older half first. */
    method Items() returns (s: seq<T>)
      requires Valid()
      ensures s == Window(log, cap)
    {
      if |buf| < cap {
        s := buf;
      } else {
        s := buf[next..] + buf[..next];
      }
      forall idx | 0 <= idx < |buf| ensures s[idx] == Window(log, cap)[idx] {
        SlotIsWindow(buf, log, cap, idx);
        var start := if |buf| < cap then 0 else next;
        if start + idx < cap { ModUnique(start + idx, cap, 0, start + idx); }
        else { ModUnique(start + idx, cap, 1, start + idx - cap); }
      }
    }

    /** `query`: the oldest entry kept that satisfies `p`. */
    method FindFirst(p: T -> bool) returns (r: Option<T>)
      requires Valid()
      ensures r.None? ==> forall i :: 0 <= i < |Window(log, cap)| ==> !p(Window(log, cap)[i])
      ensures r.Some? ==> exists i :: 0 <= i < |Window(log, cap)| && r.value == Window(log, cap)[i] && p(r.value)
                            && forall j :: 0 <= j < i ==> !p(Window(log, cap)[j])
    {
      var s := Items();
      for i := 0 to |s|
        invariant forall j :: 0 <= j < i ==> !p(s[j])
      {
        if p(s[i]) { return Some(s[i]); }
      }
      r := None;
    }

    /** `find_by_insn`, `find_by_tick` and `find_by_seq`: the newest entry whose key is at most
        the target, by binary search over the window. */
    method FindNearest(key: T -> nat, target: nat) returns (r: Option<nat>)
      requires Valid()
      ensures r.Some? ==> r.value < |Window(log, cap)|
      ensures Nondecreasing(Window(log, cap), key) ==>
                (r.None? <==> forall i :: 0 <= i < |Window(log, cap)| ==> target < key(Window(log, cap)[i]))
      ensures Nondecreasing(Window(log, cap), key) && r.Some? ==>
                && key(Window(log, cap)[r.value]) <= target
                && forall i :: r.value < i < |Window(log, cap)| ==> target < key(Window(log, cap)[i])
    {
      if len == 0 { return None; }
      ghost var w := Window(log, cap);
      var lo, hi := 0, len;
      while lo < hi
        invariant 0 <= lo <= hi <= len == |w|
        invariant Nondecreasing(w, key) ==> forall i :: 0 <= i < lo ==> key(w[i]) <= target
        invariant Nondecreasing(w, key) ==> forall i :: hi <= i < |w| ==> target < key(w[i])
      {
        var mid := lo + (hi - lo) / 2;
        var e := Get(mid);
        if key(e.value) <= target { lo := mid + 1; } else { hi := mid; }
      }
      r := if lo > 0 then Some(lo - 1) else None;
      assert lo > 0 && Nondecreasing(w, key) ==> key(w[lo - 1]) <= target;
    }
  }

  lemma WrapStepOne(n: nat, cap: nat)
    requires cap > 0
    ensures (n % cap + 1) % cap == (n + 1) % cap
  {
    if cap > 1 { WrapStep(n, 1, cap); } else { ModUnique(n + 1, 1, n + 1, 0); }
  }

  /** Entries pushed in nondecreasing key order are found in that order in any window. */
  lemma WindowNondecreasing<T>(log: seq<T>, cap: nat, key: T -> nat)
    requires Nondecreasing(log, key)
    ensures Nondecreasing(Window(log, cap), key)
  {
    var w := Window(log, cap);
    forall i, j | 0 <= i < j < |w| ensures key(w[i]) <= key(w[j]) {
      if |log| > cap {
        assert w[i] == log[|log| - cap + i] && w[j] == log[|log| - cap + j];
      }
    }
  }

  /** One push drops at most the oldest entry of the window and adds the new one at its end. */
  lemma WindowPush<T>(log: seq<T>, cap: nat, e: T)
    requires cap > 0
    ensures var w := Window(log, cap);
            Window(log + [e], cap) == (if |w| < cap then w else w[1..]) + [e]
  {
  }
}
