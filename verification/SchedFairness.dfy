/** Virtual runtimes: who runs, how far tasks drift apart, and what that bounds. */
module SchedFairness {
  import opened Common
  import opened SchedModel
  import opened SchedInvariants

  // ---------------------------------------------------------------------------
  // The charge for one turn

  lemma DivBounds(n: int, w: int, lo: int, hi: int)
    requires w > 0 && lo * w <= n <= hi * w
    ensures lo <= n / w <= hi
  {
    var q := n / w;
    assert q * w <= n < (q + 1) * w;
    MulMono(q + 1, lo, w);
    MulMono(hi + 1, q, w);
  }

  /** Leaving the CPU costs between 3 and 2000, and exactly 2000 after a full slice. */
  lemma ChargeRange(t: Task)
    requires 1 <= t.weight <= 255 && t.slice <= t.weight * BASE_SLICE_TICKS
    ensures 3 <= Charge(t) <= FULL_CHARGE
    ensures t.slice == 0 ==> Charge(t) == FULL_CHARGE
  {
    var n := TicksRan(t) * VRUNTIME_SCALER;
    DivBounds(n, t.weight, 3, FULL_CHARGE);
    if t.slice == 0 {
      DivBounds(n, t.weight, FULL_CHARGE, FULL_CHARGE);
    }
  }

  // ---------------------------------------------------------------------------
  // The running task holds the minimum

  ghost predicate NotBehind(s: Sched, t: int)
    requires |s.pool| == MAX_TASKS && Slot(t) && Slot(s.curr)
  {
    t in s.ready ==> s.pool[s.curr].v <= s.pool[t].v
  }

  /** No task in the heap is behind the current user task. */
  ghost predicate CurrentIsMinimum(s: Sched) {
    && |s.pool| == MAX_TASKS
    && (Slot(s.curr) && s.curr != s.idle ==> forall t {:trigger NotBehind(s, t)} :: Slot(t) ==> NotBehind(s, t))
  }

  /** The minimum that `_get_min_vruntime` reads is never below the current user task. */
  lemma MinNotBehind(s: Sched, m: int)
    requires QueuesOk(s) && CurrentIsMinimum(s) && IsMinVruntime(s, m) && Slot(s.curr) && s.curr != s.idle
    ensures s.pool[s.curr].v <= m
  {
    if s.ready != {} {
      var t :| t in s.ready && Slot(t) && s.pool[t].v == m;
      assert NotBehind(s, t);
    }
  }

  lemma MinimumKept(s: Sched, a: Action)
    requires Inv(s) && Enabled(s, a) && CurrentIsMinimum(s)
    ensures CurrentIsMinimum(Apply(s, a))
  {
    var s' := Apply(s, a);
    if Slot(s.curr) { assert TaskOk(s, s.curr); }
    if (a.Create? || a.Wake?) && Slot(s.curr) && s.curr != s.idle {
      MinNotBehind(s, a.m);
      if a.Create? { assert a.t in s.free && SlotOk(s, a.t); }
    }
    if Slot(s'.curr) && s'.curr != s'.idle {
      forall t | Slot(t)
        ensures NotBehind(s', t)
      {
        if !a.Switch? { assert NotBehind(s, t); }
      }
    }
  }

  /** In every reachable state the current user task is a minimum of the runnable tasks. */
  lemma {:induction false} MinimumAlways(acts: seq<Action>)
    requires Legal(Init(), acts)
    ensures CurrentIsMinimum(Run(Init(), acts))
    decreases |acts|
  {
    if acts != [] {
      var front := acts[..|acts| - 1];
      MinimumAlways(front);
      InvAlways(front);
      MinimumKept(Run(Init(), front), acts[|acts| - 1]);
    }
  }

  // ---------------------------------------------------------------------------
  // Runs that never dispatch idle: everything stays within one full slice

  ghost predicate NotAhead(s: Sched, t: int)
    requires |s.pool| == MAX_TASKS && Slot(t)
  {
    Live(s, t) && t != s.idle ==>
      if Slot(s.curr) then s.pool[t].v <= s.pool[s.curr].v + FULL_CHARGE else s.pool[t].v == 0
  }

  /** No live task is more than a full slice ahead of the current one. */
  ghost predicate Narrow(s: Sched) {
    && |s.pool| == MAX_TASKS
    && (Slot(s.curr) ==> s.curr != s.idle)
    && forall t {:trigger NotAhead(s, t)} :: Slot(t) ==> NotAhead(s, t)
  }

  ghost predicate NeverIdle(acts: seq<Action>) {
    forall i :: 0 <= i < |acts| ==> acts[i] != Switch(-1)
  }

  /** The minimum is the virtual runtime of the current task or of a task in the heap. */
  lemma MinNotAhead(s: Sched, m: int)
    requires QueuesOk(s) && Narrow(s) && IsMinVruntime(s, m)
    ensures if Slot(s.curr) then m <= s.pool[s.curr].v + FULL_CHARGE else m == 0
  {
    if s.ready != {} {
      var t :| t in s.ready && Slot(t) && s.pool[t].v == m;
      assert TaskOk(s, t) && NotAhead(s, t);
    }
  }

  lemma NarrowSwitch(s: Sched, a: Action)
    requires Inv(s) && a.Switch? && a.best != -1 && Enabled(s, a) && CurrentIsMinimum(s) && Narrow(s)
    ensures Narrow(Apply(s, a))
  {
    var s' := Apply(s, a);
    assert TaskOk(s, a.best) && NotAhead(s, a.best);
    if Slot(s.curr) {
      assert TaskOk(s, s.curr) && NotBehind(s, a.best);
      if Live(s, s.curr) { ChargeRange(s.pool[s.curr]); }
    }
    forall t | Slot(t)
      ensures NotAhead(s', t)
    {
      assert NotAhead(s, t) && TaskOk(s, t);
    }
  }

  lemma NarrowKept(s: Sched, a: Action)
    requires Inv(s) && Enabled(s, a) && a != Switch(-1) && CurrentIsMinimum(s) && Narrow(s)
    ensures Narrow(Apply(s, a))
  {
    if a.Switch? {
      NarrowSwitch(s, a);
    } else {
      var s' := Apply(s, a);
      if a.Create? || a.Wake? { MinNotAhead(s, a.m); }
      if a.Create? { assert a.t in s.free && SlotOk(s, a.t); }
      if Slot(s.curr) { assert TaskOk(s, s.curr); }
      forall t | Slot(t)
        ensures NotAhead(s', t)
      {
        assert NotAhead(s, t);
      }
    }
  }

  lemma {:induction false} NarrowAlways(acts: seq<Action>)
    requires Legal(Init(), acts) && NeverIdle(acts)
    ensures Narrow(Run(Init(), acts))
    decreases |acts|
  {
    if acts != [] {
      var front := acts[..|acts| - 1];
      NarrowAlways(front);
      InvAlways(front);
      MinimumAlways(front);
      NarrowKept(Run(Init(), front), acts[|acts| - 1]);
    }
  }

  predicate Runnable(s: Sched, t: int)
    requires |s.pool| == MAX_TASKS
  {
    Slot(t) && t != s.idle && (s.pool[t].state == Ready || s.pool[t].state == Running)
  }

  /** Over every run that never dispatches idle, the virtual runtimes of any two runnable
      tasks differ by at most a full slice, and the running task has the least. */
  lemma SpreadAlways(acts: seq<Action>, t: int, u: int)
    requires Legal(Init(), acts) && NeverIdle(acts)
    requires Runnable(Run(Init(), acts), t) && Runnable(Run(Init(), acts), u)
    ensures var s := Run(Init(), acts);
      && -FULL_CHARGE <= s.pool[t].v - s.pool[u].v <= FULL_CHARGE
      && (s.pool[t].state == Running ==> s.pool[t].v <= s.pool[u].v)
  {
    var s := Run(Init(), acts);
    InvAlways(acts);
    MinimumAlways(acts);
    NarrowAlways(acts);
    assert TaskOk(s, t) && TaskOk(s, u) && NotAhead(s, t) && NotAhead(s, u);
    if Slot(s.curr) { assert NotBehind(s, t) && NotBehind(s, u); }
  }

  // ---------------------------------------------------------------------------
  // 64-bit virtual runtimes

  const WORD := 0x1_0000_0000_0000_0000
  const HALF := 0x8000_0000_0000_0000

  /** VRUNTIME_LT: the difference of two unsigned words, read as a signed one, is negative. */
  predicate VruntimeLt(a: int, b: int) {
    (a - b) % WORD >= HALF
  }

  /** On words that stand for numbers less than 2^63 apart it is the order of those numbers,
      wherever the words wrap. */
  lemma VruntimeLtIsOrder(a: int, b: int)
    requires -HALF < a - b < HALF
    ensures VruntimeLt(a % WORD, b % WORD) <==> a < b
  {
    var d := a % WORD - b % WORD;
    assert a - b == d + WORD * (a / WORD - b / WORD);
    if a < b {
      assert d % WORD == a - b + WORD by { Residue(d, a - b + WORD, a / WORD - b / WORD + 1, WORD); }
    } else {
      assert d % WORD == a - b by { Residue(d, a - b, a / WORD - b / WORD, WORD); }
    }
  }

  /** Over every run that never dispatches idle, the wrapped comparison orders the heap. */
  lemma WrapSafe(acts: seq<Action>, t: int, u: int)
    requires Legal(Init(), acts) && NeverIdle(acts)
    requires Runnable(Run(Init(), acts), t) && Runnable(Run(Init(), acts), u)
    ensures var s := Run(Init(), acts);
      VruntimeLt(s.pool[t].v % WORD, s.pool[u].v % WORD) <==> s.pool[t].v < s.pool[u].v
  {
    var s := Run(Init(), acts);
    SpreadAlways(acts, t, u);
    VruntimeLtIsOrder(s.pool[t].v, s.pool[u].v);
  }
}
