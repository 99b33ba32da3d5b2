/** The scheduler itself: methods that change the pool, the lists and the heap in place, each
    proved to take steps of the state machine. */
module SchedKernel {
  import opened Common
  import opened SchedModel
  import opened SchedInvariants
  import opened SchedFairness
  import opened SchedHeap
  import SchedShare

  /** A task control block, without its virtual runtime, which the heap compares. */
  datatype Tcb = Tcb(state: TaskState, weight: nat, slice: nat, wake: nat, id: nat)

  /** `scheduler_global_t` and `scheduler_cpu_t` without the heap. */
  datatype Global = Global(pool: seq<Tcb>, free: seq<int>, zombies: seq<int>, ids: seq<bool>, count: int)
  datatype Cpu = Cpu(sleep: seq<int>, curr: int, idle: int)

  ghost predicate Same(x: Tcb, y: Task) {
    x == Tcb(y.state, y.weight, y.slice, y.wake, y.id)
  }

  ghost predicate SameAt(g: Global, s: Sched, t: int)
    requires |g.pool| == MAX_TASKS && |s.pool| == MAX_TASKS
  {
    Slot(t) ==> Same(g.pool[t], s.pool[t])
  }

  ghost predicate BitAt(g: Global, s: Sched, id: int)
    requires |g.ids| == MAX_TASKS
  {
    1 <= id <= MAX_TASKS ==> (g.ids[id - 1] <==> id in s.ids)
  }

  /** The fields stand for state `s`. */
  ghost predicate Coupled(g: Global, cpu: Cpu, s: Sched) {
    && |g.pool| == MAX_TASKS && |s.pool| == MAX_TASKS && |g.ids| == MAX_TASKS
    && (forall t {:trigger SameAt(g, s, t)} :: Slot(t) ==> SameAt(g, s, t))
    && (forall id {:trigger BitAt(g, s, id)} :: 1 <= id <= MAX_TASKS ==> BitAt(g, s, id))
    && g.free == s.free && g.zombies == s.zombies && g.count == s.count
    && cpu == Cpu(s.sleep, s.curr, s.idle)
  }

  ghost predicate KeyAt(v: seq<int>, s: Sched, t: int)
    requires |v| == MAX_TASKS && |s.pool| == MAX_TASKS
  {
    Slot(t) ==> v[t] == s.pool[t].v
  }

  ghost predicate KeysMatch(v: seq<int>, s: Sched) {
    && |v| == MAX_TASKS && |s.pool| == MAX_TASKS
    && forall t {:trigger KeyAt(v, s, t)} :: Slot(t) ==> KeyAt(v, s, t)
  }

  // ---------------------------------------------------------------------------
  // How far apart virtual runtimes can be

  /** Whose virtual runtime the code may compare: live user tasks and the current task. */
  predicate Compared(s: Sched, t: int)
    requires |s.pool| == MAX_TASKS
  {
    Slot(t) && (t == s.curr || (Live(s, t) && t != s.idle))
  }

  ghost predicate Near(s: Sched, t: int, u: int)
    requires |s.pool| == MAX_TASKS
  {
    && (Compared(s, t) && Compared(s, u) ==> s.pool[t].v - s.pool[u].v < HALF - FULL_CHARGE)
    && (Compared(s, t) && s.curr == -1 ==> FULL_CHARGE - HALF < s.pool[t].v < HALF - FULL_CHARGE)
  }

  /** Compared virtual runtimes (before the start, also zero) are well within 2^63 of each
      other, so 64-bit words order them. */
  ghost predicate Spread(s: Sched) {
    && |s.pool| == MAX_TASKS
    && forall t, u {:trigger Near(s, t, u)} :: Slot(t) && Slot(u) ==> Near(s, t, u)
  }

  ghost predicate Bounded(s: Sched, t: int, n: nat)
    requires |s.pool| == MAX_TASKS
  {
    Slot(t) ==> 0 <= s.pool[t].v <= FULL_CHARGE * n
  }

  lemma BoundedStep(s: Sched, a: Action, t: int, n: nat)
    requires Inv(s) && Enabled(s, a) && Slot(t)
    requires forall u {:trigger Bounded(s, u, n)} :: Slot(u) ==> Bounded(s, u, n)
    ensures Bounded(Apply(s, a), t, if a.Switch? then n + 1 else n)
  {
    assert Bounded(s, t, n);
    if (a.Create? || a.Wake?) && s.ready != {} {
      var u :| u in s.ready && Slot(u) && s.pool[u].v == a.m;
      assert Bounded(s, u, n);
    }
    if Slot(s.curr) {
      assert Bounded(s, s.curr, n) && TaskOk(s, s.curr);
      if Live(s, s.curr) { ChargeRange(s.pool[s.curr]); }
    }
  }

  lemma {:induction false} BoundedAlways(acts: seq<Action>)
    requires Legal(Init(), acts)
    ensures forall t {:trigger Bounded(Run(Init(), acts), t, SchedShare.Switches(acts))} ::
      Slot(t) ==> Bounded(Run(Init(), acts), t, SchedShare.Switches(acts))
    decreases |acts|
  {
    if acts != [] {
      var front := acts[..|acts| - 1];
      BoundedAlways(front);
      InvAlways(front);
      forall t | Slot(t)
        ensures Bounded(Run(Init(), acts), t, SchedShare.Switches(acts))
      {
        BoundedStep(Run(Init(), front), acts[|acts| - 1], t, SchedShare.Switches(front));
      }
    }
  }

  /** Every state reached in fewer than 4.6 * 10^15 context switches is in the window. */
  lemma SpreadFor(acts: seq<Action>)
    requires Legal(Init(), acts) && SchedShare.Switches(acts) < 4_611_686_018_427_386
    ensures Spread(Run(Init(), acts))
  {
    var s, n := Run(Init(), acts), SchedShare.Switches(acts);
    BoundedAlways(acts);
    forall t, u | Slot(t) && Slot(u)
      ensures Near(s, t, u)
    {
      assert Bounded(s, t, n) && Bounded(s, u, n);
    }
  }

  /** The task is runnable, or has not been waiting while the current one gained nearly 2^63. */
  predicate NotLost(s: Sched, t: int)
    requires |s.pool| == MAX_TASKS
  {
    Live(s, t) && t != s.idle && !Runnable(s, t) && Slot(s.curr) ==> s.pool[s.curr].v - s.pool[t].v < HALF - 2 * FULL_CHARGE
  }

  /** As long as idle does not run the window holds without a bound on the virtual runtimes,
      so also when the words have wrapped. */
  lemma SpreadNeverIdle(acts: seq<Action>)
    requires Legal(Init(), acts) && NeverIdle(acts)
    requires forall t {:trigger NotLost(Run(Init(), acts), t)} :: Slot(t) ==> NotLost(Run(Init(), acts), t)
    ensures Spread(Run(Init(), acts))
  {
    var s := Run(Init(), acts);
    InvAlways(acts);
    MinimumAlways(acts);
    NarrowAlways(acts);
    forall t, u | Slot(t) && Slot(u)
      ensures Near(s, t, u)
    {
      assert NotLost(s, u) && NotAhead(s, t) && NotAhead(s, u) && TaskOk(s, t) && TaskOk(s, u);
      if Slot(s.curr) { assert NotBehind(s, u); }
    }
  }

  // ---------------------------------------------------------------------------
  // The sleep list

  const TICK_WORD := 0x1_0000_0000
  const TICK_HALF := 0x8000_0000

  /** The test of `_process_sleep_list`: the 32-bit difference, read as signed, is not negative. */
  predicate Due(now: int, wake: int) {
    (now - wake) % TICK_WORD < TICK_HALF
  }

  lemma DueIsOrder(now: int, wake: int)
    requires -TICK_HALF <= now - wake < TICK_HALF
    ensures Due(now, wake) <==> wake <= now
  {
  }

  /** `_remove_from_sleep_list`: one walk, taking out the first occurrence. */
  method RemoveFromList(q: seq<int>, t: int) returns (r: seq<int>)
    requires NoDup(q)
    ensures r == Without(q, t)
  {
    if q != [] && q[0] == t {
      WithoutAbsent(q[1..], t);
      return q[1..];
    }
    var i := 0;
    while i < |q| && q[i] != t
      invariant 0 <= i <= |q| && forall j :: 0 <= j < i ==> q[j] != t
    {
      i := i + 1;
    }
    if i < |q| {
      r := q[..i] + q[i + 1..];
      WithoutSplit(q, i);
    } else {
      r := q;
      WithoutAbsent(q, t);
    }
  }

  lemma {:induction false} WithoutAbsent(q: seq<int>, t: int)
    requires forall j :: 0 <= j < |q| ==> q[j] != t
    ensures Without(q, t) == q
  {
    if q != [] {
      WithoutAbsent(q[1..], t);
      assert q == [q[0]] + q[1..];
    }
  }

  lemma {:induction false} WithoutSplit(q: seq<int>, i: nat)
    requires NoDup(q) && i < |q|
    ensures Without(q, q[i]) == q[..i] + q[i + 1..]
  {
    if i == 0 {
      WithoutAbsent(q[1..], q[0]);
      assert q[..0] + q[1..] == q[1..];
    } else {
      WithoutSplit(q[1..], i - 1);
      assert q[..i] + q[i + 1..] == [q[0]] + (q[1..][..i - 1] + q[1..][i..]);
    }
  }

  /** `_insert_into_sleep_list`: where the walk stops. */
  method SleepPosition(pool: seq<Tcb>, q: seq<int>, wake: nat) returns (at: nat)
    requires |pool| == MAX_TASKS && forall i :: 0 <= i < |q| ==> 0 <= q[i] < MAX_TASKS
    requires forall i, j :: 0 <= i < j < |q| ==> pool[q[i]].wake <= pool[q[j]].wake
    ensures at <= |q|
    ensures forall i :: 0 <= i < at ==> pool[q[i]].wake <= wake
    ensures forall i :: at <= i < |q| ==> wake <= pool[q[i]].wake
  {
    if q == [] || wake < pool[q[0]].wake {
      return 0;
    }
    at := 1;
    while at < |q| && pool[q[at]].wake < wake
      invariant 1 <= at <= |q| && forall i :: 0 <= i < at ==> pool[q[i]].wake <= wake
    {
      at := at + 1;
    }
  }
}
