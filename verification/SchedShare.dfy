/** How long a READY task can wait, and how the CPU is divided. */
module SchedShare {
  import opened Common
  import opened SchedModel
  import opened SchedInvariants
  import opened SchedFairness

  /** Tasks leave the CPU only by preemption or yield. */
  ghost predicate CpuOnly(acts: seq<Action>) {
    forall i :: 0 <= i < |acts| ==> acts[i].Switch? || acts[i].SliceTick?
  }

  function Switches(acts: seq<Action>): nat
    decreases |acts|
  {
    if acts == [] then 0
    else Switches(acts[..|acts| - 1]) + if acts[|acts| - 1].Switch? then 1 else 0
  }

  // ---------------------------------------------------------------------------
  // No starvation

  /** How many more times `u` can be dispatched before it passes the waiting task. */
  function Budget(s: Sched, waiting: int, u: int): int
    requires |s.pool| == MAX_TASKS && Slot(waiting)
  {
    if !Runnable(s, u) || u == waiting then 0
    else
      var d := s.pool[waiting].v - s.pool[u].v;
      if d < 0 then 0 else if s.pool[u].state == Running then d / 3 else d / 3 + 1
  }

  function Budgets(s: Sched, waiting: int, n: nat): int
    requires |s.pool| == MAX_TASKS && Slot(waiting)
  {
    if n == 0 then 0 else Budgets(s, waiting, n - 1) + Budget(s, waiting, n - 1)
  }

  /** The number of other runnable tasks among the first `n` slots. */
  function Others(s: Sched, waiting: int, n: nat): nat
    requires |s.pool| == MAX_TASKS
  {
    if n == 0 then 0
    else Others(s, waiting, n - 1) + if Runnable(s, n - 1) && n - 1 != waiting then 1 else 0
  }

  /** What the bounds rest on; all of it holds in reachable states that never ran idle. */
  ghost predicate Fair(s: Sched) {
    Inv(s) && CurrentIsMinimum(s) && Narrow(s)
  }

  lemma FairKept(s: Sched, a: Action)
    requires Fair(s) && Enabled(s, a) && a != Switch(-1)
    ensures Fair(Apply(s, a))
  {
    QueuesKept(s, a);
    PoolKept(s, a);
    MinimumKept(s, a);
    NarrowKept(s, a);
  }

  /** No task starts more than a full slice behind the waiting one. */
  lemma {:induction false} BudgetsBound(s: Sched, waiting: int, n: nat)
    requires Fair(s) && Slot(waiting) && waiting in s.ready && n <= MAX_TASKS
    ensures Budgets(s, waiting, n) <= 667 * Others(s, waiting, n)
  {
    if n > 0 {
      BudgetsBound(s, waiting, n - 1);
      assert TaskOk(s, waiting) && NotAhead(s, waiting) && TaskOk(s, n - 1) && NotAhead(s, n - 1);
      if Slot(s.curr) { assert NotBehind(s, n - 1); }
    }
  }

  lemma {:induction false} BudgetsDrop(s: Sched, s': Sched, waiting: int, best: int, n: nat)
    requires |s.pool| == MAX_TASKS && |s'.pool| == MAX_TASKS && Slot(waiting)
    requires forall u {:trigger Budget(s', waiting, u)} :: Slot(u) ==>
      Budget(s', waiting, u) + (if u == best then 1 else 0) <= Budget(s, waiting, u)
    requires n <= MAX_TASKS
    ensures Budgets(s', waiting, n) + (if 0 <= best < n then 1 else 0) <= Budgets(s, waiting, n)
  {
    if n > 0 {
      BudgetsDrop(s, s', waiting, best, n - 1);
      assert Slot(n - 1);
    }
  }

  /** One dispatch of another task uses up one unit of its budget. */
  lemma SwitchBudget(s: Sched, a: Action, waiting: int, u: int)
    requires Fair(s) && Slot(waiting) && waiting in s.ready && a.Switch? && Enabled(s, a) && a.best != waiting && Slot(u)
    ensures a.best != -1
    ensures Budget(Apply(s, a), waiting, u) + (if u == a.best then 1 else 0) <= Budget(s, waiting, u)
  {
    assert waiting in Requeue(s).ready;
    assert TaskOk(s, u) && TaskOk(s, waiting);
    if Slot(s.curr) {
      assert TaskOk(s, s.curr);
      if Live(s, s.curr) { ChargeRange(s.pool[s.curr]); }
    }
  }

  lemma StepBudget(s: Sched, a: Action, waiting: int)
    requires Fair(s) && Slot(waiting) && waiting in s.ready && Enabled(s, a) && a != Switch(waiting)
    requires a.Switch? || a.SliceTick?
    ensures Fair(Apply(s, a)) && waiting in Apply(s, a).ready
    ensures Budgets(Apply(s, a), waiting, MAX_TASKS) + (if a.Switch? then 1 else 0) <= Budgets(s, waiting, MAX_TASKS)
  {
    var s' := Apply(s, a);
    if a.Switch? {
      forall u | Slot(u)
        ensures Budget(s', waiting, u) + (if u == a.best then 1 else 0) <= Budget(s, waiting, u)
      {
        SwitchBudget(s, a, waiting, u);
      }
      SwitchBudget(s, a, waiting, waiting);
      BudgetsDrop(s, s', waiting, a.best, MAX_TASKS);
    } else {
      BudgetsDrop(s, s', waiting, -1, MAX_TASKS);
    }
    FairKept(s, a);
  }

  lemma BudgetsNonNegative(s: Sched, waiting: int, n: nat)
    requires |s.pool| == MAX_TASKS && Slot(waiting)
    ensures Budgets(s, waiting, n) >= 0
  {
  }

  lemma {:induction false} BudgetRun(s: Sched, acts: seq<Action>, waiting: int)
    requires Fair(s) && Slot(waiting) && waiting in s.ready && Legal(s, acts) && CpuOnly(acts)
    requires forall i :: 0 <= i < |acts| ==> acts[i] != Switch(waiting)
    ensures Fair(Run(s, acts)) && waiting in Run(s, acts).ready
    ensures Budgets(Run(s, acts), waiting, MAX_TASKS) + Switches(acts) <= Budgets(s, waiting, MAX_TASKS)
    decreases |acts|
  {
    if acts != [] {
      var front := acts[..|acts| - 1];
      BudgetRun(s, front, waiting);
      StepBudget(Run(s, front), acts[|acts| - 1], waiting);
    }
  }

  /** A READY task is dispatched after at most 667 dispatches per other runnable task. */
  lemma StarvationBound(before: seq<Action>, acts: seq<Action>, waiting: int)
    requires Legal(Init(), before) && NeverIdle(before)
    requires Slot(waiting) && waiting in Run(Init(), before).ready
    requires Legal(Run(Init(), before), acts) && CpuOnly(acts)
    requires forall i :: 0 <= i < |acts| ==> acts[i] != Switch(waiting)
    ensures Switches(acts) <= 667 * Others(Run(Init(), before), waiting, MAX_TASKS)
  {
    var s := Run(Init(), before);
    InvAlways(before);
    MinimumAlways(before);
    NarrowAlways(before);
    BudgetRun(s, acts, waiting);
    BudgetsBound(s, waiting, MAX_TASKS);
    BudgetsNonNegative(Run(s, acts), waiting, MAX_TASKS);
  }

  // ---------------------------------------------------------------------------
  // Proportional share

  /** Every turn uses its whole slice: a switch comes exactly when the slice is used up. */
  ghost predicate FullTurns(s: Sched, acts: seq<Action>)
    requires |s.pool| == MAX_TASKS
    decreases |acts|
  {
    acts == [] ||
    (var front, a := acts[..|acts| - 1], acts[|acts| - 1];
     var mid := Run(s, front);
     && FullTurns(s, front) && Slot(mid.curr)
     && if a.Switch? then mid.pool[mid.curr].slice == 0 else a.SliceTick? && mid.pool[mid.curr].slice > 0)
  }

  /** Completed turns of a task. */
  ghost function Turns(s: Sched, acts: seq<Action>, t: int): nat
    requires |s.pool| == MAX_TASKS
    decreases |acts|
  {
    if acts == [] then 0
    else
      var front, a := acts[..|acts| - 1], acts[|acts| - 1];
      Turns(s, front, t) + if a.Switch? && Run(s, front).curr == t then 1 else 0
  }

  /** Ticks a task spent on the CPU. */
  ghost function Ticks(s: Sched, acts: seq<Action>, t: int): nat
    requires |s.pool| == MAX_TASKS
    decreases |acts|
  {
    if acts == [] then 0
    else
      var front, a := acts[..|acts| - 1], acts[|acts| - 1];
      Ticks(s, front, t) + if a.SliceTick? && Run(s, front).curr == t then 1 else 0
  }

  ghost predicate Level(s: Sched, t: int)
    requires |s.pool| == MAX_TASKS && Slot(s.curr)
  {
    Runnable(s, t) ==> s.pool[s.curr].v <= s.pool[t].v <= s.pool[s.curr].v + FULL_CHARGE
  }

  /** A user task runs, and no runnable task is behind it or over a full slice ahead. */
  ghost predicate AllLevel(s: Sched) {
    && Inv(s) && Runnable(s, s.curr) && s.pool[s.curr].state == Running
    && forall t {:trigger Level(s, t)} :: Slot(t) ==> Level(s, t)
  }

  /** All runnable tasks start level, with full slices. */
  ghost predicate Even(s: Sched) {
    && Inv(s) && Runnable(s, s.curr) && s.pool[s.curr].state == Running
    && forall t {:trigger s.pool[t]} :: Runnable(s, t) ==>
      s.pool[t].v == s.pool[s.curr].v && s.pool[t].slice == s.pool[t].weight * BASE_SLICE_TICKS
  }

  lemma LevelKept(s: Sched, a: Action)
    requires AllLevel(s) && Enabled(s, a)
    requires if a.Switch? then s.pool[s.curr].slice == 0 else a.SliceTick?
    ensures AllLevel(Apply(s, a))
    ensures a != Switch(-1)
  {
    var s' := Apply(s, a);
    QueuesKept(s, a);
    PoolKept(s, a);
    assert TaskOk(s, s.curr) && Level(s, s.curr);
    ChargeRange(s.pool[s.curr]);
    if a.Switch? {
      assert s.curr in Requeue(s).ready;
      assert TaskOk(s, a.best) && Level(s, a.best);
    }
    forall t | Slot(t)
      ensures Level(s', t)
    {
      assert Level(s, t) && TaskOk(s, t);
    }
  }

  /** The ticks of `n` whole slices. */
  function Slices(slice: nat, n: nat): (r: nat) {
    if n == 0 then 0 else Slices(slice, n - 1) + slice
  }

  lemma SlicesIs(slice: nat, n: nat)
    ensures Slices(slice, n) == slice * n
  {
  }

  /** What the turn and tick counts of a task say about its virtual runtime and slice, `x`
      being the task at the start. */
  ghost predicate Books(x: Task, s: Sched, t: int, turns: nat, ticks: int)
    requires |s.pool| == MAX_TASKS && Slot(t)
  {
    var y := s.pool[t];
    && Runnable(s, t) && y.weight == x.weight
    && y.v == x.v + FULL_CHARGE * turns
    && ticks == Slices(x.weight * BASE_SLICE_TICKS, turns) + (x.weight * BASE_SLICE_TICKS - y.slice)
    && (s.curr != t ==> y.slice == x.weight * BASE_SLICE_TICKS)
  }

  ghost predicate Accounted(s: Sched, acts: seq<Action>, t: int)
    requires |s.pool| == MAX_TASKS && Slot(t)
  {
    Books(s.pool[t], Run(s, acts), t, Turns(s, acts, t), Ticks(s, acts, t))
  }

  lemma {:induction false} AccountedRun(s: Sched, acts: seq<Action>, t: int)
    requires Even(s) && Runnable(s, t) && Legal(s, acts) && FullTurns(s, acts)
    ensures AllLevel(Run(s, acts)) && Accounted(s, acts, t)
    decreases |acts|
  {
    if acts == [] {
      forall u | Slot(u)
        ensures Level(s, u)
      {
      }
    } else {
      var front, a := acts[..|acts| - 1], acts[|acts| - 1];
      AccountedRun(s, front, t);
      LevelKept(Run(s, front), a);
      AccountedStep(s, acts, t);
    }
  }

  lemma AccountedStep(s: Sched, acts: seq<Action>, t: int)
    requires acts != [] && |s.pool| == MAX_TASKS && Slot(t) && Legal(s, acts) && FullTurns(s, acts) && acts[|acts| - 1] != Switch(-1)
    requires var front := acts[..|acts| - 1]; AllLevel(Run(s, front)) && Accounted(s, front, t)
    ensures Accounted(s, acts, t)
  {
    var front, a := acts[..|acts| - 1], acts[|acts| - 1];
    BooksStep(s.pool[t], Run(s, front), a, t, Turns(s, front, t), Ticks(s, front, t), Run(s, acts), Turns(s, acts, t), Ticks(s, acts, t));
  }

  lemma BooksStep(x: Task, s: Sched, a: Action, t: int, turns: nat, ticks: int, s': Sched, turns': nat, ticks': int)
    requires AllLevel(s) && Runnable(s, t) && Books(x, s, t, turns, ticks) && Enabled(s, a) && s' == Apply(s, a)
    requires if a.Switch? then a.best != -1 && s.pool[s.curr].slice == 0 else a.SliceTick? && s.pool[s.curr].slice > 0
    requires turns' == turns + if a.Switch? && s.curr == t then 1 else 0
    requires ticks' == ticks + if a.SliceTick? && s.curr == t then 1 else 0
    ensures Books(x, s', t, turns', ticks')
  {
    if a.Switch? { BooksSwitch(x, s, a, t, turns, ticks); } else { BooksTick(x, s, a, t, turns, ticks); }
  }

  /** A switch after a whole slice charges the current task a full slice and refills it. */
  lemma BooksSwitch(x: Task, s: Sched, a: Action, t: int, turns: nat, ticks: int)
    requires AllLevel(s) && Runnable(s, t) && Books(x, s, t, turns, ticks)
    requires a.Switch? && a.best != -1 && Enabled(s, a) && s.pool[s.curr].slice == 0
    ensures Books(x, Apply(s, a), t, turns + (if s.curr == t then 1 else 0), ticks)
  {
    assert TaskOk(s, s.curr);
    ChargeRange(s.pool[s.curr]);
  }

  lemma BooksTick(x: Task, s: Sched, a: Action, t: int, turns: nat, ticks: int)
    requires AllLevel(s) && Runnable(s, t) && Books(x, s, t, turns, ticks)
    requires a.SliceTick? && s.pool[s.curr].slice > 0
    ensures Books(x, Apply(s, a), t, turns, ticks + (if s.curr == t then 1 else 0))
  {
  }

  /** With full slices from a level start, completed turns differ by at most one, and CPU
      ticks follow the weights to within one slice. */
  lemma ProportionalShare(s: Sched, acts: seq<Action>, t: int, u: int)
    requires Even(s) && Runnable(s, t) && Runnable(s, u) && Legal(s, acts) && FullTurns(s, acts)
    ensures -1 <= Turns(s, acts, t) - Turns(s, acts, u) <= 1
    ensures var slices := BASE_SLICE_TICKS * (s.pool[t].weight * s.pool[u].weight);
      -slices <= Ticks(s, acts, t) * s.pool[u].weight - Ticks(s, acts, u) * s.pool[t].weight <= slices
  {
    var end := Run(s, acts);
    AccountedRun(s, acts, t);
    AccountedRun(s, acts, u);
    AccountedRun(s, acts, s.curr);
    AllStayRunnable(s, acts);
    AccountedRun(s, acts, end.curr);
    assert Level(end, t) && Level(end, u);
    var k := Turns(s, acts, end.curr);
    TicksRange(s, acts, t, k);
    TicksRange(s, acts, u, k);
    Cross(Ticks(s, acts, t), s.pool[t].weight, Ticks(s, acts, u), s.pool[u].weight, k);
    Cross(Ticks(s, acts, u), s.pool[u].weight, Ticks(s, acts, t), s.pool[t].weight, k);
  }

  /** The task on the CPU at the end was runnable at the start. */
  lemma {:induction false} AllStayRunnable(s: Sched, acts: seq<Action>)
    requires Even(s) && Legal(s, acts) && FullTurns(s, acts)
    ensures forall t :: Runnable(Run(s, acts), t) ==> Runnable(s, t)
    decreases |acts|
  {
    if acts != [] {
      var front, a := acts[..|acts| - 1], acts[|acts| - 1];
      AllStayRunnable(s, front);
      AccountedRun(s, front, s.curr);
      var mid := Run(s, front);
      LevelKept(mid, a);
      assert a.Switch? && Slot(a.best) ==> TaskOk(mid, a.best);
    }
  }

  lemma TicksRange(s: Sched, acts: seq<Action>, t: int, k: nat)
    requires Even(s) && Runnable(s, t) && AllLevel(Run(s, acts)) && Accounted(s, acts, t) && Level(Run(s, acts), t)
    requires var end := Run(s, acts); Runnable(s, end.curr) && Accounted(s, acts, end.curr) && k == Turns(s, acts, end.curr)
    ensures k <= Turns(s, acts, t) <= k + 1
    ensures s.pool[t].weight * BASE_SLICE_TICKS * k <= Ticks(s, acts, t) <= s.pool[t].weight * BASE_SLICE_TICKS * (k + 1)
    ensures s.pool[t].weight > 0
  {
    var end := Run(s, acts);
    assert TaskOk(end, t) && TaskOk(s, t);
    assert s.pool[t].v == s.pool[s.curr].v == s.pool[end.curr].v;
    SlicesIs(s.pool[t].weight * BASE_SLICE_TICKS, Turns(s, acts, t));
    Turn(s.pool[t].weight * BASE_SLICE_TICKS, Turns(s, acts, t), k, end.pool[t].slice);
  }

  /** Ticks after `n` whole turns and part of another, when `n` is `k` or a whole `k + 1`. */
  lemma Turn(slice: int, n: int, k: int, left: int)
    requires 0 <= left <= slice && (n == k || (n == k + 1 && left == slice))
    ensures slice * k <= slice * n + (slice - left) <= slice * (k + 1)
  {
  }

  lemma Cross(a: int, w: int, b: int, x: int, k: int)
    requires w > 0 && x > 0 && a <= w * 2 * (k + 1) && x * 2 * k <= b
    ensures a * x - b * w <= 2 * (w * x)
  {
    MulMono(a, w * 2 * (k + 1), x);
    MulMono(x * 2 * k, b, w);
    var p := w * x;
    assert w * 2 * (k + 1) * x == 2 * p * (k + 1);
    assert x * 2 * k * w == 2 * p * k;
  }
}
