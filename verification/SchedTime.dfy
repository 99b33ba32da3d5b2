/** Virtual runtime follows CPU time, over every run and for turns of any length. */
module SchedTime {
  import opened Common
  import opened SchedModel
  import opened SchedInvariants

  // ---------------------------------------------------------------------------
  // What a run does with one task

  predicate OnCpu(s: Sched, t: int)
    requires |s.pool| == MAX_TASKS
  {
    Slot(t) && s.curr == t && s.pool[t].state == Running
  }

  /** Ticks of the slice that have been used and not paid for yet. */
  function Unpaid(x: Task): int { x.weight * BASE_SLICE_TICKS - x.slice }

  /** What happened to a task: the ticks that were taken off its slice, how often it left the
      CPU without blocking, how often it did so with no tick to pay for, and by how much
      wake-ups raised its virtual runtime. */
  datatype Account = Account(ticks: nat, turns: nat, empty: nat, raised: int)

  /** One more step. */
  function Entry(acc: Account, s: Sched, a: Action, t: int): Account
    requires |s.pool| == MAX_TASKS && Slot(t)
  {
    PoolSize(s, a);
    if a.SliceTick? && OnCpu(s, t) && s.pool[t].slice > 0 then acc.(ticks := acc.ticks + 1)
    else if a.Switch? && OnCpu(s, t) then
      acc.(turns := acc.turns + 1, empty := acc.empty + if Unpaid(s.pool[t]) == 0 then 1 else 0)
    else if a.Wake? && a.t == t then acc.(raised := acc.raised + Apply(s, a).pool[t].v - s.pool[t].v)
    else acc
  }

  ghost function Over(s: Sched, acts: seq<Action>, t: int): Account
    requires |s.pool| == MAX_TASKS && Slot(t)
    decreases |acts|
  {
    if acts == [] then Account(0, 0, 0, 0)
    else
      var front := acts[..|acts| - 1];
      Entry(Over(s, front, t), Run(s, front), acts[|acts| - 1], t)
  }

  /** `t` is a live user task from the start to the end. */
  ghost predicate Stays(s: Sched, acts: seq<Action>, t: int)
    requires |s.pool| == MAX_TASKS
    decreases |acts|
  {
    && Live(Run(s, acts), t) && t != Run(s, acts).idle
    && (acts == [] || Stays(s, acts[..|acts| - 1], t))
  }

  // ---------------------------------------------------------------------------
  // The account of one task

  /** With `paid` ticks paid for in `turns` turns the virtual runtime has gained a 1000 per tick
      and unit of weight, less what each turn loses to rounding. */
  ghost predicate Follows(weight: int, gained: int, paid: int, turns: int) {
    weight * gained <= VRUNTIME_SCALER * paid <= weight * gained + turns * (weight - 1)
  }

  lemma FollowsMore(weight: int, gained: int, paid: int, turns: int, charge: int, ticks: int)
    requires weight > 0 && Follows(weight, gained, paid, turns)
    requires charge == ticks * VRUNTIME_SCALER / weight
    ensures Follows(weight, gained + charge, paid + ticks, turns + 1)
  {
    var n := ticks * VRUNTIME_SCALER;
    assert n == weight * charge + n % weight;
    assert weight * (gained + charge) == weight * gained + weight * charge;
    assert (turns + 1) * (weight - 1) == turns * (weight - 1) + (weight - 1);
  }

  /** A step that is not a switch away from `t`. */
  lemma OtherStep(s: Sched, a: Action, t: int)
    requires Inv(s) && Enabled(s, a) && Live(s, t) && t != s.idle && Live(Apply(s, a), t)
    requires !(a.Switch? && OnCpu(s, t))
    ensures var x, y := s.pool[t], Apply(s, a).pool[t];
      && y.weight == x.weight
      && Unpaid(y) == Unpaid(x) + (if a.SliceTick? && OnCpu(s, t) && x.slice > 0 then 1 else 0)
      && (y.v == x.v || (a.Wake? && a.t == t))
  {
    assert TaskOk(s, t) && SlotOk(s, t);
  }

  lemma SwitchStep(s: Sched, a: Action, t: int)
    requires Inv(s) && Enabled(s, a) && Live(s, t) && t != s.idle && a.Switch? && OnCpu(s, t)
    ensures var x, y := s.pool[t], Apply(s, a).pool[t];
      && x.weight > 0 && y.weight == x.weight && Unpaid(y) == 0
      && y.v == x.v + (if Unpaid(x) == 0 then 1 else Unpaid(x)) * VRUNTIME_SCALER / x.weight
  {
    assert TaskOk(s, t);
  }

  /** The account of the task that was `x` and is `y`. */
  ghost predicate Books(x: Task, y: Task, acc: Account) {
    && y.weight == x.weight
    && Follows(x.weight, y.v - x.v - acc.raised, acc.ticks + acc.empty + Unpaid(x) - Unpaid(y), acc.turns)
  }

  lemma BooksStep(x: Task, s: Sched, a: Action, t: int, acc: Account)
    requires Inv(s) && Enabled(s, a) && Live(s, t) && t != s.idle && Live(Apply(s, a), t) && Books(x, s.pool[t], acc)
    ensures Books(x, Apply(s, a).pool[t], Entry(acc, s, a, t))
  {
    var y := s.pool[t];
    if a.Switch? && OnCpu(s, t) {
      SwitchStep(s, a, t);
      var n := if Unpaid(y) == 0 then 1 else Unpaid(y);
      FollowsMore(x.weight, y.v - x.v - acc.raised, acc.ticks + acc.empty + Unpaid(x) - Unpaid(y), acc.turns,
                  n * VRUNTIME_SCALER / x.weight, n);
    } else {
      OtherStep(s, a, t);
    }
  }

  /** Over every legal run in which `t` stays a live user task, blocked or not: apart from what
      wake-ups raised it by, its virtual runtime grows by 1000 for each tick and unit of weight,
      to within rounding down once a turn; a turn without a tick counts as one tick. */
  lemma FollowsCpuTime(s: Sched, acts: seq<Action>, t: int) returns (x: Task, y: Task, acc: Account)
    requires Inv(s) && Legal(s, acts) && Stays(s, acts, t)
    ensures Slot(t) && x == s.pool[t] && y == Run(s, acts).pool[t] && acc == Over(s, acts, t) && y.weight == x.weight
    ensures var gained := y.v - x.v - acc.raised;
      var paid := acc.ticks + acc.empty + (x.weight * 2 - x.slice) - (y.weight * 2 - y.slice);
      x.weight * gained <= 1000 * paid <= x.weight * gained + acc.turns * (x.weight - 1)
  {
    FollowsBy(s, acts, t);
    x, y, acc := s.pool[t], Run(s, acts).pool[t], Over(s, acts, t);
    BooksSay(x, y, acc);
  }

  lemma BooksSay(x: Task, y: Task, acc: Account)
    requires Books(x, y, acc)
    ensures var gained := y.v - x.v - acc.raised;
      var paid := acc.ticks + acc.empty + (x.weight * 2 - x.slice) - (y.weight * 2 - y.slice);
      x.weight * gained <= 1000 * paid <= x.weight * gained + acc.turns * (x.weight - 1)
  {
  }

  lemma {:induction false} FollowsBy(s: Sched, acts: seq<Action>, t: int)
    requires Inv(s) && Legal(s, acts) && Stays(s, acts, t)
    ensures Slot(t) && Books(s.pool[t], Run(s, acts).pool[t], Over(s, acts, t)) && Inv(Run(s, acts))
    decreases |acts|
  {
    if acts != [] {
      var front := acts[..|acts| - 1];
      FollowsBy(s, front, t);
      BooksStep(s.pool[t], Run(s, front), acts[|acts| - 1], t, Over(s, front, t));
      QueuesKept(Run(s, front), acts[|acts| - 1]);
      PoolKept(Run(s, front), acts[|acts| - 1]);
    }
  }

  /** A wake-up raises a task to the minimum that is read, and only if it is behind. */
  lemma RaisedTo(s: Sched, a: Action)
    requires Enabled(s, a) && a.Wake?
    ensures var x, y := s.pool[a.t], Apply(s, a).pool[a.t];
      y.v >= x.v && y.v >= a.m && (y.v == x.v || y.v == a.m)
  {
  }
}
