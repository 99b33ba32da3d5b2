/** The scheduler as a state machine: tasks, queues and the atomic steps that change them. */
module SchedModel {
  import opened Common

  const MAX_TASKS := 58
  const BASE_SLICE_TICKS := 2
  const VRUNTIME_SCALER := 1000

  /** The largest charge for one turn on the CPU: a full slice. */
  const FULL_CHARGE := 2000

  datatype TaskState = Unused | Ready | Running | Blocked | Sleeping | Zombie

  /** One slot of the task pool; `v` is the virtual runtime without wrap-around. */
  datatype Task = Task(state: TaskState, v: int, weight: nat, slice: nat, wake: nat, id: nat)

  /** `ready` is the set of tasks in the ready heap; slot -1 stands for "none". */
  datatype Sched = Sched(
    pool: seq<Task>, ready: set<int>, sleep: seq<int>, free: seq<int>, zombies: seq<int>,
    ids: set<int>, count: int, curr: int, idle: int)

  predicate Slot(t: int) { 0 <= t < MAX_TASKS }

  /** The atomic steps. `m` is the minimum virtual runtime the step reads, and `best` the
      task a switch picks (-1 for idle). */
  datatype Action =
    | Create(weight: nat, t: int, id: nat, m: int)
    | MarkIdle(t: int)
    | Collect
    | Delete(t: int)
    | Exit
    | Switch(best: int)
    | SliceTick
    | Wake(t: int, m: int, timeout: bool)
    | Block(t: int)
    | Sleep(wake: nat, at: nat)

  function Init(): Sched {
    Sched(seq(MAX_TASKS, _ => Task(Unused, 0, 0, 0, 0, 0)), {}, [], seq(MAX_TASKS, i => i), [], {}, 0, -1, -1)
  }

  predicate Live(s: Sched, t: int)
    requires |s.pool| == MAX_TASKS
  {
    Slot(t) && s.pool[t].state != Unused && s.pool[t].state != Zombie
  }

  /** Code of a task runs only while the current task is RUNNING (or before the start). */
  predicate TaskContext(s: Sched)
    requires |s.pool| == MAX_TASKS
  {
    s.curr == -1 || (Slot(s.curr) && s.pool[s.curr].state == Running)
  }

  /** `_get_min_vruntime`. */
  predicate IsMinVruntime(s: Sched, m: int)
    requires |s.pool| == MAX_TASKS
  {
    if s.ready == {} then m == if Slot(s.curr) then s.pool[s.curr].v else 0
    else
      && (exists t :: t in s.ready && Slot(t) && s.pool[t].v == m)
      && (forall t :: t in s.ready && Slot(t) ==> m <= s.pool[t].v)
  }

  /** Ticks used since the slice was last filled, at least one. */
  function TicksRan(t: Task): int {
    var ran := t.weight * BASE_SLICE_TICKS - t.slice;
    if ran == 0 then 1 else ran
  }

  /** What leaving the CPU costs. */
  function Charge(t: Task): int
    requires t.weight > 0
  {
    TicksRan(t) * VRUNTIME_SCALER / t.weight
  }

  /** The list without its elements equal to `x`. */
  function Without(q: seq<int>, x: int): seq<int> {
    if q == [] then [] else if q[0] == x then Without(q[1..], x) else [q[0]] + Without(q[1..], x)
  }

  function Insert(q: seq<int>, at: nat, x: int): seq<int> {
    if at <= |q| then q[..at] + [x] + q[at..] else q
  }

  // ---------------------------------------------------------------------------
  // Guards and effects

  predicate Enabled(s: Sched, a: Action) {
    && |s.pool| == MAX_TASKS
    && match a
       case Create(weight, t, id, m) =>
         && TaskContext(s) && weight <= 255 && s.free != [] && t == s.free[0] && Slot(t)
         && 1 <= id <= MAX_TASKS && id !in s.ids && (forall i :: 1 <= i < id ==> i in s.ids) && IsMinVruntime(s, m)
       case MarkIdle(t) => s.idle == -1 && s.curr == -1 && t in s.ready && Slot(t)
       case Collect => TaskContext(s) && s.zombies != [] && Slot(s.zombies[0])
       case Delete(t) => TaskContext(s) && Live(s, t) && t != s.idle && t != s.curr
       case Exit => Slot(s.curr) && TaskContext(s) && s.curr != s.idle
       case Switch(best) =>
         && Slot(s.idle)
         && (var mid := Requeue(s);
             if best == -1 then mid.ready == {}
             else best in mid.ready && Slot(best) && forall u :: u in mid.ready && Slot(u) ==> mid.pool[best].v <= mid.pool[u].v)
       case SliceTick => Slot(s.curr) && TaskContext(s) && s.curr != s.idle
       case Wake(t, m, timeout) =>
         && Slot(t) && IsMinVruntime(s, m)
         && (s.pool[t].state == Sleeping || (s.pool[t].state == Blocked && !timeout))
       case Block(t) => Live(s, t) && t != s.idle && s.pool[t].state != Sleeping
       case Sleep(wake, at) =>
         && Slot(s.curr) && TaskContext(s) && s.curr != s.idle && 0 < wake && at <= |s.sleep|
         && (forall i :: 0 <= i < at ==> Slot(s.sleep[i]) && s.pool[s.sleep[i]].wake <= wake)
         && (forall i :: at <= i < |s.sleep| ==> Slot(s.sleep[i]) && wake <= s.pool[s.sleep[i]].wake)
  }

  /** First half of `schedule_next_task`: a running task is charged and becomes READY; idle
      is not charged and never enters the heap. */
  function Requeue(s: Sched): Sched
    requires |s.pool| == MAX_TASKS
  {
    if Slot(s.curr) && s.pool[s.curr].state == Running then
      var t := s.pool[s.curr];
      if s.curr == s.idle || t.weight == 0 then s.(pool := s.pool[s.curr := t.(state := Ready)])
      else
        s.(pool := s.pool[s.curr := t.(state := Ready, v := t.v + Charge(t), slice := t.weight * BASE_SLICE_TICKS)],
           ready := s.ready + {s.curr})
    else s
  }

  /** Second half: the chosen task, or idle, becomes RUNNING. */
  function Dispatch(s: Sched, best: int): Sched
    requires |s.pool| == MAX_TASKS
  {
    var t := if best == -1 then s.idle else best;
    if Slot(t) then s.(pool := s.pool[t := s.pool[t].(state := Running)], ready := s.ready - {t}, curr := t) else s
  }

  function Apply(s: Sched, a: Action): Sched
    requires |s.pool| == MAX_TASKS
  {
    match a
    case Create(weight, t, id, m) =>
      var w := if weight == 0 then 1 else weight;
      if s.free != [] && Slot(t) then
        s.(pool := s.pool[t := Task(Ready, m, w, w * BASE_SLICE_TICKS, 0, id)],
           ready := s.ready + {t}, free := s.free[1..], ids := s.ids + {id}, count := s.count + 1)
      else s
    case MarkIdle(t) => s.(idle := t, ready := s.ready - {t})
    case Collect =>
      if s.zombies != [] && Slot(s.zombies[0]) then
        var t := s.zombies[0];
        s.(pool := s.pool[t := s.pool[t].(state := Unused)], zombies := s.zombies[1..], free := [t] + s.free,
           count := if s.count > 0 then s.count - 1 else s.count)
      else s
    case Delete(t) =>
      if Slot(t) then
        s.(pool := s.pool[t := s.pool[t].(state := Zombie, id := 0)], ready := s.ready - {t},
           sleep := if s.pool[t].wake > 0 then Without(s.sleep, t) else s.sleep,
           ids := s.ids - {s.pool[t].id}, zombies := [t] + s.zombies)
      else s
    case Exit =>
      if Slot(s.curr) then
        s.(pool := s.pool[s.curr := s.pool[s.curr].(state := Zombie, id := 0)],
           ids := s.ids - {s.pool[s.curr].id}, zombies := [s.curr] + s.zombies)
      else s
    case Switch(best) => Dispatch(Requeue(s), best)
    case SliceTick =>
      if Slot(s.curr) then
        var t := s.pool[s.curr];
        s.(pool := s.pool[s.curr := t.(slice := if t.slice > 0 then t.slice - 1 else 0)])
      else s
    case Wake(t, m, timeout) =>
      if Slot(t) then
        var x := s.pool[t];
        var wake := if x.state == Sleeping && !timeout then 0 else x.wake;
        s.(pool := s.pool[t := x.(state := Ready, v := Max(x.v, m), wake := wake)],
           ready := s.ready + {t}, sleep := if x.state == Sleeping then Without(s.sleep, t) else s.sleep)
      else s
    case Block(t) =>
      if Slot(t) then s.(pool := s.pool[t := s.pool[t].(state := Blocked)], ready := s.ready - {t}) else s
    case Sleep(wake, at) =>
      if Slot(s.curr) then
        s.(pool := s.pool[s.curr := s.pool[s.curr].(state := Sleeping, wake := wake)], sleep := Insert(s.sleep, at, s.curr))
      else s
  }

  lemma PoolSize(s: Sched, a: Action)
    requires |s.pool| == MAX_TASKS
    ensures |Apply(s, a).pool| == MAX_TASKS
  {
  }

  /** The state after a list of actions. */
  ghost function Run(s: Sched, acts: seq<Action>): (r: Sched)
    requires |s.pool| == MAX_TASKS
    ensures |r.pool| == MAX_TASKS
    decreases |acts|
  {
    if acts == [] then s
    else
      var before := Run(s, acts[..|acts| - 1]);
      PoolSize(before, acts[|acts| - 1]);
      Apply(before, acts[|acts| - 1])
  }

  /** Each action is enabled when it is taken. */
  ghost predicate Legal(s: Sched, acts: seq<Action>)
    requires |s.pool| == MAX_TASKS
    decreases |acts|
  {
    acts == [] || (Legal(s, acts[..|acts| - 1]) && Enabled(Run(s, acts[..|acts| - 1]), acts[|acts| - 1]))
  }

  lemma RunAppend(s: Sched, acts: seq<Action>, a: Action)
    requires |s.pool| == MAX_TASKS
    ensures Run(s, acts + [a]) == Apply(Run(s, acts), a)
    ensures Legal(s, acts) && Enabled(Run(s, acts), a) ==> Legal(s, acts + [a])
  {
    assert (acts + [a])[..|acts|] == acts;
  }

  ghost predicate Open(key: int) { true }

  /** Steps `acts`, each enabled when taken, lead from `s` to `s'`. The definition unfolds
      only where `Open` is mentioned. */
  ghost predicate Took(s: Sched, acts: seq<Action>, s': Sched) {
    && |s.pool| == MAX_TASKS
    && forall key {:trigger Open(key)} :: Open(key) ==> Legal(s, acts) && s' == Run(s, acts)
  }

  lemma TookNothing(s: Sched)
    requires |s.pool| == MAX_TASKS
    ensures Took(s, [], s)
  {
  }

  lemma TookStep(s: Sched, acts: seq<Action>, mid: Sched, a: Action)
    requires Took(s, acts, mid) && Enabled(mid, a)
    ensures Took(s, acts + [a], Apply(mid, a))
  {
    assert Open(0);
    RunAppend(s, acts, a);
  }

  /** What was taken is a legal run. */
  lemma TookRun(s: Sched, acts: seq<Action>, s': Sched)
    requires Took(s, acts, s')
    ensures Legal(s, acts) && s' == Run(s, acts)
  {
    assert Open(0);
  }
}
