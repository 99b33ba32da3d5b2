/** The task operations of the scheduler, in place. */
module SchedTasks {
  import opened Common
  import opened SchedModel
  import opened SchedInvariants
  import opened SchedFairness
  import opened SchedHeap
  import opened SchedKernel

  /** A change to task `t` alone, made alike in the fields and in the state. */
  lemma Recoupled(g: Global, cpu: Cpu, s: Sched, g': Global, cpu': Cpu, s': Sched, t: int)
    requires Coupled(g, cpu, s) && Slot(t) && |s'.pool| == MAX_TASKS
    requires |g'.pool| == MAX_TASKS && g'.ids == g.ids && s'.ids == s.ids
    requires Same(g'.pool[t], s'.pool[t])
    requires g'.pool == g.pool[t := g'.pool[t]] && s'.pool == s.pool[t := s'.pool[t]]
    requires g'.free == s'.free && g'.zombies == s'.zombies && g'.count == s'.count
    requires cpu' == Cpu(s'.sleep, s'.curr, s'.idle)
    ensures Coupled(g', cpu', s')
  {
    forall u | Slot(u)
      ensures SameAt(g', s', u)
    {
      assert SameAt(g, s, u);
    }
    forall id | 1 <= id <= MAX_TASKS
      ensures BitAt(g', s', id)
    {
      assert BitAt(g, s, id);
    }
  }

  /** The same for a change that also sets or clears the bit of one ID. */
  lemma RecoupledId(g: Global, cpu: Cpu, s: Sched, g': Global, s': Sched, t: int, id: int, used: bool)
    requires Coupled(g, cpu, s) && Slot(t) && |s'.pool| == MAX_TASKS && 1 <= id <= MAX_TASKS
    requires |g'.pool| == MAX_TASKS && g'.ids == g.ids[id - 1 := used]
    requires s'.ids == if used then s.ids + {id} else s.ids - {id}
    requires Same(g'.pool[t], s'.pool[t])
    requires g'.pool == g.pool[t := g'.pool[t]] && s'.pool == s.pool[t := s'.pool[t]]
    requires g'.free == s'.free && g'.zombies == s'.zombies && g'.count == s'.count
    ensures Coupled(g', Cpu(s'.sleep, s'.curr, s'.idle), s')
  {
    forall u | Slot(u)
      ensures SameAt(g', s', u)
    {
      assert SameAt(g, s, u);
    }
    forall i | 1 <= i <= MAX_TASKS
      ensures BitAt(g', s', i)
    {
      assert BitAt(g, s, i);
    }
  }

  /** A change to task `t` alone keeps the other keys right. */
  lemma Rekeyed(v: seq<int>, s: Sched, v': seq<int>, s': Sched, t: int)
    requires KeysMatch(v, s) && Slot(t) && |s'.pool| == MAX_TASKS && |v'| == MAX_TASKS
    requires forall u :: 0 <= u < MAX_TASKS && u != t ==> v'[u] == v[u] && s'.pool[u].v == s.pool[u].v
    requires v'[t] == s'.pool[t].v
    ensures KeysMatch(v', s')
  {
    forall u | Slot(u)
      ensures KeyAt(v', s', u)
    {
      assert KeyAt(v, s, u);
    }
  }

  /** The minimum and a compared task are well within 2^63 of each other. */
  lemma MinNear(s: Sched, m: int, t: int)
    requires Inv(s) && Spread(s) && IsMinVruntime(s, m) && Compared(s, t)
    ensures FULL_CHARGE - HALF < m - s.pool[t].v < HALF - FULL_CHARGE
    ensures s.curr == -1 ==> FULL_CHARGE - HALF < m < HALF - FULL_CHARGE
  {
    if s.ready != {} {
      var r :| r in s.ready && Slot(r) && s.pool[r].v == m;
      assert TaskOk(s, r) && Near(s, r, t) && Near(s, t, r);
    } else if Slot(s.curr) {
      assert Near(s, s.curr, t) && Near(s, t, s.curr);
    } else {
      assert Near(s, t, t);
    }
  }

  /** A task woken at a minimum stays in the window. */
  lemma SpreadKept(s: Sched, a: Action)
    requires Inv(s) && Enabled(s, a) && Spread(s) && a.Wake?
    ensures Spread(Apply(s, a))
  {
    var s' := Apply(s, a);
    forall u, w | Slot(u) && Slot(w)
      ensures Near(s', u, w)
    {
      assert Near(s, u, w);
      if Compared(s, u) { MinNear(s, a.m, u); }
      if Compared(s, w) { MinNear(s, a.m, w); }
    }
  }

  /** What holds in every reachable state. */
  ghost predicate Sound(s: Sched) {
    Inv(s) && Sorted(Wakes(s.pool, s.sleep)) && CurrentIsMinimum(s)
  }

  lemma SoundKept(s: Sched, a: Action)
    requires Sound(s) && Enabled(s, a)
    ensures Sound(Apply(s, a))
  {
    QueuesKept(s, a);
    PoolKept(s, a);
    SleepKept(s, a);
    MinimumKept(s, a);
  }

  /** The one step `a` was taken and recorded. */
  ghost predicate Stepped(s: Sched, trace: seq<Action>, a: Action, s': Sched, trace': seq<Action>) {
    Enabled(s, a) && s' == Apply(s, a) && trace' == trace + [a]
  }

  lemma WakeStep(g: Global, cpu: Cpu, s: Sched, v: seq<int>, t: int, m: int, timeout: bool,
                 g': Global, cpu': Cpu, v': seq<int>)
    returns (s': Sched)
    requires Sound(s) && Coupled(g, cpu, s) && KeysMatch(v, s) && Enabled(s, Wake(t, m, timeout))
    requires v' == v[t := Max(s.pool[t].v, m)]
    requires var x := g.pool[t];
      && g' == g.(pool := g.pool[t := x.(state := Ready, wake := if x.state == Sleeping && !timeout then 0 else x.wake)])
      && cpu' == cpu.(sleep := if x.state == Sleeping then Without(cpu.sleep, t) else cpu.sleep)
    ensures Sound(s') && Coupled(g', cpu', s') && KeysMatch(v', s') && s'.ready == s.ready + {t}
    ensures s' == Apply(s, Wake(t, m, timeout))
  {
    s' := Apply(s, Wake(t, m, timeout));
    assert SameAt(g, s, t);
    SoundKept(s, Wake(t, m, timeout));
    Recoupled(g, cpu, s, g', cpu', s', t);
    Rekeyed(v, s, v', s', t);
  }

  lemma BlockStep(g: Global, cpu: Cpu, s: Sched, v: seq<int>, t: int, g': Global) returns (s': Sched)
    requires Sound(s) && Coupled(g, cpu, s) && KeysMatch(v, s) && Enabled(s, Action.Block(t))
    requires g' == g.(pool := g.pool[t := g.pool[t].(state := Blocked)])
    ensures Sound(s') && Coupled(g', cpu, s') && KeysMatch(v, s') && s'.ready == s.ready - {t}
    ensures s' == Apply(s, Action.Block(t))
  {
    s' := Apply(s, Action.Block(t));
    assert SameAt(g, s, t) && KeyAt(v, s, t);
    SoundKept(s, Action.Block(t));
    Recoupled(g, cpu, s, g', cpu, s', t);
    Rekeyed(v, s, v, s', t);
  }

  lemma DeleteStep(g: Global, cpu: Cpu, s: Sched, v: seq<int>, t: int, g': Global, cpu': Cpu) returns (s': Sched)
    requires Sound(s) && Coupled(g, cpu, s) && KeysMatch(v, s) && Enabled(s, Delete(t))
    requires var x := g.pool[t];
      && 1 <= x.id <= MAX_TASKS
      && g' == g.(pool := g.pool[t := x.(state := Zombie, id := 0)], ids := g.ids[x.id - 1 := false], zombies := [t] + g.zombies)
      && cpu' == cpu.(sleep := if x.wake > 0 then Without(cpu.sleep, t) else cpu.sleep)
    ensures Sound(s') && Coupled(g', cpu', s') && KeysMatch(v, s') && s'.ready == s.ready - {t}
    ensures s' == Apply(s, Delete(t))
  {
    s' := Apply(s, Delete(t));
    SoundKept(s, Delete(t));
    DeleteCoupled(g, cpu, s, v, t, g', cpu', s');
  }

  lemma DeleteCoupled(g: Global, cpu: Cpu, s: Sched, v: seq<int>, t: int, g': Global, cpu': Cpu, s': Sched)
    requires Coupled(g, cpu, s) && KeysMatch(v, s) && Slot(t) && s' == Apply(s, Delete(t))
    requires var x := g.pool[t];
      && 1 <= x.id <= MAX_TASKS
      && g' == g.(pool := g.pool[t := x.(state := Zombie, id := 0)], ids := g.ids[x.id - 1 := false], zombies := [t] + g.zombies)
      && cpu' == cpu.(sleep := if x.wake > 0 then Without(cpu.sleep, t) else cpu.sleep)
    ensures Coupled(g', cpu', s') && KeysMatch(v, s') && s'.ready == s.ready - {t}
  {
    assert SameAt(g, s, t) && KeyAt(v, s, t);
    RecoupledId(g, cpu, s, g', s', t, g.pool[t].id, false);
    Rekeyed(v, s, v, s', t);
  }

  lemma SleepStep(g: Global, cpu: Cpu, s: Sched, v: seq<int>, wake: nat, at: nat, g': Global, cpu': Cpu) returns (s': Sched)
    requires Sound(s) && Coupled(g, cpu, s) && KeysMatch(v, s) && Enabled(s, Sleep(wake, at))
    requires g' == g.(pool := g.pool[s.curr := g.pool[s.curr].(state := Sleeping, wake := wake)])
    requires cpu' == cpu.(sleep := Insert(cpu.sleep, at, s.curr))
    ensures Sound(s') && Coupled(g', cpu', s') && KeysMatch(v, s') && s'.ready == s.ready
    ensures s' == Apply(s, Sleep(wake, at))
  {
    s' := Apply(s, Sleep(wake, at));
    assert SameAt(g, s, s.curr) && KeyAt(v, s, s.curr);
    SoundKept(s, Sleep(wake, at));
    Recoupled(g, cpu, s, g', cpu', s', s.curr);
    Rekeyed(v, s, v, s', s.curr);
  }

  lemma SwitchStep(g: Global, cpu: Cpu, s: Sched, v: seq<int>, best: int, g': Global, cpu': Cpu) returns (s': Sched)
    requires Sound(s) && Enabled(s, Switch(best)) && Coupled(g, cpu, Requeue(s)) && KeysMatch(v, Requeue(s))
    requires var t := if best == -1 then s.idle else best;
      g' == g.(pool := g.pool[t := g.pool[t].(state := Running)]) && cpu' == cpu.(curr := t)
    ensures Sound(s') && Coupled(g', cpu', s') && KeysMatch(v, s') && s'.ready == Requeue(s).ready - {best}
    ensures s' == Apply(s, Switch(best))
  {
    var t, mid := if best == -1 then s.idle else best, Requeue(s);
    s' := Apply(s, Switch(best));
    assert SameAt(g, mid, t) && KeyAt(v, mid, t);
    SoundKept(s, Switch(best));
    IdleReady(s);
    Recoupled(g, cpu, mid, g', cpu', s', t);
    Rekeyed(v, mid, v, s', t);
  }

  lemma CreateStep(g: Global, cpu: Cpu, s: Sched, v: seq<int>, a: Action, g': Global, v': seq<int>) returns (s': Sched)
    requires Sound(s) && Coupled(g, cpu, s) && KeysMatch(v, s) && a.Create? && Enabled(s, a) && v' == v[a.t := a.m]
    requires var w := if a.weight == 0 then 1 else a.weight;
      g' == g.(pool := g.pool[a.t := Tcb(Ready, w, w * BASE_SLICE_TICKS, 0, a.id)], free := g.free[1..],
               ids := g.ids[a.id - 1 := true], count := g.count + 1)
    ensures Sound(s') && Coupled(g', cpu, s') && KeysMatch(v', s') && s'.ready == s.ready + {a.t}
    ensures s' == Apply(s, a)
  {
    s' := Apply(s, a);
    SoundKept(s, a);
    RecoupledId(g, cpu, s, g', s', a.t, a.id, true);
    Rekeyed(v, s, v', s', a.t);
  }

  class Scheduler {
    const heap: ReadyHeap
    var g: Global
    var cpu: Cpu
    ghost var s: Sched
    ghost var trace: seq<Action>

    ghost function Repr(): set<object>
      reads this
    {
      {this, heap, heap.ready, heap.index, heap.key}
    }

    ghost predicate HeapMatches()
      reads this, heap, heap.ready, heap.index, heap.key
    {
      heap.Valid() && KeysMatch(heap.v, s) && heap.Members() == s.ready
    }

    ghost predicate Valid()
      reads this, heap, heap.ready, heap.index, heap.key
    {
      Sound(s) && Coupled(g, cpu, s) && HeapMatches() && Took(Init(), trace, s)
    }

    /** A valid scheduler is the end of a legal run, so all that is proved of runs holds of it. */
    lemma IsRun()
      requires Valid()
      ensures Legal(Init(), trace) && s == Run(Init(), trace)
    {
      TookRun(Init(), trace, s);
    }

    /** `scheduler_init`. */
    constructor ()
      ensures Valid() && trace == [] && fresh(Repr())
    {
      heap := new ReadyHeap();
      g := Global(seq(MAX_TASKS, _ => Tcb(Unused, 0, 0, 0, 0)), seq(MAX_TASKS, i => i), [], seq(MAX_TASKS, _ => false), 0);
      cpu := Cpu([], -1, -1);
      s := Init();
      trace := [];
      new;
      InvAlways([]);
      TookNothing(Init());
      forall t | Slot(t)
        ensures SameAt(g, s, t) && KeyAt(heap.v, s, t)
      {
      }
      forall id | 1 <= id <= MAX_TASKS
        ensures BitAt(g, s, id)
      {
      }
    }

    /** The fields show the state after step `a`: the machine takes the step. */
    method Record(ghost a: Action, ghost s': Sched)
      requires Took(Init(), trace, s) && Enabled(s, a) && s' == Apply(s, a)
      requires Sound(s') && Coupled(g, cpu, s') && heap.Valid() && KeysMatch(heap.v, s') && heap.Members() == s'.ready
      modifies this`s, this`trace
      ensures Valid() && Stepped(old(s), old(trace), a, s, trace)
    {
      TookStep(Init(), trace, s, a);
      s, trace := s', trace + [a];
    }

    /** `_get_min_vruntime`. */
    method MinVruntime() returns (word: int, ghost m: int)
      requires HeapMatches() && Inv(s) && cpu.curr == s.curr
      ensures word == m % WORD && IsMinVruntime(s, m)
      ensures s.ready == {} ==> m == if Slot(s.curr) then s.pool[s.curr].v else 0
    {
      if heap.size > 0 {
        ghost var h := heap.ready[..];
        var t := heap.ready[0];
        word := heap.key[t];
        m := heap.v[t];
        assert t in heap.Members() && KeyAt(heap.v, s, t);
        forall u | u in s.ready && Slot(u)
          ensures m <= s.pool[u].v
        {
          RootIsMinimum(h, heap.v, heap.size, heap.index[u]);
          assert KeyAt(heap.v, s, u);
        }
      } else {
        assert heap.Members() == {};
        if cpu.curr != -1 {
          word := heap.key[cpu.curr];
          m := heap.v[cpu.curr];
          assert KeyAt(heap.v, s, s.curr);
        } else {
          word, m := 0, 0;
        }
      }
    }

    /** A task outside the heap is raised to the minimum and put in. */
    method EnterHeap(t: int) returns (ghost m: int)
      requires HeapMatches() && Inv(s) && cpu.curr == s.curr && Spread(s) && Live(s, t) && t != s.idle && t !in s.ready
      modifies heap, heap.ready, heap.index, heap.key
      ensures heap.Valid() && heap.v == old(heap.v)[t := Max(s.pool[t].v, m)] && heap.Members() == s.ready + {t}
      ensures IsMinVruntime(s, m)
    {
      var word;
      word, m := MinVruntime();
      MinNear(s, m, t);
      assert KeyAt(heap.v, s, t);
      VruntimeLtIsOrder(s.pool[t].v, m);
      if VruntimeLt(heap.key[t], word) {
        heap.SetKey(t, word, m);
      }
      assert heap.v == old(heap.v)[t := Max(s.pool[t].v, m)];
      forall u | u in heap.Members()
        ensures Close(heap.v, t, u)
      {
        assert TaskOk(s, u) && Near(s, u, t) && Near(s, t, u) && KeyAt(old(heap.v), s, u);
        MinNear(s, m, u);
      }
      heap.Insert(t);
    }

    /** A new task starts at the minimum. */
    method EnterNew(t: int) returns (ghost m: int)
      requires HeapMatches() && Inv(s) && cpu.curr == s.curr && Spread(s) && Slot(t) && t !in s.ready
      modifies heap, heap.ready, heap.index, heap.key
      ensures heap.Valid() && heap.v == old(heap.v)[t := m] && heap.Members() == s.ready + {t}
      ensures IsMinVruntime(s, m)
    {
      var word;
      word, m := MinVruntime();
      heap.SetKey(t, word, m);
      forall u | u in heap.Members()
        ensures Close(heap.v, t, u)
      {
        assert TaskOk(s, u) && KeyAt(old(heap.v), s, u);
        MinNear(s, m, u);
      }
      heap.Insert(t);
    }

    /** Waking one task: `_unblock_task_locked`, and `_wake_sleeping_task` after the removal
        from the sleep list when `timeout` holds. */
    method WakeTask(t: int, timeout: bool) returns (ghost m: int)
      requires Valid() && Spread(s) && Slot(t)
      requires g.pool[t].state == Sleeping || (g.pool[t].state == Blocked && !timeout)
      modifies Repr()
      ensures Valid() && Stepped(old(s), old(trace), Wake(t, m, timeout), s, trace)
    {
      assert SameAt(g, s, t) && TaskOk(s, t);
      MarkReady(t, timeout);
      m := EnterHeap(t);
      ghost var s' := WakeStep(old(g), old(cpu), s, old(heap.v), t, m, timeout, g, cpu, heap.v);
      Record(Wake(t, m, timeout), s');
    }

    /** The task is READY, and off the sleep list if it was on it. */
    method MarkReady(t: int, timeout: bool)
      requires |g.pool| == MAX_TASKS && Slot(t) && NoDup(cpu.sleep)
      modifies this`g, this`cpu
      ensures var x := old(g).pool[t];
        && g == old(g).(pool := old(g).pool[t := x.(state := Ready, wake := if x.state == Sleeping && !timeout then 0 else x.wake)])
        && cpu == old(cpu).(sleep := if x.state == Sleeping then Without(old(cpu).sleep, t) else old(cpu).sleep)
    {
      var x := g.pool[t];
      if x.state == Sleeping {
        var q := RemoveFromList(cpu.sleep, t);
        cpu := cpu.(sleep := q);
      }
      g := g.(pool := g.pool[t := x.(state := Ready, wake := if x.state == Sleeping && !timeout then 0 else x.wake)]);
    }

    // -------------------------------------------------------------------------
    // The context switch

    /** First half of `schedule_next_task`: the task leaving the CPU is charged and queued. */
    method ChargeCurrent()
      requires Valid() && Spread(s)
      modifies Repr() - {this}, this`g
      ensures heap.Valid() && heap.Members() == Requeue(s).ready && KeysMatch(heap.v, Requeue(s))
      ensures Coupled(g, cpu, Requeue(s))
    {
      var c := cpu.curr;
      if c == -1 || g.pool[c].state != Running {
        assert c != -1 ==> SameAt(g, s, c);
        return;
      }
      var x := g.pool[c];
      assert SameAt(g, s, c) && TaskOk(s, c) && KeyAt(heap.v, s, c);
      if c == cpu.idle {
        g := g.(pool := g.pool[c := x.(state := Ready)]);
      } else {
        var maxSlice := x.weight * BASE_SLICE_TICKS;
        var ran := maxSlice - x.slice;
        if ran == 0 {
          ran := 1;
        }
        ghost var v := s.pool[c].v + Charge(s.pool[c]);
        ChargeRange(s.pool[c]);
        AddWord(s.pool[c].v, ran * VRUNTIME_SCALER / x.weight);
        heap.SetKey(c, (heap.key[c] + ran * VRUNTIME_SCALER / x.weight) % WORD, v);
        g := g.(pool := g.pool[c := x.(state := Ready, slice := maxSlice)]);
        forall u | u in heap.Members()
          ensures Close(heap.v, c, u)
        {
          assert TaskOk(s, u) && Near(s, u, c) && Near(s, c, u) && KeyAt(old(heap.v), s, u);
        }
        heap.Insert(c);
      }
      Recoupled(old(g), cpu, s, g, cpu, Requeue(s), c);
      Rekeyed(old(heap.v), s, heap.v, Requeue(s), c);
    }

    /** `schedule_next_task`. Neither the fallback nor the panic is reached. */
    method ScheduleNext() returns (panic: bool, ghost best: int)
      requires Valid() && Spread(s) && Slot(cpu.idle)
      modifies Repr()
      ensures Valid() && !panic && Stepped(old(s), old(trace), Switch(best), s, trace)
    {
      ChargeCurrent();
      ghost var mid := Requeue(s);
      var t := heap.PopMin();
      best := t;
      panic := false;
      assert Enabled(s, Switch(best)) by {
        forall u | best != -1 && u in mid.ready && Slot(u)
          ensures mid.pool[best].v <= mid.pool[u].v
        {
          assert KeyAt(heap.v, mid, best) && KeyAt(heap.v, mid, u);
        }
      }
      IdleReady(s);
      assert SameAt(g, mid, cpu.idle);
      var stay := cpu.curr != -1 && (g.pool[cpu.curr].state == Ready || g.pool[cpu.curr].state == Running);
      if t == -1 {
        if cpu.idle != -1 && g.pool[cpu.idle].state == Ready {
          t := cpu.idle;
        } else if stay {
          t := cpu.curr;
        } else {
          return true, best;
        }
      }
      Dispatched(t, best);
    }

    /** The chosen task becomes the current one. */
    method Dispatched(t: int, ghost best: int)
      requires Took(Init(), trace, s) && Sound(s) && Enabled(s, Switch(best))
      requires Coupled(g, cpu, Requeue(s)) && KeysMatch(heap.v, Requeue(s))
      requires heap.Valid() && heap.Members() == Requeue(s).ready - {best}
      requires t == (if best == -1 then s.idle else best) && Slot(t)
      modifies this`g, this`cpu, this`s, this`trace
      ensures Valid() && Stepped(old(s), old(trace), Switch(best), s, trace)
    {
      cpu := cpu.(curr := t);
      g := g.(pool := g.pool[t := g.pool[t].(state := Running)]);
      s := SwitchStep(old(g), old(cpu), s, heap.v, best, g, cpu);
      TookStep(Init(), trace, old(s), Switch(best));
      trace := trace + [Switch(best)];
    }

    /** `scheduler_start`: idle is created if need be, and the first task is dispatched. */
    method Start(first: bool, second: bool) returns (panic: bool)
      requires Valid() && Spread(s) && s.curr == -1
      modifies Repr()
      ensures Valid() && old(trace) <= trace
      ensures panic <==> old(s).idle == -1 && ((old(s).free == [] && old(s).zombies == []) || (!first && !second))
      ensures !panic ==> s.curr != -1 && s.pool[s.curr].state == Running && s.idle != -1
      ensures !panic && s.curr == s.idle ==> s.ready == {}
    {
      if g.count == 0 || cpu.idle == -1 {
        if cpu.idle == -1 {
          var failed := CreateIdle(first, second);
          if failed {
            return true;
          }
        }
      }
      FirstTask();
      panic := false;
    }

    /** The first dispatch: there is no current task to charge. */
    method FirstTask()
      requires Valid() && s.curr == -1 && s.idle != -1
      modifies Repr()
      ensures Valid() && old(trace) <= trace && s.idle == old(s.idle)
      ensures s.curr != -1 && s.pool[s.curr].state == Running && (s.curr == s.idle ==> s.ready == {})
    {
      assert TaskOk(s, s.idle);
      var t := heap.PopMin();
      ghost var best := t;
      assert Enabled(s, Switch(best)) by {
        forall u | best != -1 && u in s.ready && Slot(u)
          ensures s.pool[best].v <= s.pool[u].v
        {
          assert KeyAt(heap.v, s, best) && KeyAt(heap.v, s, u);
        }
      }
      if t == -1 {
        t := cpu.idle;
      }
      Dispatched(t, best);
    }

    // -------------------------------------------------------------------------
    // The tick

    /** `_process_sleep_list`. */
    method ProcessSleepList(now: nat)
      requires Valid() && Spread(s) && AllInTicks(now, s)
      modifies Repr()
      ensures Valid() && Spread(s) && old(trace) <= trace
      ensures s.curr == old(s.curr) && s.idle == old(s.idle)
      ensures forall t {:trigger Roused(old(s), s, now, t)} :: Slot(t) ==> Roused(old(s), s, now, t)
    {
      while cpu.sleep != [] && Due(now, g.pool[cpu.sleep[0]].wake)
        invariant Valid() && Spread(s) && old(trace) <= trace && AllInTicks(now, s)
        invariant s.curr == old(s.curr) && s.idle == old(s.idle)
        invariant forall t {:trigger Rousing(old(s), s, now, t)} :: Slot(t) ==> Rousing(old(s), s, now, t)
        decreases |cpu.sleep|
      {
        ghost var before := s;
        ghost var a := RouseHead(now);
        RousingStep(old(s), before, s, now, before.sleep[0]);
      }
      if cpu.sleep != [] {
        assert SameAt(g, s, cpu.sleep[0]) && InTicks(now, s, s.sleep[0]);
        DueIsOrder(now, s.pool[s.sleep[0]].wake);
      }
      RousedAll(old(s), s, now);
    }

    /** One round of the loop: the head of the sleep list, being due, becomes READY. */
    method RouseHead(now: nat) returns (ghost a: Action)
      requires Valid() && Spread(s) && AllInTicks(now, s) && s.sleep != [] && Due(now, g.pool[cpu.sleep[0]].wake)
      modifies Repr()
      ensures Valid() && Spread(s) && AllInTicks(now, s) && Stepped(old(s), old(trace), a, s, trace)
      ensures s.curr == old(s.curr) && s.idle == old(s.idle) && s.sleep == old(s.sleep)[1..]
      ensures var t := old(s.sleep)[0];
        && old(s).pool[t].state == Sleeping && old(s).pool[t].wake <= now
        && s.pool == old(s).pool[t := s.pool[t]] && s.pool[t].state == Ready
    {
      var t := cpu.sleep[0];
      assert t in s.sleep && TaskOk(s, t) && SameAt(g, s, t) && InTicks(now, s, s.sleep[0]);
      DueIsOrder(now, s.pool[t].wake);
      ghost var m := WakeTask(t, true);
      a := Wake(t, m, true);
      HeadRoused(old(s), a, now);
    }

    method SliceDown()
      requires Valid() && Spread(s) && Enabled(s, SliceTick)
      modifies this`g, this`s, this`trace
      ensures Valid() && Spread(s) && Stepped(old(s), old(trace), SliceTick, s, trace)
    {
      var c := cpu.curr;
      var x := g.pool[c];
      assert SameAt(g, s, c) && KeyAt(heap.v, s, c);
      if x.slice > 0 {
        g := g.(pool := g.pool[c := x.(slice := x.slice - 1)]);
      }
      SoundKept(s, SliceTick);
      s := Apply(s, SliceTick);
      TookStep(Init(), trace, old(s), SliceTick);
      trace := trace + [SliceTick];
      Recoupled(old(g), cpu, old(s), g, cpu, s, c);
      Rekeyed(heap.v, old(s), heap.v, s, c);
      forall t, u | Slot(t) && Slot(u)
        ensures Near(s, t, u)
      {
        assert Near(old(s), t, u);
      }
    }

    /** `scheduler_tick`. Looking only at the head of the sleep list wakes exactly the tasks
        whose time has come; a reschedule is asked for exactly when the running task has
        used up its slice or idle runs while a task is READY. The preemption test never fires. */
    method Tick(now: nat) returns (need: bool)
      requires Valid() && Spread(s) && AllInTicks(now, s)
      modifies Repr()
      ensures Valid() && old(trace) <= trace
      ensures s.curr == old(s.curr) && s.idle == old(s.idle)
      ensures forall t {:trigger Ticked(old(s), s, now, t)} :: Slot(t) ==> Ticked(old(s), s, now, t)
      ensures need <==> s.curr != -1 && ((s.curr == s.idle && s.ready != {})
                                       || (s.curr != s.idle && s.pool[s.curr].state == Running && s.pool[s.curr].slice == 0))
    {
      ProcessSleepList(now);
      ghost var mid := s;
      need := RunDown();
      forall t | Slot(t)
        ensures Ticked(old(s), s, now, t)
      {
        assert Roused(old(s), mid, now, t);
        TickedBy(old(s), mid, s, now, t);
      }
      need := Preempt(need);
    }

    /** The tick as far as the running user task goes: one off its slice. */
    method RunDown() returns (expired: bool)
      requires Valid() && Spread(s)
      modifies Repr()
      ensures Valid() && Spread(s) && old(trace) <= trace
      ensures var runs := Slot(old(s).curr) && old(s).curr != old(s).idle && old(s).pool[old(s).curr].state == Running;
        && s == (if runs then Apply(old(s), SliceTick) else old(s))
        && (expired <==> runs && s.pool[s.curr].slice == 0)
    {
      expired := false;
      var c := cpu.curr;
      if c != -1 {
        assert SameAt(g, s, c) && TaskOk(s, c);
        if g.pool[c].state == Running && c != cpu.idle {
          SliceDown();
          assert SameAt(g, s, c);
          expired := g.pool[c].slice == 0;
        }
      }
    }

    /** The last part of the tick: idle gives way to any READY task; a user task would to one
        with less virtual runtime, of which there is none. */
    method Preempt(expired: bool) returns (need: bool)
      requires Valid() && Spread(s)
      ensures need <==> expired || (s.curr != -1 && s.curr == s.idle && s.ready != {})
    {
      need := expired;
      var c := cpu.curr;
      var some := heap.NonEmpty();
      if c != -1 && c == cpu.idle && some {
        need := true;
      } else {
        var word; ghost var m;
        word, m := MinVruntime();
        if c != -1 {
          NoPreemption(s, m);
          assert KeyAt(heap.v, s, c);
          VruntimeLtIsOrder(m, s.pool[c].v);
          if VruntimeLt(word, heap.key[c]) {
            need := true;
          }
        }
      }
    }

    // -------------------------------------------------------------------------
    // Blocking, sleeping and waking

    /** `task_block`, on a task that is neither SLEEPING nor a zombie. */
    method Block(t: int)
      requires Valid() && Slot(t) && g.pool[t].state != Sleeping && g.pool[t].state != Zombie
      modifies Repr()
      ensures Valid()
      ensures if old(s).pool[t].state == Unused || t == s.idle then s == old(s) && trace == old(trace)
              else Stepped(old(s), old(trace), Action.Block(t), s, trace)
    {
      assert SameAt(g, s, t) && TaskOk(s, t) && KeyAt(heap.v, s, t);
      if g.pool[t].state != Unused && t != cpu.idle {
        if g.pool[t].state == Ready {
          heap.Remove(t);
        }
        g := g.(pool := g.pool[t := g.pool[t].(state := Blocked)]);
        ghost var s' := BlockStep(old(g), cpu, s, heap.v, t, g);
        Record(Action.Block(t), s');
      }
    }

    /** `task_unblock`. */
    method Unblock(t: int) returns (ghost m: int)
      requires Valid() && Spread(s) && Slot(t)
      modifies Repr()
      ensures Valid()
      ensures if old(s).pool[t].state == Blocked || old(s).pool[t].state == Sleeping
              then Stepped(old(s), old(trace), Wake(t, m, false), s, trace) else s == old(s) && trace == old(trace)
    {
      assert SameAt(g, s, t);
      m := 0;
      if g.pool[t].state == Blocked || g.pool[t].state == Sleeping {
        m := WakeTask(t, false);
      }
    }

    /** The current task is taken off the sleep list, where it is not, and its place found. */
    method SleepPlace(wake: nat) returns (q: seq<int>, at: nat)
      requires Valid() && TaskContext(s) && s.curr != -1 && s.curr != s.idle && wake > 0
      ensures q == s.sleep && Enabled(s, Sleep(wake, at))
    {
      var c := cpu.curr;
      assert TaskOk(s, c);
      WithoutAbsent(s.sleep, c);
      q := RemoveFromList(cpu.sleep, c);
      SleepersSorted(g, cpu, s);
      at := SleepPosition(g.pool, q, wake);
      SleepEnabled(g, cpu, s, wake, at);
    }

    /** `task_sleep_ticks`: the current task goes to sleep, unless it is idle or there is none. */
    method SleepTicks(ticks: nat, now: nat) returns (ok: bool, ghost at: nat)
      requires Valid() && TaskContext(s) && now + ticks < TICK_WORD
      modifies Repr()
      ensures Valid() && (ok <==> ticks > 0 && s.curr != -1 && s.curr != s.idle)
      ensures if ok then Stepped(old(s), old(trace), Sleep(now + ticks, at), s, trace) else s == old(s) && trace == old(trace)
    {
      at := 0;
      ok := false;
      var c := cpu.curr;
      if ticks == 0 || c == -1 || c == cpu.idle {
        return;
      }
      var q, pos := SleepPlace(now + ticks);
      at := pos;
      g := g.(pool := g.pool[c := g.pool[c].(state := Sleeping, wake := now + ticks)]);
      cpu := cpu.(sleep := Insert(q, pos, c));
      s := SleepStep(old(g), old(cpu), s, heap.v, now + ticks, at, g, cpu);
      TookStep(Init(), trace, old(s), Sleep(now + ticks, at));
      trace := trace + [Sleep(now + ticks, at)];
      ok := true;
    }

    // -------------------------------------------------------------------------
    // Creation, deletion and garbage collection

    /** `_task_garbage_collection_locked`: every zombie slot goes back to the free list. */
    method CollectAll()
      requires Valid() && Spread(s) && TaskContext(s)
      modifies this`g, this`s, this`trace
      ensures Valid() && Spread(s) && TaskContext(s) && old(trace) <= trace
      ensures Swept(old(s), s) && s.zombies == []
    {
      while g.zombies != []
        invariant Valid() && Spread(s) && TaskContext(s) && old(trace) <= trace
        invariant Swept(old(s), s)
        decreases |g.zombies|
      {
        CollectOne();
      }
    }

    method CollectOne()
      requires Valid() && Spread(s) && TaskContext(s) && s.zombies != []
      modifies this`g, this`s, this`trace
      ensures Valid() && Spread(s) && TaskContext(s) && Stepped(old(s), old(trace), Collect, s, trace)
      ensures Swept(old(s), s) && g.zombies == old(g.zombies)[1..]
    {
      var t := g.zombies[0];
      assert t in s.zombies && SlotOk(s, t) && SameAt(g, s, t) && KeyAt(heap.v, s, t);
      FreeNotFull(s, t);
      g := g.(pool := g.pool[t := g.pool[t].(state := Unused)], zombies := g.zombies[1..], free := [t] + g.free,
              count := if g.count > 0 then g.count - 1 else g.count);
      SoundKept(s, Collect);
      s := Apply(s, Collect);
      TookStep(Init(), trace, old(s), Collect);
      trace := trace + [Collect];
      Recoupled(old(g), cpu, old(s), g, cpu, s, t);
      Rekeyed(heap.v, old(s), heap.v, s, t);
      assert s.pool == old(s).pool[t := old(s).pool[t].(state := Unused)];
      forall u | Slot(u)
        ensures s.pool[u].v == old(s).pool[u].v && (Live(s, u) ==> Live(old(s), u))
      {
      }
      SpreadSame(old(s), s);
    }

    /** `_task_delete_locked` after the lookup: task `t`, neither idle nor current, becomes a zombie. */
    method DeleteTask(t: int)
      requires Valid() && TaskContext(s) && Live(s, t) && t != s.idle && t != s.curr
      modifies Repr()
      ensures Valid() && Stepped(old(s), old(trace), Action.Delete(t), s, trace)
    {
      var x := g.pool[t];
      assert SameAt(g, s, t) && TaskOk(s, t) && SlotOk(s, t) && KeyAt(heap.v, s, t);
      heap.Remove(t);
      if x.wake > 0 {
        var q := RemoveFromList(cpu.sleep, t);
        cpu := cpu.(sleep := q);
      }
      g := g.(pool := g.pool[t := x.(state := Zombie, id := 0)], ids := g.ids[x.id - 1 := false], zombies := [t] + g.zombies);
      ghost var s' := DeleteStep(old(g), old(cpu), s, heap.v, t, g, cpu);
      Record(Action.Delete(t), s');
    }

    /** `task_exit` up to its final yield. */
    method ExitTask()
      requires Valid() && TaskContext(s) && s.curr != s.idle && s.curr != -1
      modifies this`g, this`s, this`trace
      ensures Valid() && Stepped(old(s), old(trace), Exit, s, trace)
    {
      var c := cpu.curr;
      var x := g.pool[c];
      assert SameAt(g, s, c) && SlotOk(s, c) && TaskOk(s, c) && KeyAt(heap.v, s, c);
      g := g.(pool := g.pool[c := x.(state := Zombie, id := 0)], ids := g.ids[x.id - 1 := false], zombies := [c] + g.zombies);
      SoundKept(s, Exit);
      s := Apply(s, Exit);
      TookStep(Init(), trace, old(s), Exit);
      trace := trace + [Exit];
      RecoupledId(old(g), cpu, old(s), g, s, c, x.id, false);
      Rekeyed(heap.v, old(s), heap.v, s, c);
    }

    /** `task_delete`, except that idle does not delete itself. */
    method Delete(id: nat) returns (ok: bool, ghost t: int)
      requires Valid() && TaskContext(s) && (Slot(s.curr) && s.curr == s.idle ==> id != s.pool[s.curr].id)
      modifies Repr()
      ensures Valid() && (ok <==> id > 0 && exists u :: Live(old(s), u) && old(s).pool[u].id == id && u != s.idle)
      ensures ok ==> Live(old(s), t) && old(s).pool[t].id == id
      ensures if !ok then s == old(s) && trace == old(trace)
              else if t == old(s).curr then Stepped(old(s), old(trace), Exit, s, trace)
              else Stepped(old(s), old(trace), Action.Delete(t), s, trace)
    {
      ok, t := false, -1;
      if id == 0 {
        return;
      }
      var c := cpu.curr;
      if c != -1 {
        assert SameAt(g, s, c) && SlotOk(s, c);
        if g.pool[c].id == id {
          ExitTask();
          return true, c;
        }
      }
      var u := Find(id);
      t := u;
      if u == -1 || u == cpu.idle {
        if u != -1 { OnlyOne(s, u); }
        return;
      }
      DeleteTask(u);
      ok := true;
    }

    /** The scan of the pool for a task ID. */
    method Find(id: nat) returns (t: int)
      requires Valid() && id > 0
      ensures if t == -1 then forall u :: Live(s, u) ==> s.pool[u].id != id else Live(s, t) && s.pool[t].id == id
    {
      t := 0;
      while t < MAX_TASKS
        invariant 0 <= t <= MAX_TASKS && forall u :: 0 <= u < t ==> s.pool[u].id != id
      {
        assert SameAt(g, s, t) && SlotOk(s, t);
        if g.pool[t].id == id {
          return;
        }
        t := t + 1;
      }
      t := -1;
    }

    /** The scan of the bitmap: the least free ID, or 0. */
    method FirstFreeId() returns (id: nat)
      requires Valid()
      ensures if id == 0 then forall i :: 1 <= i <= MAX_TASKS ==> i in s.ids
              else id <= MAX_TASKS && id !in s.ids && forall i :: 1 <= i < id ==> i in s.ids
    {
      id := 1;
      while id <= MAX_TASKS
        invariant 1 <= id <= MAX_TASKS + 1 && forall i :: 1 <= i < id ==> i in s.ids
      {
        assert BitAt(g, s, id);
        if !g.ids[id - 1] {
          return;
        }
        id := id + 1;
      }
      id := 0;
    }

    /** The part of `task_create` that sets up the slot it took from the free list. */
    method Install(weight: nat, id: nat) returns (ghost t: int, ghost m: int)
      requires Valid() && Spread(s) && TaskContext(s) && weight <= 255 && s.free != []
      requires 1 <= id <= MAX_TASKS && id !in s.ids && forall i :: 1 <= i < id ==> i in s.ids
      modifies Repr()
      ensures Valid() && Stepped(old(s), old(trace), Create(weight, t, id, m), s, trace)
    {
      var slot := g.free[0];
      t := slot;
      assert t in s.free && SlotOk(s, t) && TaskOk(s, t);
      m := EnterNew(slot);
      var w := if weight == 0 then 1 else weight;
      g := g.(pool := g.pool[slot := Tcb(Ready, w, w * BASE_SLICE_TICKS, 0, id)], free := g.free[1..],
              ids := g.ids[id - 1 := true], count := g.count + 1);
      s := CreateStep(old(g), cpu, s, old(heap.v), Create(weight, t, id, m), g, heap.v);
      TookStep(Init(), trace, old(s), Create(weight, t, id, m));
      trace := trace + [Create(weight, t, id, m)];
    }

    /** `task_create`. `valid` says whether the arguments pass the checks; `first` and `second`
        are the outcomes of the two allocations. It fails exactly when the arguments are bad,
        no slot is free or reclaimable, or both allocations fail; in particular it never runs
        out of IDs. */
    method CreateTask(weight: nat, valid: bool, first: bool, second: bool) returns (id: int, ghost t: int)
      requires Valid() && Spread(s) && TaskContext(s) && weight <= 255
      modifies Repr()
      ensures Valid() && old(trace) <= trace && s.curr == old(s).curr && s.idle == old(s).idle
      ensures id == -1 || 1 <= id <= MAX_TASKS
      ensures id != -1 <==> valid && (old(s).free != [] || old(s).zombies != []) && (first || second)
      ensures if id == -1 then Swept(old(s), s) else Created(old(s), s, weight, t, id)
    {
      t := -1;
      if !valid {
        return -1, t;
      }
      var got := TakeSlot(first, second);
      if !got {
        return -1, t;
      }
      var newId := FirstFreeId();
      FreeSlotHasFreeId(s);
      if newId == 0 {
        return -1, t;
      }
      ghost var mid, m := s, 0;
      t, m := Install(weight, newId);
      SweptCreated(old(s), mid, Create(weight, t, newId, m));
      id := newId;
    }

    /** The part of `task_create` up to a slot and a stack: it collects zombies when no slot is
        free, and again, before the second attempt, when the first allocation fails. */
    method TakeSlot(first: bool, second: bool) returns (got: bool)
      requires Valid() && Spread(s) && TaskContext(s)
      modifies this`g, this`s, this`trace
      ensures Valid() && Spread(s) && TaskContext(s) && old(trace) <= trace && Swept(old(s), s)
      ensures got <==> (old(s).free != [] || old(s).zombies != []) && (first || second)
      ensures got ==> s.free != []
    {
      if g.free == [] {
        CollectAll();
      }
      if g.free == [] {
        return false;
      }
      if !first {
        CollectAll();
        if g.free == [] || !second {
          return false;
        }
      }
      got := true;
    }

    /** `_task_create_idle` on a scheduler without an idle task, before the start. */
    method CreateIdle(first: bool, second: bool) returns (panic: bool)
      requires Valid() && Spread(s) && s.curr == -1 && s.idle == -1
      modifies Repr()
      ensures Valid() && old(trace) <= trace && s.curr == -1
      ensures panic <==> (old(s).free == [] && old(s).zombies == []) || (!first && !second)
      ensures !panic ==> s.idle != -1 && Live(s, s.idle) && !Live(old(s), s.idle)
    {
      var id; ghost var made;
      id, made := CreateTask(TASK_WEIGHT_IDLE, true, first, second);
      if id == -1 {
        return true;
      }
      var t := Find(id);
      OnlyOne(s, made);
      assert t == made;
      MakeIdle(t);
      panic := false;
    }

    method MakeIdle(t: int)
      requires Valid() && s.curr == -1 && s.idle == -1 && t in s.ready
      modifies Repr()
      ensures Valid() && Slot(t) && Stepped(old(s), old(trace), Action.MarkIdle(t), s, trace)
    {
      assert SameAt(g, s, t) && KeyAt(heap.v, s, t);
      cpu := cpu.(idle := t);
      heap.Remove(t);
      SoundKept(s, Action.MarkIdle(t));
      s := Apply(s, Action.MarkIdle(t));
      TookStep(Init(), trace, old(s), Action.MarkIdle(t));
      trace := trace + [Action.MarkIdle(t)];
      Recoupled(g, old(cpu), old(s), g, cpu, s, t);
      Rekeyed(heap.v, old(s), heap.v, s, t);
    }
  }

  const TASK_WEIGHT_IDLE := 1

  /** A new READY task sits in a slot that held no live task; all live tasks are as before. */
  ghost predicate Created(s: Sched, s': Sched, weight: int, t: int, id: int) {
    && |s.pool| == MAX_TASKS && |s'.pool| == MAX_TASKS
    && Slot(t) && !Live(s, t) && t in s'.ready
    && (var x := s'.pool[t];
        && x.state == Ready && x.id == id && id !in s.ids && x.wake == 0
        && x.weight == (if weight == 0 then 1 else weight) && x.slice == x.weight * BASE_SLICE_TICKS)
    && (forall u {:trigger s'.pool[u]} :: Live(s, u) ==> s'.pool[u] == s.pool[u])
  }

  /** A free slot after garbage collection held no live task before. */
  lemma SweptCreated(s: Sched, mid: Sched, a: Action)
    requires Inv(s) && Inv(mid) && Swept(s, mid) && a.Create? && Enabled(mid, a)
    ensures Created(s, Apply(mid, a), a.weight, a.t, a.id)
  {
    assert a.t in mid.free && SlotOk(mid, a.t);
  }

  /** IDs tell live tasks apart. */
  lemma OnlyOne(s: Sched, t: int)
    requires Inv(s) && Live(s, t)
    ensures forall u :: Live(s, u) && s.pool[u].id == s.pool[t].id ==> u == t
  {
    forall u | Live(s, u) && s.pool[u].id == s.pool[t].id
      ensures u == t
    {
      assert IdsDiffer(s, t, u);
    }
  }

  /** Garbage collection changes nothing but zombies, which become free slots. */
  ghost predicate Swept(s: Sched, s': Sched) {
    && |s.pool| == MAX_TASKS && |s'.pool| == MAX_TASKS
    && (forall t {:trigger s'.pool[t]} :: 0 <= t < MAX_TASKS ==>
          s'.pool[t] == s.pool[t] || (s.pool[t].state == Zombie && s'.pool[t] == s.pool[t].(state := Unused)))
    && |s'.free| + |s'.zombies| == |s.free| + |s.zombies|
    && s'.ready == s.ready && s'.sleep == s.sleep && s'.ids == s.ids && s'.curr == s.curr && s'.idle == s.idle
  }

  /** A step that changes no virtual runtime and revives no task keeps the window. */
  lemma SpreadSame(s: Sched, s': Sched)
    requires Spread(s) && |s'.pool| == MAX_TASKS && s'.curr == s.curr && s'.idle == s.idle
    requires forall t {:trigger s'.pool[t]} :: Slot(t) ==> s'.pool[t].v == s.pool[t].v && (Live(s', t) ==> Live(s, t))
    ensures Spread(s')
  {
    forall t, u | Slot(t) && Slot(u)
      ensures Near(s', t, u)
    {
      assert Near(s, t, u);
    }
  }

  /** The sleep list is sorted in the fields as it is in the state. */
  lemma SleepersSorted(g: Global, cpu: Cpu, s: Sched)
    requires Coupled(g, cpu, s) && Sound(s)
    ensures forall i :: 0 <= i < |cpu.sleep| ==> 0 <= cpu.sleep[i] < MAX_TASKS
    ensures forall i, j :: 0 <= i < j < |cpu.sleep| ==> g.pool[cpu.sleep[i]].wake <= g.pool[cpu.sleep[j]].wake
  {
    forall i, j | 0 <= i < j < |cpu.sleep|
      ensures g.pool[cpu.sleep[i]].wake <= g.pool[cpu.sleep[j]].wake
    {
      assert SameAt(g, s, cpu.sleep[i]) && SameAt(g, s, cpu.sleep[j]);
      assert Wakes(s.pool, s.sleep)[i] <= Wakes(s.pool, s.sleep)[j];
    }
  }

  lemma SleepEnabled(g: Global, cpu: Cpu, s: Sched, wake: nat, at: nat)
    requires Coupled(g, cpu, s) && Inv(s) && Slot(s.curr) && s.curr != s.idle && TaskContext(s) && wake > 0 && at <= |s.sleep|
    requires forall i :: 0 <= i < at ==> g.pool[s.sleep[i]].wake <= wake
    requires forall i :: at <= i < |s.sleep| ==> wake <= g.pool[s.sleep[i]].wake
    ensures Enabled(s, Sleep(wake, at))
  {
    forall i | 0 <= i < |s.sleep|
      ensures if i < at then s.pool[s.sleep[i]].wake <= wake else wake <= s.pool[s.sleep[i]].wake
    {
      assert SameAt(g, s, s.sleep[i]);
    }
  }

  /** The tick counter does not wrap and sleeps are below 2^31. */
  ghost predicate InTicks(now: int, s: Sched, t: int)
    requires |s.pool| == MAX_TASKS
  {
    Slot(t) ==> s.pool[t].wake < TICK_WORD && -TICK_HALF <= now - s.pool[t].wake < TICK_HALF
  }

  ghost predicate AllInTicks(now: int, s: Sched) {
    && |s.pool| == MAX_TASKS && 0 <= now < TICK_WORD
    && forall i :: 0 <= i < |s.sleep| ==> InTicks(now, s, s.sleep[i])
  }

  /** Waking the head of the sleep list at its time. */
  lemma HeadRoused(s: Sched, a: Action, now: int)
    requires Inv(s) && Spread(s) && AllInTicks(now, s) && a.Wake? && a.timeout && Enabled(s, a)
    requires s.sleep != [] && a.t == s.sleep[0] && s.pool[a.t].state == Sleeping
    ensures var s' := Apply(s, a);
      && Spread(s') && AllInTicks(now, s') && s'.sleep == s.sleep[1..] && s'.curr == s.curr && s'.idle == s.idle
      && s'.pool == s.pool[a.t := s'.pool[a.t]] && s'.pool[a.t].state == Ready
  {
    var s' := Apply(s, a);
    SpreadKept(s, a);
    WithoutSplit(s.sleep, 0);
    assert s'.sleep == s.sleep[1..];
    forall i | 0 <= i < |s'.sleep|
      ensures InTicks(now, s', s'.sleep[i])
    {
      assert InTicks(now, s, s.sleep[i + 1]);
    }
  }

  /** Task `t` is untouched, or it was due and is READY now. */
  ghost predicate Rousing(s: Sched, s': Sched, now: int, t: int)
    requires |s.pool| == MAX_TASKS && |s'.pool| == MAX_TASKS && Slot(t)
  {
    s'.pool[t] == s.pool[t] || (s.pool[t].state == Sleeping && s.pool[t].wake <= now && s'.pool[t].state == Ready)
  }

  /** Exactly the sleepers whose time has come are READY; nothing else changed. */
  ghost predicate Roused(s: Sched, s': Sched, now: int, t: int)
    requires |s.pool| == MAX_TASKS && |s'.pool| == MAX_TASKS && Slot(t)
  {
    if s.pool[t].state == Sleeping && s.pool[t].wake <= now then s'.pool[t].state == Ready
    else s'.pool[t] == s.pool[t]
  }

  lemma RousingStep(s: Sched, mid: Sched, s': Sched, now: int, t: int)
    requires |s.pool| == MAX_TASKS && |mid.pool| == MAX_TASKS && |s'.pool| == MAX_TASKS && Slot(t)
    requires forall u {:trigger Rousing(s, mid, now, u)} :: Slot(u) ==> Rousing(s, mid, now, u)
    requires s'.pool == mid.pool[t := s'.pool[t]] && s'.pool[t].state == Ready
    requires mid.pool[t].state == Sleeping && mid.pool[t].wake <= now
    ensures forall u {:trigger Rousing(s, s', now, u)} :: Slot(u) ==> Rousing(s, s', now, u)
  {
    forall u | Slot(u)
      ensures Rousing(s, s', now, u)
    {
      assert Rousing(s, mid, now, u);
    }
  }

  /** When the head of a sorted sleep list is not due, nothing on it is. */
  lemma RousedAll(s: Sched, s': Sched, now: int)
    requires |s.pool| == MAX_TASKS && Sound(s')
    requires forall u {:trigger Rousing(s, s', now, u)} :: Slot(u) ==> Rousing(s, s', now, u)
    requires s'.sleep != [] ==> now < s'.pool[s'.sleep[0]].wake
    ensures forall t {:trigger Roused(s, s', now, t)} :: Slot(t) ==> Roused(s, s', now, t)
  {
    forall t | Slot(t)
      ensures Roused(s, s', now, t)
    {
      assert Rousing(s, s', now, t) && TaskOk(s', t);
      if s'.pool[t].state == Sleeping {
        var i :| 0 <= i < |s'.sleep| && s'.sleep[i] == t;
        assert Wakes(s'.pool, s'.sleep)[0] <= Wakes(s'.pool, s'.sleep)[i];
      }
    }
  }

  /** The minimum is never below the task on the CPU, unless idle runs beside READY tasks. */
  lemma NoPreemption(s: Sched, m: int)
    requires Sound(s) && Spread(s) && IsMinVruntime(s, m) && Slot(s.curr) && (s.curr == s.idle ==> s.ready == {})
    ensures s.pool[s.curr].v <= m && -HALF < m - s.pool[s.curr].v < HALF
  {
    MinNear(s, m, s.curr);
    if s.curr != s.idle { MinNotBehind(s, m); }
  }

  /** What a tick does to one task. */
  ghost predicate Ticked(s: Sched, s': Sched, now: int, t: int)
    requires |s.pool| == MAX_TASKS && |s'.pool| == MAX_TASKS && Slot(t)
  {
    if s.pool[t].state == Sleeping && s.pool[t].wake <= now then s'.pool[t].state == Ready
    else if t == s.curr && t != s.idle && s.pool[t].state == Running && s.pool[t].slice > 0 then
      s'.pool[t] == s.pool[t].(slice := s.pool[t].slice - 1)
    else s'.pool[t] == s.pool[t]
  }

  /** Rousing the sleepers, then the slice of the running user task. */
  lemma TickedBy(s: Sched, mid: Sched, s': Sched, now: int, t: int)
    requires |s.pool| == MAX_TASKS && |mid.pool| == MAX_TASKS && |s'.pool| == MAX_TASKS && Slot(t)
    requires Roused(s, mid, now, t) && mid.curr == s.curr && mid.idle == s.idle && QueuesOk(s)
    requires s' == if Slot(mid.curr) && mid.curr != mid.idle && mid.pool[mid.curr].state == Running then Apply(mid, SliceTick) else mid
    ensures Ticked(s, s', now, t)
  {
    assert TaskOk(s, t);
  }

  /** Between the halves of a switch idle is READY and not in the heap. */
  lemma IdleReady(s: Sched)
    requires Inv(s) && Slot(s.idle)
    ensures Requeue(s).pool[s.idle].state == Ready && s.idle !in Requeue(s).ready
  {
    assert TaskOk(s, s.idle);
    if Slot(s.curr) { assert TaskOk(s, s.curr); }
  }

  lemma AddWord(v: int, charge: int)
    ensures (v % WORD + charge) % WORD == (v + charge) % WORD
  {
    Residue(v % WORD + charge, (v + charge) % WORD, v / WORD - (v + charge) / WORD, WORD);
  }
}
