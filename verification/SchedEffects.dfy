/** What each step of the scheduler does, in every state that satisfies the invariants, to the
    task it is about, to all other tasks, and to the sets of READY, sleeping and live tasks. */
module SchedEffects {
  import opened Common
  import opened SchedModel
  import opened SchedInvariants
  import opened SchedFairness

  /** Nobody but `t` notices, and the CPU is not taken from anybody. */
  ghost predicate OnlyFor(s: Sched, s': Sched, t: int) {
    && |s.pool| == |s'.pool| == MAX_TASKS && s'.curr == s.curr && s'.idle == s.idle
    && (forall u :: Slot(u) && u != t ==> s'.pool[u] == s.pool[u])
    && (forall u :: u != t ==> (u in s'.ready <==> u in s.ready) && (u in s'.sleep <==> u in s.sleep))
  }

  /** A task comes to life, READY at the minimum with a full slice and an ID of its own. */
  lemma Creates(s: Sched, a: Action)
    requires Inv(s) && a.Create? && Enabled(s, a)
    ensures var s' := Apply(s, a);
      && OnlyFor(s, s', a.t) && a.t !in LiveTasks(s) && LiveTasks(s') == LiveTasks(s) + {a.t}
      && a.t in s'.ready && a.t !in s'.sleep && a.t !in s'.free
      && (var x := s'.pool[a.t];
          && x.state == Ready && x.v == a.m && x.id == a.id && x.slice == 2 * x.weight
          && x.weight == if a.weight == 0 then 1 else a.weight)
      && (forall u :: u in LiveTasks(s) ==> s.pool[u].id != a.id)
  {
    var t := a.t;
    assert t in s.free && SlotOk(s, t) && TaskOk(s, t);
    forall u | u in LiveTasks(s)
      ensures s.pool[u].id != a.id && u != t
    {
      assert SlotOk(s, u);
    }
  }

  /** The task that exits, or is deleted, is live no more; it is in no queue, its ID is free, and
      its slot waits to be collected. */
  lemma Kills(s: Sched, a: Action, t: int)
    requires Inv(s) && Enabled(s, a) && ((a.Exit? && t == s.curr) || (a.Delete? && t == a.t))
    ensures var s' := Apply(s, a);
      && OnlyFor(s, s', t) && t in LiveTasks(s) && LiveTasks(s') == LiveTasks(s) - {t}
      && t in s'.zombies && t !in s'.ready && t !in s'.sleep
      && s.pool[t].id !in s'.ids && (forall u :: u in LiveTasks(s') ==> s.pool[u].id in s'.ids)
  {
    assert TaskOk(s, t) && SlotOk(s, t);
    forall u | u in LiveTasks(s) && u != t
      ensures s.pool[u].id in s.ids && s.pool[u].id != s.pool[t].id
    {
      assert SlotOk(s, u) && IdsDiffer(s, u, t);
    }
    forall u
      ensures u in Without(s.sleep, t) <==> u in s.sleep && u != t
    {
      WithoutMembers(s.sleep, t, u);
    }
  }

  /** A BLOCKED or SLEEPING task becomes READY, not behind the minimum; a sleeper leaves the
      sleep list. */
  lemma Wakes(s: Sched, a: Action)
    requires Inv(s) && a.Wake? && Enabled(s, a)
    ensures var s' := Apply(s, a);
      && OnlyFor(s, s', a.t) && s'.pool[a.t].state == Ready && a.t in s'.ready && a.t !in s'.sleep
      && (var x, y := s.pool[a.t], s'.pool[a.t];
          && y.weight == x.weight && y.slice == x.slice && y.id == x.id
          && y.v >= x.v && y.v >= a.m && (y.v == x.v || y.v == a.m))
  {
    assert TaskOk(s, a.t);
    forall u
      ensures u in Without(s.sleep, a.t) <==> u in s.sleep && u != a.t
    {
      WithoutMembers(s.sleep, a.t, u);
    }
  }

  /** A task becomes BLOCKED and is in no queue, with its account as it was. */
  lemma Blocks(s: Sched, a: Action)
    requires Inv(s) && a.Block? && Enabled(s, a)
    ensures var s' := Apply(s, a);
      && OnlyFor(s, s', a.t) && s'.pool[a.t] == s.pool[a.t].(state := Blocked) && a.t !in s'.ready && a.t !in s'.sleep
  {
    assert TaskOk(s, a.t);
  }

  /** The current task becomes SLEEPING until the given tick, on the sleep list only. */
  lemma Sleeps(s: Sched, a: Action)
    requires Inv(s) && a.Sleep? && Enabled(s, a)
    ensures var s' := Apply(s, a);
      && OnlyFor(s, s', s.curr) && s'.pool[s.curr] == s.pool[s.curr].(state := Sleeping, wake := a.wake)
      && s.curr in s'.sleep && s.curr !in s'.ready
  {
    assert TaskOk(s, s.curr);
    forall u
      ensures u in Insert(s.sleep, a.at, s.curr) <==> u in s.sleep || u == s.curr
    {
      InsertMembers(s.sleep, a.at, s.curr, u);
    }
  }

  /** A tick takes one off the slice of the current task, down to zero. */
  lemma TicksDown(s: Sched, a: Action)
    requires Inv(s) && a.SliceTick? && Enabled(s, a)
    ensures var s' := Apply(s, a);
      && OnlyFor(s, s', s.curr) && s'.ready == s.ready && s'.sleep == s.sleep
      && (var x, y := s.pool[s.curr], s'.pool[s.curr];
          y == x.(slice := y.slice) && (x.slice == 0 ==> y.slice == 0) && (x.slice > 0 ==> y.slice == x.slice - 1))
  {
  }

  /** A switch: the task leaving the CPU, if it is still RUNNING, goes back to READY with a full
      slice and more virtual runtime; everybody else keeps theirs. */
  lemma Leaves(s: Sched, a: Action)
    requires Inv(s) && a.Switch? && Enabled(s, a)
    ensures var s', c := Apply(s, a), s.curr;
      && s'.idle == s.idle && s'.sleep == s.sleep
      && (forall u :: Slot(u) && u != c ==> s'.pool[u] == s.pool[u].(state := s'.pool[u].state))
      && (Slot(c) && c != s.idle && s.pool[c].state == Running ==>
            && s'.curr != s.idle && (c in s'.ready || s'.curr == c)
            && s'.pool[c].v > s.pool[c].v && s'.pool[c].slice == 2 * s.pool[c].weight)
      && (Slot(c) && c != s'.curr && s.pool[c].state != Running ==> s'.pool[c] == s.pool[c])
  {
    assert TaskOk(s, s.idle);
    if Slot(s.curr) {
      assert TaskOk(s, s.curr);
      if Live(s, s.curr) { ChargeRange(s.pool[s.curr]); }
    }
  }

  /** The next one is a user task with the least virtual runtime, or idle if there is none, and
      nobody else's state changes. */
  lemma Takes(s: Sched, a: Action)
    requires Inv(s) && a.Switch? && Enabled(s, a)
    ensures var s' := Apply(s, a);
      && Slot(s'.curr) && s'.pool[s'.curr].state == Running && s'.curr !in s'.ready
      && (forall u :: u in s'.ready && Slot(u) && s'.curr != s.idle ==> s'.pool[s'.curr].v <= s'.pool[u].v)
      && (s'.curr == s.idle ==> s'.ready == {})
      && (forall u :: u != s.curr && u != s'.curr ==>
            (u in s'.ready <==> u in s.ready) && (Slot(u) ==> s'.pool[u].state == s.pool[u].state))
  {
    assert TaskOk(s, s.idle);
    if Slot(s.curr) { assert TaskOk(s, s.curr); }
  }

  /** The oldest zombie slot becomes free, and nobody notices. */
  lemma Collects(s: Sched, a: Action)
    requires Inv(s) && a.Collect? && Enabled(s, a)
    ensures var s', t := Apply(s, a), s.zombies[0];
      && OnlyFor(s, s', t) && LiveTasks(s') == LiveTasks(s) && t in s'.free && t !in s'.zombies && s'.count == s.count - 1
      && s'.ready == s.ready && s'.sleep == s.sleep
  {
    var t := s.zombies[0];
    assert t in s.zombies && SlotOk(s, t) && TaskOk(s, t);
    assert t !in s.zombies[1..] by {
      assert forall i :: 0 <= i < |s.zombies| - 1 ==> s.zombies[1..][i] == s.zombies[i + 1];
    }
    CountIs(s);
  }
}
