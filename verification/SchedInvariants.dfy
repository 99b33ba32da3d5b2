/** States and queues agree in every reachable state of the scheduler. */
module SchedInvariants {
  import opened Common
  import opened SchedModel

  /** What the state of one task says about the queues. */
  ghost predicate TaskOk(s: Sched, t: int)
    requires |s.pool| == MAX_TASKS && Slot(t)
  {
    var x := s.pool[t];
    && (t in s.ready <==> x.state == Ready && t != s.idle)
    && (t in s.sleep <==> x.state == Sleeping)
    && (x.state == Running ==> t == s.curr)
    && (x.state == Sleeping ==> x.wake > 0)
    && (t == s.idle ==> x.state == Ready || x.state == Running)
    && (t == s.idle && t == s.curr ==> x.state == Running)
    && (Live(s, t) ==> 1 <= x.weight <= 255 && x.slice <= x.weight * BASE_SLICE_TICKS)
  }

  /** READY tasks are exactly the heap, SLEEPING tasks exactly the sleep list (each once),
      only the current task is RUNNING, and idle is always READY or RUNNING. */
  ghost predicate QueuesOk(s: Sched) {
    && |s.pool| == MAX_TASKS
    && (forall t {:trigger TaskOk(s, t)} :: Slot(t) ==> TaskOk(s, t))
    && (forall t :: t in s.ready ==> Slot(t))
    && (forall i :: 0 <= i < |s.sleep| ==> Slot(s.sleep[i]))
    && NoDup(s.sleep)
    && -1 <= s.curr < MAX_TASKS && -1 <= s.idle < MAX_TASKS
    && (s.curr >= 0 ==> s.idle >= 0 && s.pool[s.curr].state != Unused)
  }

  /** What the state of one slot says about the free and zombie lists and the ID bitmap. */
  ghost predicate SlotOk(s: Sched, t: int)
    requires |s.pool| == MAX_TASKS && Slot(t)
  {
    var x := s.pool[t];
    && (t in s.free <==> x.state == Unused)
    && (t in s.zombies <==> x.state == Zombie)
    && (if Live(s, t) then 1 <= x.id <= MAX_TASKS && x.id in s.ids else x.id == 0)
  }

  ghost predicate IdsDiffer(s: Sched, t: int, u: int)
    requires |s.pool| == MAX_TASKS && Slot(t) && Slot(u)
  {
    Live(s, t) && Live(s, u) && t != u ==> s.pool[t].id != s.pool[u].id
  }

  /** Some live task has this ID. */
  ghost predicate Owned(s: Sched, id: int)
    requires |s.pool| == MAX_TASKS
  {
    exists t :: Live(s, t) && s.pool[t].id == id
  }

  /** Every slot is in exactly one of free, zombie or live; the count is live plus zombie;
      live IDs are distinct and are exactly the set bits. */
  ghost predicate PoolOk(s: Sched) {
    && |s.pool| == MAX_TASKS
    && (forall t {:trigger SlotOk(s, t)} :: Slot(t) ==> SlotOk(s, t))
    && (forall i :: 0 <= i < |s.free| ==> Slot(s.free[i]))
    && (forall i :: 0 <= i < |s.zombies| ==> Slot(s.zombies[i]))
    && NoDup(s.free) && NoDup(s.zombies)
    && s.count == MAX_TASKS - |s.free|
    && (forall t, u {:trigger IdsDiffer(s, t, u)} :: Slot(t) && Slot(u) ==> IdsDiffer(s, t, u))
    && (forall id {:trigger Owned(s, id)} :: id in s.ids ==> Owned(s, id))
  }

  /** What holds in every reachable state. */
  ghost predicate Inv(s: Sched) {
    QueuesOk(s) && PoolOk(s)
  }

  // ---------------------------------------------------------------------------
  // Removing and inserting list elements

  lemma WithoutMembers(q: seq<int>, x: int, y: int)
    ensures y in Without(q, x) <==> y in q && y != x
  {
    if q != [] {
      assert q == [q[0]] + q[1..];
      WithoutMembers(q[1..], x, y);
    }
  }

  lemma {:induction false} WithoutNoDup(q: seq<int>, x: int)
    requires NoDup(q)
    ensures NoDup(Without(q, x))
  {
    if q != [] {
      WithoutNoDup(q[1..], x);
      var r := Without(q[1..], x);
      if q[0] != x {
        forall j | 0 <= j < |r|
          ensures r[j] != q[0]
        {
          WithoutMembers(q[1..], x, r[j]);
        }
      }
    }
  }

  lemma InsertMembers(q: seq<int>, at: nat, x: int, y: int)
    requires at <= |q|
    ensures y in Insert(q, at, x) <==> y in q || y == x
  {
    assert q == q[..at] + q[at..];
  }

  lemma InsertNoDup(q: seq<int>, at: nat, x: int)
    requires at <= |q| && NoDup(q) && x !in q
    ensures NoDup(Insert(q, at, x))
  {
    assert forall k :: 0 <= k < |q| ==> q[k] in q;
  }

  // ---------------------------------------------------------------------------
  // Every step keeps states and queues in agreement

  lemma CreateQueues(s: Sched, a: Action)
    requires Inv(s) && a.Create? && Enabled(s, a)
    ensures QueuesOk(Apply(s, a))
  {
    var s' := Apply(s, a);
    assert s.free[0] in s.free;
    assert SlotOk(s, a.t) && TaskOk(s, a.t);
    forall u | Slot(u)
      ensures TaskOk(s', u)
    {
      assert TaskOk(s, u);
    }
  }

  lemma ExitQueues(s: Sched, a: Action)
    requires Inv(s) && (a.Exit? || a.SliceTick? || a.MarkIdle? || a.Block? || a.Collect?) && Enabled(s, a)
    ensures QueuesOk(Apply(s, a))
  {
    var s' := Apply(s, a);
    if a.Collect? {
      assert s.zombies[0] in s.zombies;
      assert SlotOk(s, s.zombies[0]);
    }
    if s.curr >= 0 { assert TaskOk(s, s.curr); }
    forall u | Slot(u)
      ensures TaskOk(s', u)
    {
      assert TaskOk(s, u);
    }
  }

  lemma WakeQueues(s: Sched, a: Action)
    requires Inv(s) && (a.Wake? || a.Delete?) && Enabled(s, a)
    ensures QueuesOk(Apply(s, a))
  {
    var s' := Apply(s, a);
    assert TaskOk(s, a.t);
    WithoutNoDup(s.sleep, a.t);
    forall u | Slot(u)
      ensures TaskOk(s', u)
    {
      assert TaskOk(s, u);
      WithoutMembers(s.sleep, a.t, u);
    }
    forall i | 0 <= i < |s'.sleep|
      ensures Slot(s'.sleep[i])
    {
      assert s'.sleep[i] in s'.sleep;
      WithoutMembers(s.sleep, a.t, s'.sleep[i]);
    }
  }

  lemma SleepQueues(s: Sched, a: Action)
    requires Inv(s) && a.Sleep? && Enabled(s, a)
    ensures QueuesOk(Apply(s, a))
  {
    var s' := Apply(s, a);
    assert TaskOk(s, s.curr);
    forall u | Slot(u)
      ensures TaskOk(s', u)
    {
      assert TaskOk(s, u);
      InsertMembers(s.sleep, a.at, s.curr, u);
    }
    InsertNoDup(s.sleep, a.at, s.curr);
  }

  lemma SwitchTask(s: Sched, a: Action, u: int)
    requires Inv(s) && a.Switch? && Enabled(s, a) && Slot(u)
    ensures TaskOk(Apply(s, a), u)
  {
    if s.curr >= 0 { assert TaskOk(s, s.curr); }
    assert TaskOk(s, s.idle);
    assert TaskOk(s, u);
    if a.best >= 0 { assert TaskOk(s, a.best); }
  }

  lemma SwitchQueues(s: Sched, a: Action)
    requires Inv(s) && a.Switch? && Enabled(s, a)
    ensures QueuesOk(Apply(s, a))
  {
    var s' := Apply(s, a);
    forall u | Slot(u)
      ensures TaskOk(s', u)
    {
      SwitchTask(s, a, u);
    }
  }

  lemma QueuesKept(s: Sched, a: Action)
    requires Inv(s) && Enabled(s, a)
    ensures QueuesOk(Apply(s, a))
  {
    match a
    case Create(_, _, _, _) => CreateQueues(s, a);
    case Wake(_, _, _) => WakeQueues(s, a);
    case Delete(_) => WakeQueues(s, a);
    case Sleep(_, _) => SleepQueues(s, a);
    case Switch(_) => SwitchQueues(s, a);
    case _ => ExitQueues(s, a);
  }

  // ---------------------------------------------------------------------------
  // Every step keeps the pool accounts

  lemma CreatePool(s: Sched, a: Action)
    requires Inv(s) && a.Create? && Enabled(s, a)
    ensures PoolOk(Apply(s, a))
  {
    var s' := Apply(s, a);
    var t := a.t;
    assert t in s.free;
    assert SlotOk(s, t);
    forall u | Slot(u)
      ensures SlotOk(s', u)
    {
      assert SlotOk(s, u);
      assert s.free == [t] + s.free[1..];
      assert u in s.free <==> u == t || u in s.free[1..];
    }
    forall u, v | Slot(u) && Slot(v)
      ensures IdsDiffer(s', u, v)
    {
      assert IdsDiffer(s, u, v) && SlotOk(s, u) && SlotOk(s, v);
    }
    forall id | id in s'.ids
      ensures Owned(s', id)
    {
      if id == a.id {
        assert Live(s', t) && s'.pool[t].id == id;
      } else {
        assert Owned(s, id);
        var u :| Live(s, u) && s.pool[u].id == id;
        assert Live(s', u) && s'.pool[u].id == id;
      }
    }
  }

  lemma CollectPool(s: Sched, a: Action)
    requires Inv(s) && a.Collect? && Enabled(s, a)
    ensures PoolOk(Apply(s, a))
  {
    var s' := Apply(s, a);
    var t := s.zombies[0];
    assert t in s.zombies;
    assert SlotOk(s, t);
    forall u | Slot(u)
      ensures SlotOk(s', u)
    {
      assert SlotOk(s, u);
      assert s.zombies == [t] + s.zombies[1..];
      assert u in s.zombies <==> u == t || u in s.zombies[1..];
      assert u in s'.free <==> u == t || u in s.free;
    }
    FreeNotFull(s, t);
    SameIds(s, s');
  }

  /** A slot that is not free leaves the free list short of the pool. */
  lemma FreeNotFull(s: Sched, t: int)
    requires PoolOk(s) && Slot(t) && t !in s.free
    ensures |s.free| < MAX_TASKS && NoDup([t] + s.free)
  {
    NoDupBound([t] + s.free, MAX_TASKS);
  }

  /** A duplicate-free list of numbers below `n` has at most `n` elements. */
  lemma {:induction false} NoDupBound(q: seq<int>, n: nat)
    requires NoDup(q) && forall i :: 0 <= i < |q| ==> 0 <= q[i] < n
    ensures |q| <= n
    decreases n
  {
    if q != [] {
      assert 0 <= q[0] < n;
      if k :| 0 <= k < |q| && q[k] == n - 1 {
        NoDupBound(q[..k] + q[k + 1..], n - 1);
      } else {
        NoDupBound(q, n - 1);
      }
    }
  }

  /** Steps that keep every live task and its ID keep the bitmap right. */
  lemma SameIds(s: Sched, s': Sched)
    requires PoolOk(s) && |s'.pool| == MAX_TASKS && s'.ids == s.ids
    requires forall u {:trigger s'.pool[u]} :: Slot(u) ==> (Live(s', u) <==> Live(s, u)) && s'.pool[u].id == s.pool[u].id
    ensures forall t, u {:trigger IdsDiffer(s', t, u)} :: Slot(t) && Slot(u) ==> IdsDiffer(s', t, u)
    ensures forall id {:trigger Owned(s', id)} :: id in s'.ids ==> Owned(s', id)
  {
    forall t, u | Slot(t) && Slot(u)
      ensures IdsDiffer(s', t, u)
    {
      assert IdsDiffer(s, t, u);
    }
    forall id | id in s'.ids
      ensures Owned(s', id)
    {
      assert Owned(s, id);
      var u :| Live(s, u) && s.pool[u].id == id;
      assert Live(s', u) && s'.pool[u].id == id;
    }
  }

  /** `task_delete` and `task_exit`: task `t` becomes a zombie and gives its ID back. */
  lemma RetirePool(s: Sched, s': Sched, t: int)
    requires PoolOk(s) && |s'.pool| == MAX_TASKS && Live(s, t)
    requires s'.pool == s.pool[t := s.pool[t].(state := Zombie, id := 0)]
    requires s'.ids == s.ids - {s.pool[t].id} && s'.zombies == [t] + s.zombies && s'.free == s.free && s'.count == s.count
    ensures PoolOk(s')
  {
    assert SlotOk(s, t);
    forall u | Slot(u)
      ensures SlotOk(s', u)
    {
      assert SlotOk(s, u) && IdsDiffer(s, t, u);
    }
    forall u, v | Slot(u) && Slot(v)
      ensures IdsDiffer(s', u, v)
    {
      assert IdsDiffer(s, u, v);
    }
    forall id | id in s'.ids
      ensures Owned(s', id)
    {
      assert Owned(s, id);
      var u :| Live(s, u) && s.pool[u].id == id;
      assert Live(s', u) && s'.pool[u].id == id;
    }
  }

  /** All other steps leave the accounts alone. */
  lemma SamePool(s: Sched, s': Sched)
    requires PoolOk(s) && |s'.pool| == MAX_TASKS
    requires s'.ids == s.ids && s'.zombies == s.zombies && s'.free == s.free && s'.count == s.count
    requires forall u {:trigger s'.pool[u]} :: Slot(u) ==>
      && (s'.pool[u].state == Unused <==> s.pool[u].state == Unused)
      && (s'.pool[u].state == Zombie <==> s.pool[u].state == Zombie)
      && s'.pool[u].id == s.pool[u].id
    ensures PoolOk(s')
  {
    forall u | Slot(u)
      ensures SlotOk(s', u)
    {
      assert SlotOk(s, u);
    }
    SameIds(s, s');
  }

  lemma OtherPool(s: Sched, a: Action)
    requires Inv(s) && Enabled(s, a)
    requires !a.Create? && !a.Collect? && !a.Delete? && !a.Exit?
    ensures PoolOk(Apply(s, a))
  {
    if s.curr >= 0 { assert TaskOk(s, s.curr); }
    if s.idle >= 0 { assert TaskOk(s, s.idle); }
    if a.Switch? && a.best >= 0 { assert TaskOk(s, a.best); }
    SamePool(s, Apply(s, a));
  }

  lemma PoolKept(s: Sched, a: Action)
    requires Inv(s) && Enabled(s, a)
    ensures PoolOk(Apply(s, a))
  {
    match a
    case Create(_, _, _, _) => CreatePool(s, a);
    case Collect => CollectPool(s, a);
    case Delete(t) => RetirePool(s, Apply(s, a), t);
    case Exit => RetirePool(s, Apply(s, a), s.curr);
    case _ => OtherPool(s, a);
  }

  // ---------------------------------------------------------------------------
  // The sleep list stays sorted

  /** The wake-up ticks of a list of tasks. */
  function Wakes(pool: seq<Task>, q: seq<int>): (r: seq<int>)
    requires |pool| == MAX_TASKS
    ensures |r| == |q| && forall i :: 0 <= i < |q| ==> r[i] == if Slot(q[i]) then pool[q[i]].wake else 0
  {
    if q == [] then [] else [if Slot(q[0]) then pool[q[0]].wake else 0] + Wakes(pool, q[1..])
  }

  ghost predicate Sorted(w: seq<int>) {
    forall i, j :: 0 <= i < j < |w| ==> w[i] <= w[j]
  }

  lemma SortedCons(x: int, w: seq<int>)
    requires Sorted(w) && forall j :: 0 <= j < |w| ==> x <= w[j]
    ensures Sorted([x] + w)
  {
  }

  /** Removing a task from a sorted list leaves it sorted, with no new members. */
  lemma {:induction false} WithoutSorted(pool: seq<Task>, q: seq<int>, x: int)
    requires |pool| == MAX_TASKS && Sorted(Wakes(pool, q))
    ensures Sorted(Wakes(pool, Without(q, x)))
  {
    if q != [] {
      var rest := Without(q[1..], x);
      assert Wakes(pool, q)[1..] == Wakes(pool, q[1..]);
      WithoutSorted(pool, q[1..], x);
      if q[0] != x {
        forall j | 0 <= j < |rest|
          ensures Wakes(pool, q)[0] <= Wakes(pool, rest)[j]
        {
          WithoutMembers(q[1..], x, rest[j]);
          assert rest[j] in q[1..];
          var k :| 0 <= k < |q[1..]| && q[1..][k] == rest[j];
          assert Wakes(pool, q)[k + 1] == Wakes(pool, rest)[j];
        }
        assert Wakes(pool, [q[0]] + rest) == [Wakes(pool, q)[0]] + Wakes(pool, rest);
        SortedCons(Wakes(pool, q)[0], Wakes(pool, rest));
      }
    }
  }

  /** A change to tasks that are not on the list leaves its wake-up ticks alone. */
  lemma SameWakes(s: Sched, s': Sched)
    requires |s.pool| == MAX_TASKS && |s'.pool| == MAX_TASKS
    requires forall t {:trigger s'.pool[t]} :: Slot(t) && t in s'.sleep ==> s'.pool[t].wake == s.pool[t].wake
    ensures Wakes(s'.pool, s'.sleep) == Wakes(s.pool, s'.sleep)
  {
    forall i | 0 <= i < |s'.sleep|
      ensures Wakes(s'.pool, s'.sleep)[i] == Wakes(s.pool, s'.sleep)[i]
    {
      assert s'.sleep[i] in s'.sleep;
    }
  }

  /** The wake-up ticks of a list a task is put into. */
  lemma WakesInsert(pool: seq<Task>, q: seq<int>, at: nat, t: int)
    requires |pool| == MAX_TASKS && at <= |q| && Slot(t)
    ensures Wakes(pool, Insert(q, at, t)) == Insert(Wakes(pool, q), at, pool[t].wake)
  {
  }

  lemma InsertSorted(w: seq<int>, at: nat, x: int)
    requires Sorted(w) && at <= |w|
    requires at > 0 ==> w[at - 1] <= x
    requires at < |w| ==> x <= w[at]
    ensures Sorted(Insert(w, at, x))
  {
  }

  lemma SleepSorted(s: Sched, a: Action)
    requires Inv(s) && a.Sleep? && Enabled(s, a) && Sorted(Wakes(s.pool, s.sleep))
    ensures Sorted(Wakes(Apply(s, a).pool, Apply(s, a).sleep))
  {
    var pool, t := Apply(s, a).pool, s.curr;
    assert TaskOk(s, t);
    SameWakes(s.(pool := pool), s);
    WakesInsert(pool, s.sleep, a.at, t);
    InsertSorted(Wakes(s.pool, s.sleep), a.at, a.wake);
  }

  lemma WakeSorted(s: Sched, a: Action)
    requires Inv(s) && (a.Wake? || a.Delete?) && Enabled(s, a) && Sorted(Wakes(s.pool, s.sleep))
    ensures Sorted(Wakes(Apply(s, a).pool, Apply(s, a).sleep))
  {
    var s' := Apply(s, a);
    assert TaskOk(s, a.t);
    WithoutMembers(s.sleep, a.t, a.t);
    WithoutSorted(s.pool, s.sleep, a.t);
    SameWakes(s, s');
  }

  lemma SleepKept(s: Sched, a: Action)
    requires Inv(s) && Enabled(s, a) && Sorted(Wakes(s.pool, s.sleep))
    ensures Sorted(Wakes(Apply(s, a).pool, Apply(s, a).sleep))
  {
    match a
    case Sleep(_, _) => SleepSorted(s, a);
    case Wake(_, _, _) => WakeSorted(s, a);
    case Delete(_) => WakeSorted(s, a);
    case Create(_, t, _, _) =>
      assert t in s.free && SlotOk(s, t) && TaskOk(s, t);
      SameWakes(s, Apply(s, a));
    case _ => OtherSorted(s, a);
  }

  /** The other steps leave the sleep list and its ticks alone. */
  lemma OtherSorted(s: Sched, a: Action)
    requires Inv(s) && Enabled(s, a) && Sorted(Wakes(s.pool, s.sleep))
    requires !a.Sleep? && !a.Wake? && !a.Delete? && !a.Create?
    ensures Sorted(Wakes(Apply(s, a).pool, Apply(s, a).sleep))
  {
    SameWakes(s, Apply(s, a));
  }

  // ---------------------------------------------------------------------------
  // Over whole runs

  lemma InitInv()
    ensures Inv(Init())
  {
    var s := Init();
    forall t | Slot(t)
      ensures TaskOk(s, t) && SlotOk(s, t)
    {
      assert s.free[t] == t;
    }
  }

  /** States, queues and pool accounts agree after every legal run, and the sleep list is
      sorted by wake-up tick. */
  lemma {:induction false} InvAlways(acts: seq<Action>)
    requires Legal(Init(), acts)
    ensures Inv(Run(Init(), acts))
    ensures Sorted(Wakes(Run(Init(), acts).pool, Run(Init(), acts).sleep))
    decreases |acts|
  {
    if acts == [] {
      InitInv();
    } else {
      var front, a := acts[..|acts| - 1], acts[|acts| - 1];
      InvAlways(front);
      QueuesKept(Run(Init(), front), a);
      PoolKept(Run(Init(), front), a);
      SleepKept(Run(Init(), front), a);
    }
  }

  /** After a switch the task on the CPU is RUNNING, and idle got the CPU only because no
      other task is READY. */
  lemma IdleOnlyWhenNobodyReady(s: Sched, a: Action)
    requires Inv(s) && a.Switch? && Enabled(s, a)
    ensures var s' := Apply(s, a);
      && Slot(s'.curr) && s'.pool[s'.curr].state == Running
      && (s'.curr == s'.idle <==> forall t :: Slot(t) && t != s.idle ==> Requeue(s).pool[t].state != Ready)
  {
    var mid, s' := Requeue(s), Apply(s, a);
    if s.curr >= 0 { assert TaskOk(s, s.curr); }
    assert TaskOk(s, s.idle);
    forall t | Slot(t) && t != s.idle
      ensures t in mid.ready <==> mid.pool[t].state == Ready
    {
      assert TaskOk(s, t);
    }
    if a.best >= 0 { assert TaskOk(s, a.best); }
  }

  /** The code's way to pick an ID never fails when there is a free slot. */
  lemma FreeSlotHasFreeId(s: Sched)
    requires PoolOk(s) && s.free != []
    ensures exists id :: 1 <= id <= MAX_TASKS && id !in s.ids
  {
    if forall id :: 1 <= id <= MAX_TASKS ==> id in s.ids {
      var q := Owners(s, MAX_TASKS);
      assert s.free[0] in s.free && SlotOk(s, s.free[0]);
      forall i | 0 <= i < |q|
        ensures q[i] != s.free[0]
      {
      }
      NoDupBound([s.free[0]] + q, MAX_TASKS);
      assert false;
    }
  }

  /** If the IDs 1 to `n` are all taken, that many different live tasks hold them. */
  lemma {:induction false} Owners(s: Sched, n: nat) returns (q: seq<int>)
    requires PoolOk(s) && n <= MAX_TASKS && forall id :: 1 <= id <= n ==> id in s.ids
    ensures |q| == n && NoDup(q) && forall i :: 0 <= i < |q| ==> Live(s, q[i]) && 1 <= s.pool[q[i]].id <= n
  {
    if n == 0 {
      q := [];
    } else {
      var r := Owners(s, n - 1);
      assert Owned(s, n);
      var t :| Live(s, t) && s.pool[t].id == n;
      q := [t] + r;
    }
  }

  // ---------------------------------------------------------------------------
  // The task count

  ghost function LiveTasks(s: Sched): set<int>
    requires |s.pool| == MAX_TASKS
  {
    set t | 0 <= t < MAX_TASKS && Live(s, t)
  }

  /** Where a slot is. */
  lemma Kind(s: Sched, t: int)
    requires PoolOk(s)
    ensures t in s.free || t in s.zombies || t in LiveTasks(s) <==> 0 <= t < MAX_TASKS
    ensures (t in s.free ==> t !in s.zombies && t !in LiveTasks(s)) && (t in s.zombies ==> t !in LiveTasks(s))
  {
    if Slot(t) { assert SlotOk(s, t); }
  }

  /** The count is live tasks plus zombies. */
  lemma CountIs(s: Sched)
    requires PoolOk(s)
    ensures s.count == |LiveTasks(s)| + |s.zombies|
  {
    ElemsSize(s.free);
    ElemsSize(s.zombies);
    var free, zombies, live, all := Elems(s.free), Elems(s.zombies), LiveTasks(s), Below(MAX_TASKS);
    forall t
      ensures t in all <==> t in free || t in zombies || t in live
      ensures (t in free ==> t !in zombies && t !in live) && (t in zombies ==> t !in live)
    {
      Kind(s, t);
    }
    Parts(free, zombies, live, all);
  }

  lemma Parts(a: set<int>, b: set<int>, c: set<int>, all: set<int>)
    requires forall t {:trigger t in all} :: t in all <==> t in a || t in b || t in c
    requires forall t {:trigger t in a} {:trigger t in b} :: (t in a ==> t !in b && t !in c) && (t in b ==> t !in c)
    ensures |all| == |a| + |b| + |c|
  {
    assert forall t :: t in all <==> t in a + b + c;
    assert all == a + b + c;
    Union(a, b);
    Union(a + b, c);
  }
}
