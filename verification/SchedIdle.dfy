/** Fairness in runs that do dispatch idle: exactly when the runnable tasks stay within a full
    slice of each other, and a run in which they do not. */
module SchedIdle {
  import opened Common
  import opened SchedModel
  import opened SchedInvariants
  import opened SchedFairness

  ghost predicate Together(s: Sched, t: int, u: int)
    requires |s.pool| == MAX_TASKS
  {
    Runnable(s, t) && Runnable(s, u) ==> s.pool[t].v - s.pool[u].v <= FULL_CHARGE
  }

  /** The virtual runtimes of all runnable tasks are within a full slice of each other. */
  ghost predicate Tight(s: Sched) {
    && |s.pool| == MAX_TASKS
    && forall t, u {:trigger Together(s, t, u)} :: Together(s, t, u)
  }

  // ---------------------------------------------------------------------------
  // Every step but a wake-up keeps the runnable tasks together

  /** The minimum that is read is the virtual runtime of a runnable task, if there is one, or
      the running user task is alone. */
  lemma MinIsClose(s: Sched, m: int, u: int)
    requires Inv(s) && CurrentIsMinimum(s) && Tight(s) && IsMinVruntime(s, m) && Runnable(s, u)
    ensures -FULL_CHARGE <= s.pool[u].v - m <= FULL_CHARGE
  {
    assert TaskOk(s, u);
    if s.ready != {} {
      var r :| r in s.ready && Slot(r) && s.pool[r].v == m;
      assert TaskOk(s, r) && Together(s, u, r) && Together(s, r, u);
    }
  }

  lemma SwitchTight(s: Sched, a: Action)
    requires Inv(s) && CurrentIsMinimum(s) && Tight(s) && a.Switch? && Enabled(s, a)
    ensures Tight(Apply(s, a))
  {
    var s' := Apply(s, a);
    if Slot(s.curr) {
      assert TaskOk(s, s.curr);
      if Live(s, s.curr) { ChargeRange(s.pool[s.curr]); }
    }
    forall t, u
      ensures Together(s', t, u)
    {
      assert Together(s, t, u) && Together(s, t, s.curr) && Together(s, u, s.curr);
      if Slot(t) { assert TaskOk(s, t); }
      if Slot(u) { assert TaskOk(s, u); }
      if Slot(s.curr) && Slot(t) && s.curr != s.idle { assert NotBehind(s, t); }
      if Slot(s.curr) && Slot(u) && s.curr != s.idle { assert NotBehind(s, u); }
    }
  }

  lemma TightKept(s: Sched, a: Action)
    requires Inv(s) && CurrentIsMinimum(s) && Tight(s) && Enabled(s, a) && !a.Wake?
    ensures Tight(Apply(s, a))
  {
    if a.Switch? {
      SwitchTight(s, a);
    } else {
      var s' := Apply(s, a);
      forall t, u
        ensures Together(s', t, u)
      {
        assert Together(s, t, u);
        if a.Create? {
          if Runnable(s, t) { MinIsClose(s, a.m, t); }
          if Runnable(s, u) { MinIsClose(s, a.m, u); }
        }
      }
    }
  }

  // ---------------------------------------------------------------------------
  // Wake-ups

  /** What a woken task is measured against: the running user task, or, if there is none, the
      minimum that is read. */
  function Level(s: Sched, m: int): int
    requires |s.pool| == MAX_TASKS
  {
    if Slot(s.curr) && s.curr != s.idle && s.pool[s.curr].state == Running then s.pool[s.curr].v else m
  }

  ghost predicate NobodyRunnable(s: Sched)
    requires |s.pool| == MAX_TASKS
  {
    forall u :: Slot(u) ==> !Runnable(s, u)
  }

  /** The woken task is alone, or no more than a full slice ahead. */
  ghost predicate Fits(s: Sched, a: Action)
    requires |s.pool| == MAX_TASKS && a.Wake?
  {
    NobodyRunnable(s) || (Slot(a.t) && s.pool[a.t].v <= Level(s, a.m) + FULL_CHARGE)
  }

  /** The level is the least virtual runtime of the runnable tasks. */
  lemma LevelIsLeast(s: Sched, m: int, u: int) returns (l: int)
    requires Inv(s) && CurrentIsMinimum(s) && IsMinVruntime(s, m) && Runnable(s, u)
    ensures Runnable(s, l) && s.pool[l].v == Level(s, m) <= s.pool[u].v && Level(s, m) <= m
  {
    assert TaskOk(s, u);
    if Slot(s.curr) && s.curr != s.idle && s.pool[s.curr].state == Running {
      l := s.curr;
      assert NotBehind(s, u);
      MinNotBehind(s, m);
    } else {
      assert u in s.ready;
      l :| l in s.ready && Slot(l) && s.pool[l].v == m;
      assert TaskOk(s, l);
    }
  }

  /** A wake-up keeps the runnable tasks together exactly when the woken task fits. */
  lemma WakeTightIff(s: Sched, a: Action)
    requires Inv(s) && CurrentIsMinimum(s) && Tight(s) && a.Wake? && Enabled(s, a)
    ensures Tight(Apply(s, a)) <==> Fits(s, a)
  {
    var s' := Apply(s, a);
    assert TaskOk(s, a.t);
    if Fits(s, a) {
      forall t, u
        ensures Together(s', t, u)
      {
        assert Together(s, t, u);
        if Runnable(s, t) { FitsTogether(s, a, t); }
        if Runnable(s, u) { FitsTogether(s, a, u); }
      }
    } else if u :| Slot(u) && Runnable(s, u) {
      var l := LevelIsLeast(s, a.m, u);
      assert Runnable(s', l) && Runnable(s', a.t) && !Together(s', a.t, l);
    } else {
      assert NobodyRunnable(s);
    }
  }

  lemma FitsTogether(s: Sched, a: Action, u: int)
    requires Inv(s) && CurrentIsMinimum(s) && Tight(s) && a.Wake? && Enabled(s, a) && Fits(s, a) && Runnable(s, u)
    ensures var v := Max(s.pool[a.t].v, a.m); -FULL_CHARGE <= s.pool[u].v - v <= FULL_CHARGE
  {
    assert !NobodyRunnable(s);
    var l := LevelIsLeast(s, a.m, u);
    MinIsClose(s, a.m, u);
    MinIsClose(s, a.m, l);
    assert Together(s, u, l);
  }

  // ---------------------------------------------------------------------------
  // Over whole runs

  /** The runnable tasks are together after every prefix of the run. */
  ghost predicate TightThroughout(acts: seq<Action>)
    decreases |acts|
  {
    Tight(Run(Init(), acts)) && (acts == [] || TightThroughout(acts[..|acts| - 1]))
  }

  /** Every task that is woken during the run fits. */
  ghost predicate AllFit(acts: seq<Action>)
    decreases |acts|
  {
    acts == [] ||
    (var front, a := acts[..|acts| - 1], acts[|acts| - 1];
     AllFit(front) && (a.Wake? ==> Fits(Run(Init(), front), a)))
  }

  /** Over every legal run, with idle running as it will, the virtual runtimes of the runnable
      tasks stay within a full slice of each other if and only if every woken task is alone or
      at most a full slice ahead of the running user task (of the minimum, if none runs). */
  lemma {:induction false} TightIff(acts: seq<Action>)
    requires Legal(Init(), acts)
    ensures TightThroughout(acts) <==> AllFit(acts)
    decreases |acts|
  {
    if acts != [] {
      var front, a := acts[..|acts| - 1], acts[|acts| - 1];
      TightIff(front);
      if TightThroughout(front) {
        var s := Run(Init(), front);
        assert Tight(s);
        InvAlways(front);
        MinimumAlways(front);
        if a.Wake? { WakeTightIff(s, a); } else { TightKept(s, a); }
      }
    }
  }

  /** Without idle every woken task fits, so the condition is only ever about runs with idle. */
  lemma {:induction false} NeverIdleFits(acts: seq<Action>)
    requires Legal(Init(), acts) && NeverIdle(acts)
    ensures TightThroughout(acts) && AllFit(acts)
    decreases |acts|
  {
    var s := Run(Init(), acts);
    forall t, u
      ensures Together(s, t, u)
    {
      if Runnable(s, t) && Runnable(s, u) { SpreadAlways(acts, t, u); }
    }
    if acts != [] { NeverIdleFits(acts[..|acts| - 1]); }
    TightIff(acts);
  }

  // ---------------------------------------------------------------------------
  // A run that pulls two tasks apart

  function Job(state: TaskState, v: int, slice: nat, id: nat): Task { Task(state, v, 1, slice, 0, id) }

  /** The first `n` slots taken, by tasks 1 to `n`, before anything has run. */
  function Created(n: nat): Sched
    requires n <= 3
  {
    var blank := Init();
    var pool := seq(MAX_TASKS, i requires 0 <= i < MAX_TASKS => if i < n then Job(Ready, 0, 2, i + 1) else blank.pool[i]);
    Sched(pool, From(0, n), [], blank.free[n..], [], From(1, n), n, -1, -1)
  }

  /** The `n` numbers from `a` on. */
  function From(a: int, n: nat): set<int> {
    if n == 0 then {} else From(a, n - 1) + {a + n - 1}
  }

  /** Task B in slot 0, task A in slot 1, idle in slot 2. */
  function Three(b: Task, a: Task, i: Task, ready: set<int>, curr: int): Sched {
    var s := Created(3);
    s.(pool := s.pool[0 := b][1 := a][2 := i], ready := ready, curr := curr, idle := 2)
  }

  lemma CreateNext(n: nat)
    requires n < 3
    ensures var a := Create(1, n, n + 1, 0); Enabled(Created(n), a) && Apply(Created(n), a) == Created(n + 1)
  {
    var s, s' := Created(n), Created(n + 1);
    var a := Create(1, n, n + 1, 0);
    assert s.free[0] == n && s.free[1..] == s'.free;
    assert From(0, 1) == {0} && From(0, 2) == {0, 1} && From(0, 3) == {0, 1, 2};
    assert From(1, 1) == {1} && From(1, 2) == {1, 2} && From(1, 3) == {1, 2, 3};
    if n > 0 { assert 0 in s.ready && Slot(0) && s.pool[0].v == 0; }
    assert IsMinVruntime(s, 0);
    assert s.ids + {n + 1} == s'.ids;
    assert s.ready + {n} == s'.ready;
    assert Apply(s, a).pool == s'.pool;
  }

  lemma Mark()
    ensures var a := Action.MarkIdle(2); Enabled(Created(3), a)
    ensures Apply(Created(3), Action.MarkIdle(2)) == Three(Job(Ready, 0, 2, 1), Job(Ready, 0, 2, 2), Job(Ready, 0, 2, 3), {0, 1}, -1)
  {
    assert From(0, 1) == {0} && From(0, 2) == {0, 1} && From(0, 3) == {0, 1, 2};
    assert Created(3).ready - {2} == {0, 1};
    var t := Three(Job(Ready, 0, 2, 1), Job(Ready, 0, 2, 2), Job(Ready, 0, 2, 3), {0, 1}, -1);
    assert Created(3).pool == t.pool;
  }

  /** B is dispatched. */
  lemma DispatchB()
    ensures var a, i := Job(Ready, 0, 2, 2), Job(Ready, 0, 2, 3);
      var s0 := Three(Job(Ready, 0, 2, 1), a, i, {0, 1}, -1);
      Enabled(s0, Switch(0)) && Apply(s0, Switch(0)) == Three(Job(Running, 0, 2, 1), a, i, {1}, 0)
  {
  }

  /** B blocks and A is dispatched. */
  lemma BlockB()
    ensures var a, i := Job(Ready, 0, 2, 2), Job(Ready, 0, 2, 3);
      var s1, s2 := Three(Job(Running, 0, 2, 1), a, i, {1}, 0), Three(Job(Blocked, 0, 2, 1), a, i, {1}, 0);
      && Enabled(s1, Action.Block(0)) && Apply(s1, Action.Block(0)) == s2
      && Enabled(s2, Switch(1)) && Apply(s2, Switch(1)) == Three(Job(Blocked, 0, 2, 1), Job(Running, 0, 2, 2), i, {}, 1)
  {
  }

  /** A uses a full slice from virtual runtime `v` on, alone. */
  lemma FullSlice(v: int)
    ensures var b, i := Job(Blocked, 0, 2, 1), Job(Ready, 0, 2, 3);
      var s0, s1 := Three(b, Job(Running, v, 2, 2), i, {}, 1), Three(b, Job(Running, v, 1, 2), i, {}, 1);
      var s2, s3 := Three(b, Job(Running, v, 0, 2), i, {}, 1), Three(b, Job(Running, v + 2000, 2, 2), i, {}, 1);
      && Enabled(s0, SliceTick) && Apply(s0, SliceTick) == s1
      && Enabled(s1, SliceTick) && Apply(s1, SliceTick) == s2
      && Enabled(s2, Switch(1)) && Apply(s2, Switch(1)) == s3
  {
  }

  /** A blocks and idle runs. */
  lemma IdleRuns()
    ensures var b := Job(Blocked, 0, 2, 1);
      var s0, s1 := Three(b, Job(Running, 4000, 2, 2), Job(Ready, 0, 2, 3), {}, 1), Three(b, Job(Blocked, 4000, 2, 2), Job(Ready, 0, 2, 3), {}, 1);
      var s2 := Three(b, Job(Blocked, 4000, 2, 2), Job(Running, 0, 2, 3), {}, 2);
      && Enabled(s0, Action.Block(1)) && Apply(s0, Action.Block(1)) == s1
      && Enabled(s1, Switch(-1)) && Apply(s1, Switch(-1)) == s2
  {
  }

  /** B is woken, then A. */
  lemma BothWake()
    ensures var i := Job(Running, 0, 2, 3);
      var s0 := Three(Job(Blocked, 0, 2, 1), Job(Blocked, 4000, 2, 2), i, {}, 2);
      var s1, s2 := Three(Job(Ready, 0, 2, 1), Job(Blocked, 4000, 2, 2), i, {0}, 2), Three(Job(Ready, 0, 2, 1), Job(Ready, 4000, 2, 2), i, {0, 1}, 2);
      && Enabled(s0, Wake(0, 0, false)) && Apply(s0, Wake(0, 0, false)) == s1
      && Enabled(s1, Wake(1, 0, false)) && Apply(s1, Wake(1, 0, false)) == s2
  {
    var s1 := Three(Job(Ready, 0, 2, 1), Job(Blocked, 4000, 2, 2), Job(Running, 0, 2, 3), {0}, 2);
    assert 0 in s1.ready && Slot(0) && s1.pool[0].v == 0;
  }

  /** Three tasks are created, B is dispatched and blocks, A uses two full slices and blocks,
      idle runs, B is woken, A is woken. */
  const APART: seq<Action> := CREATED + BLOCKED + SLICE + SLICE + WOKEN

  const CREATED: seq<Action> := [Create(1, 0, 1, 0), Create(1, 1, 2, 0), Create(1, 2, 3, 0), Action.MarkIdle(2)]
  const BLOCKED: seq<Action> := [Switch(0), Action.Block(0), Switch(1)]
  const SLICE: seq<Action> := [SliceTick, SliceTick, Switch(1)]
  const WOKEN: seq<Action> := [Action.Block(1), Switch(-1), Wake(0, 0, false), Wake(1, 0, false)]

  lemma CreateRun(acts: seq<Action>, n: nat)
    requires n < 3 && Took(Init(), acts, Created(n))
    ensures Took(Init(), acts + [Create(1, n, n + 1, 0)], Created(n + 1))
  {
    CreateNext(n);
    TookStep(Init(), acts, Created(n), Create(1, n, n + 1, 0));
  }

  lemma NoneCreated()
    ensures Took(Init(), [], Created(0))
  {
    assert Created(0).pool == Init().pool && Created(0).free == Init().free;
    TookNothing(Init());
  }

  lemma MarkRun(acts: seq<Action>)
    requires Took(Init(), acts, Created(3))
    ensures Took(Init(), acts + [Action.MarkIdle(2)], Three(Job(Ready, 0, 2, 1), Job(Ready, 0, 2, 2), Job(Ready, 0, 2, 3), {0, 1}, -1))
  {
    Mark();
    TookStep(Init(), acts, Created(3), Action.MarkIdle(2));
  }

  lemma CreatedRun()
    ensures Took(Init(), CREATED, Three(Job(Ready, 0, 2, 1), Job(Ready, 0, 2, 2), Job(Ready, 0, 2, 3), {0, 1}, -1))
  {
    var c0, c1, c2 := Create(1, 0, 1, 0), Create(1, 1, 2, 0), Create(1, 2, 3, 0);
    NoneCreated();
    CreateRun([], 0);
    CreateRun([] + [c0], 1);
    CreateRun([] + [c0] + [c1], 2);
    MarkRun([] + [c0] + [c1] + [c2]);
    assert [] + [c0] + [c1] + [c2] + [Action.MarkIdle(2)] == CREATED;
  }

  /** Three more steps. */
  lemma Thrice(acts: seq<Action>, s0: Sched, s1: Sched, s2: Sched, s3: Sched, more: seq<Action>)
    requires |more| == 3 && Took(Init(), acts, s0)
    requires Enabled(s0, more[0]) && s1 == Apply(s0, more[0])
    requires Enabled(s1, more[1]) && s2 == Apply(s1, more[1])
    requires Enabled(s2, more[2]) && s3 == Apply(s2, more[2])
    ensures Took(Init(), acts + more, s3)
  {
    TookStep(Init(), acts, s0, more[0]);
    TookStep(Init(), acts + [more[0]], s1, more[1]);
    TookStep(Init(), acts + [more[0]] + [more[1]], s2, more[2]);
    assert acts + [more[0]] + [more[1]] + [more[2]] == acts + more;
  }

  lemma BlockRun(acts: seq<Action>)
    requires Took(Init(), acts, Three(Job(Ready, 0, 2, 1), Job(Ready, 0, 2, 2), Job(Ready, 0, 2, 3), {0, 1}, -1))
    ensures Took(Init(), acts + BLOCKED, Three(Job(Blocked, 0, 2, 1), Job(Running, 0, 2, 2), Job(Ready, 0, 2, 3), {}, 1))
  {
    DispatchB();
    BlockB();
    var i := Job(Ready, 0, 2, 3);
    Thrice(acts, Three(Job(Ready, 0, 2, 1), Job(Ready, 0, 2, 2), i, {0, 1}, -1), Three(Job(Running, 0, 2, 1), Job(Ready, 0, 2, 2), i, {1}, 0),
           Three(Job(Blocked, 0, 2, 1), Job(Ready, 0, 2, 2), i, {1}, 0), Three(Job(Blocked, 0, 2, 1), Job(Running, 0, 2, 2), i, {}, 1), BLOCKED);
  }

  lemma SliceRun(acts: seq<Action>, v: int)
    requires Took(Init(), acts, Three(Job(Blocked, 0, 2, 1), Job(Running, v, 2, 2), Job(Ready, 0, 2, 3), {}, 1))
    ensures Took(Init(), acts + SLICE, Three(Job(Blocked, 0, 2, 1), Job(Running, v + 2000, 2, 2), Job(Ready, 0, 2, 3), {}, 1))
  {
    FullSlice(v);
    var b, i := Job(Blocked, 0, 2, 1), Job(Ready, 0, 2, 3);
    Thrice(acts, Three(b, Job(Running, v, 2, 2), i, {}, 1), Three(b, Job(Running, v, 1, 2), i, {}, 1),
           Three(b, Job(Running, v, 0, 2), i, {}, 1), Three(b, Job(Running, v + 2000, 2, 2), i, {}, 1), SLICE);
  }

  lemma WokenRun(acts: seq<Action>)
    requires Took(Init(), acts, Three(Job(Blocked, 0, 2, 1), Job(Running, 4000, 2, 2), Job(Ready, 0, 2, 3), {}, 1))
    ensures Took(Init(), acts + WOKEN, Three(Job(Ready, 0, 2, 1), Job(Ready, 4000, 2, 2), Job(Running, 0, 2, 3), {0, 1}, 2))
  {
    IdleRuns();
    BothWake();
    var b, i := Job(Blocked, 0, 2, 1), Job(Running, 0, 2, 3);
    var s1 := Three(b, Job(Blocked, 4000, 2, 2), Job(Ready, 0, 2, 3), {}, 1);
    var s2 := Three(b, Job(Blocked, 4000, 2, 2), i, {}, 2);
    var s3 := Three(Job(Ready, 0, 2, 1), Job(Blocked, 4000, 2, 2), i, {0}, 2);
    Thrice(acts, Three(b, Job(Running, 4000, 2, 2), Job(Ready, 0, 2, 3), {}, 1), s1, s2, s3, WOKEN[..3]);
    TookStep(Init(), acts + WOKEN[..3], s3, WOKEN[3]);
    assert acts + WOKEN[..3] + [WOKEN[3]] == acts + WOKEN;
  }

  /** A run that ends with two runnable tasks more than a full slice apart. */
  lemma EndsApart(acts: seq<Action>, s: Sched)
    requires Took(Init(), acts, s) && |s.pool| == MAX_TASKS && !Together(s, 1, 0)
    ensures Legal(Init(), acts) && Run(Init(), acts) == s && !TightThroughout(acts) && !AllFit(acts)
  {
    TookRun(Init(), acts, s);
    TightIff(acts);
  }

  /** A legal run from the initial state after which two READY tasks are 4000 apart. */
  lemma ApartRun()
    ensures Legal(Init(), APART) && !TightThroughout(APART) && !AllFit(APART)
    ensures var s := Run(Init(), APART); Runnable(s, 0) && Runnable(s, 1) && s.pool[1].v - s.pool[0].v == 4000
  {
    CreatedRun();
    BlockRun(CREATED);
    SliceRun(CREATED + BLOCKED, 0);
    SliceRun(CREATED + BLOCKED + SLICE, 2000);
    WokenRun(CREATED + BLOCKED + SLICE + SLICE);
    EndsApart(APART, Three(Job(Ready, 0, 2, 1), Job(Ready, 4000, 2, 2), Job(Running, 0, 2, 3), {0, 1}, 2));
  }
}
