/** Every run of the timer service, seen from one timer. */
module TimerSession {
  import opened Common
  import opened WaitList
  import opened Timers

  // ---------------------------------------------------------------------------
  // One timer

  /** A timer that nobody starts or stops: when it is due, whether it is active, and the ticks
      at which it has fired. */
  datatype Pulse = Pulse(due: int, active: bool, fires: seq<int>)

  /** A check at tick `now`. */
  function Beat(x: Pulse, auto: bool, period: int, now: int): Pulse {
    if x.active && x.due <= now then Pulse(if auto then now + period else x.due, auto, x.fires + [now]) else x
  }

  function Beats(x: Pulse, auto: bool, period: int, checks: seq<int>): Pulse
    decreases |checks|
  {
    if checks == [] then x else Beat(Beats(x, auto, period, checks[..|checks| - 1]), auto, period, checks[|checks| - 1])
  }

  function Last(n: int, checks: seq<int>): int { if checks == [] then n else checks[|checks| - 1] }

  /** The checks come at every tick after `n`, some perhaps several times. */
  predicate EveryTick(n: int, checks: seq<int>)
    decreases |checks|
  {
    checks == [] ||
    (var front := checks[..|checks| - 1];
     EveryTick(n, front) && Last(n, front) <= checks[|checks| - 1] <= Last(n, front) + 1)
  }

  /** A periodic timer started at tick `n` and checked at every tick has fired, after any number
      of checks, at exactly the ticks n + p, n + 2p, ... that have come, and is active. */
  lemma {:induction false} Periodic(n: int, period: int, checks: seq<int>)
    requires 0 < period && EveryTick(n, checks)
    ensures var x, now := Beats(Pulse(n + period, true, []), true, period, checks), Last(n, checks);
      && x.active && x.due == n + (|x.fires| + 1) * period
      && (forall i :: 0 <= i < |x.fires| ==> x.fires[i] == n + (i + 1) * period)
      && n + |x.fires| * period <= now < n + (|x.fires| + 1) * period
    decreases |checks|
  {
    if checks != [] {
      var front := checks[..|checks| - 1];
      Periodic(n, period, front);
      var x := Beats(Pulse(n + period, true, []), true, period, front);
      var k := |x.fires|;
      assert (k + 1) * period == k * period + period && (k + 2) * period == (k + 1) * period + period;
    }
  }

  /** A one-shot timer fires once, at n + p, and is inactive from then on. */
  lemma {:induction false} OneShot(n: int, period: int, checks: seq<int>)
    requires 0 < period && EveryTick(n, checks)
    ensures var x, now := Beats(Pulse(n + period, true, []), false, period, checks), Last(n, checks);
      && x.due == n + period && (x.active <==> now < n + period)
      && x.fires == if now < n + period then [] else [n + period]
    decreases |checks|
  {
    if checks != [] {
      OneShot(n, period, checks[..|checks| - 1]);
    }
  }

  // ---------------------------------------------------------------------------
  // The service

  /** What may happen: time passes, timers are started, stopped and created, and the expiries
      are checked. */
  datatype Event =
    | Pass(ticks: nat)
    | Begin(t: int)
    | End(t: int)
    | New(period: int, auto: bool)
    | Check

  /** Nobody starts or stops timer `t`. */
  predicate Spares(script: seq<Event>, t: int) {
    forall i :: 0 <= i < |script| ==> script[i] != Begin(t) && script[i] != End(t)
  }

  /** The last check was at tick `last`, less than 2^30 ticks ago, and left nothing expired. */
  ghost predicate Window(list: seq<int>, due: seq<int>, last: int, now: int) {
    last <= now < last + QUARTER && forall u :: u in list ==> last < At(due, u) < now + QUARTER
  }

  /** Timer `t` is as the pulse says. */
  ghost predicate Shows(timers: seq<Timer>, due: seq<int>, t: int, auto: bool, period: int, x: Pulse) {
    && 0 <= t < |timers| == |due|
    && timers[t].auto == auto && timers[t].period == period && timers[t].active == x.active && due[t] == x.due
  }

  lemma AllLater(list: seq<int>, due: seq<int>, now: int)
    requires Sorted(list, due) && (list != [] ==> now < At(due, list[0])) && Near(list, due, now)
    ensures Window(list, due, now, now)
  {
    forall u | u in list
      ensures now < At(due, u)
    {
      var i :| 0 <= i < |list| && list[i] == u;
      assert InOrder(list, due, 0, i);
    }
  }

  method BeginTimer(svc: TimerService, u: int, ghost last: int, now: int)
    requires svc.Valid() && Window(svc.list, svc.due, last, now) && 0 <= u < |svc.timers|
    modifies svc
    ensures svc.Valid() && Window(svc.list, svc.due, last, now) && Settings(old(svc.timers), svc.timers)
    ensures |svc.due| == |old(svc.due)|
    ensures forall t :: 0 <= t < |svc.timers| && t != u ==> svc.timers[t] == old(svc.timers)[t] && svc.due[t] == old(svc.due)[t]
    ensures svc.timers[u].active && svc.due[u] == now + svc.timers[u].period
  {
    ghost var before, ts, d := svc.list, svc.timers, svc.due;
    var _, q := svc.Start(u, now % WORD, now);
    OffKeeps(before, ts, d, u, q);
    forall v | v in svc.list
      ensures last < At(svc.due, v) < now + QUARTER
    {
      PlaceMembers(q, svc.due, u, v);
    }
  }

  method EndTimer(svc: TimerService, u: int, ghost last: int, ghost now: int)
    requires svc.Valid() && Window(svc.list, svc.due, last, now) && 0 <= u < |svc.timers|
    modifies svc
    ensures svc.Valid() && Window(svc.list, svc.due, last, now) && Settings(old(svc.timers), svc.timers)
    ensures svc.due == old(svc.due) && forall t :: 0 <= t < |svc.timers| && t != u ==> svc.timers[t] == old(svc.timers)[t]
  {
    ghost var before, ts, d := svc.list, svc.timers, svc.due;
    svc.Stop(u);
    OffKeeps(before, ts, d, u, svc.list);
  }

  /** One check, seen from every timer. */
  method CheckAll(svc: TimerService, ghost last: int, now: int) returns (fired: seq<int>)
    requires svc.Valid() && Window(svc.list, svc.due, last, now)
    modifies svc
    ensures svc.Valid() && Window(svc.list, svc.due, now, now) && Settings(old(svc.timers), svc.timers)
    ensures |svc.due| == |old(svc.due)| == |svc.timers|
    ensures forall t :: 0 <= t < |svc.timers| ==> (t in fired <==> old(svc.timers)[t].active && old(svc.due)[t] <= now)
    ensures forall t :: 0 <= t < |svc.timers| && t !in fired ==> svc.timers[t] == old(svc.timers)[t] && svc.due[t] == old(svc.due)[t]
    ensures forall t :: 0 <= t < |svc.timers| && t in fired ==>
      svc.timers[t].active == svc.timers[t].auto
      && svc.due[t] == if svc.timers[t].auto then now + svc.timers[t].period else old(svc.due)[t]
  {
    ghost var before, ts, d := svc.list, svc.timers, svc.due;
    var wait;
    wait, fired := svc.CheckExpiries(now % WORD, now);
    AllLater(svc.list, svc.due, now);
    forall t | 0 <= t < |svc.timers|
      ensures t in fired <==> ts[t].active && d[t] <= now
      ensures t !in fired ==> svc.due[t] == d[t]
      ensures t in fired ==> svc.due[t] == if svc.timers[t].auto then now + svc.timers[t].period else d[t]
    {
      assert Outcome(ts, d, now, fired, svc.timers, svc.due, t) && ActiveIff(before, ts, t);
      if t in before {
        var i :| 0 <= i < |before| && before[i] == t;
        assert At(d, before[i]) == d[t];
      }
    }
  }

  /** Any events in any order, started when timer `t` is as `x` says. As long as nobody starts
      or stops it, it fires at the checks, and only at those, that a timer on its own would;
      and what the other timers do makes no difference. */
  method Session(svc: TimerService, t: int, start: int, script: seq<Event>, ghost x: Pulse)
    returns (fires: seq<int>, checks: seq<int>, now: int)
    requires svc.Valid() && Window(svc.list, svc.due, start, start) && 0 <= t < |svc.timers| && Spares(script, t)
    requires x == Pulse(svc.due[t], svc.timers[t].active, [])
    modifies svc
    ensures svc.Valid() && |svc.timers| >= |old(svc.timers)|
    ensures svc.timers[t].auto == old(svc.timers)[t].auto && svc.timers[t].period == old(svc.timers)[t].period
    ensures forall i :: 0 <= i < |checks| ==> start <= checks[i] <= now
    ensures forall i, j :: 0 <= i < j < |checks| ==> checks[i] <= checks[j]
    ensures var y := Beats(x, svc.timers[t].auto, svc.timers[t].period, checks);
      fires == y.fires && svc.timers[t].active == y.active && svc.due[t] == y.due
  {
    ghost var auto, period := svc.timers[t].auto, svc.timers[t].period;
    ghost var y := x;
    var last := start;
    fires, checks, now := [], [], start;
    for i := 0 to |script|
      invariant svc.Valid() && Window(svc.list, svc.due, last, now) && |svc.timers| >= |old(svc.timers)|
      invariant Shows(svc.timers, svc.due, t, auto, period, y) && y == Beats(x, auto, period, checks) && fires == y.fires
      invariant (forall j :: 0 <= j < |checks| ==> start <= checks[j] <= now) && start <= now
      invariant forall j, k :: 0 <= j < k < |checks| ==> checks[j] <= checks[k]
    {
      match script[i] {
        case Pass(ticks) =>
          if now + ticks < last + QUARTER { now := now + ticks; }
        case Begin(u) =>
          if 0 <= u < |svc.timers| { BeginTimer(svc, u, last, now); }
        case End(u) =>
          if 0 <= u < |svc.timers| { EndTimer(svc, u, last, now); }
        case New(p, a) =>
          if 1 <= p < QUARTER { var _ := svc.Create(p, a); }
        case Check =>
          var fired := CheckAll(svc, last, now);
          checks := checks + [now];
          if t in fired { fires := fires + [now]; }
          last := now;
          y := Beat(y, auto, period, now);
          assert checks[..|checks| - 1] + [now] == checks;
      }
    }
  }

  /** A timer is started and then left alone, among any other events, and the expiries are
      checked at every tick. A periodic one fires at start + p, start + 2p, ... and is active all
      the time; a one-shot one fires at start + p and never again. */
  method Watch(svc: TimerService, t: int, start: int, script: seq<Event>) returns (fires: seq<int>, checks: seq<int>, now: int)
    requires svc.Valid() && Window(svc.list, svc.due, start, start) && 0 <= t < |svc.timers| && Spares(script, t)
    modifies svc
    ensures svc.Valid() && |svc.timers| >= |old(svc.timers)|
    ensures var p, end := old(svc.timers)[t].period, Last(start, checks);
      EveryTick(start, checks) ==>
        if old(svc.timers)[t].auto then
          && svc.timers[t].active && start + |fires| * p <= end < start + (|fires| + 1) * p
          && forall i :: 0 <= i < |fires| ==> fires[i] == start + (i + 1) * p
        else
          (svc.timers[t].active <==> end < start + p) && fires == if end < start + p then [] else [start + p]
  {
    BeginTimer(svc, t, start, start);
    ghost var x := Pulse(svc.due[t], svc.timers[t].active, []);
    fires, checks, now := Session(svc, t, start, script, x);
    if EveryTick(start, checks) {
      if svc.timers[t].auto { Periodic(start, svc.timers[t].period, checks); } else { OneShot(start, svc.timers[t].period, checks); }
    }
  }
}
