/** The software timer service: a list sorted by 32-bit expiry ticks that may wrap. */
module Timers {
  import opened Common
  import opened WaitList

  const WORD := 0x1_0000_0000
  const HALF := 0x8000_0000
  const QUARTER := 0x4000_0000

  /** `(int32_t)(a - b) < 0` on unsigned words. */
  predicate Earlier(a: int, b: int) {
    (a - b) % WORD >= HALF
  }

  lemma EarlierIsOrder(a: int, b: int)
    requires -HALF <= a - b < HALF
    ensures Earlier(a % WORD, b % WORD) <==> a < b
    ensures 0 <= a - b ==> (a % WORD - b % WORD) % WORD == a - b
  {
    var d := a % WORD - b % WORD;
    assert a - b == d + WORD * (a / WORD - b / WORD);
    var k := a / WORD - b / WORD;
    if a < b {
      Residue(d, a - b + WORD, k + 1, WORD);
    } else {
      Residue(d, a - b, k, WORD);
    }
  }

  datatype Timer = Timer(expiry: int, period: int, auto: bool, active: bool)

  function At(due: seq<int>, t: int): int { if 0 <= t < |due| then due[t] else 0 }

  /** Inserting a timer after all that expire no later. */
  function Place(q: seq<int>, due: seq<int>, t: int): seq<int> {
    if q == [] || At(due, t) < At(due, q[0]) then [t] + q else [q[0]] + Place(q[1..], due, t)
  }

  ghost predicate InOrder(q: seq<int>, due: seq<int>, i: int, j: int) {
    0 <= i < j < |q| ==> At(due, q[i]) <= At(due, q[j])
  }

  ghost predicate Sorted(q: seq<int>, due: seq<int>) {
    forall i, j {:trigger InOrder(q, due, i, j)} :: InOrder(q, due, i, j)
  }

  lemma {:induction false} PlaceAt(q: seq<int>, due: seq<int>, t: int, k: nat)
    requires k <= |q| && (forall i :: 0 <= i < k ==> At(due, q[i]) <= At(due, t))
    requires k < |q| ==> At(due, t) < At(due, q[k])
    ensures Place(q, due, t) == q[..k] + [t] + q[k..]
    decreases k
  {
    if k > 0 {
      PlaceAt(q[1..], due, t, k - 1);
      assert q[..k] == [q[0]] + q[1..][..k - 1];
    }
  }

  /** Timers that expire no later stay ahead of the place. */
  lemma {:induction false} PlaceBeyond(a: seq<int>, b: seq<int>, due: seq<int>, t: int)
    requires forall i :: 0 <= i < |a| ==> At(due, a[i]) <= At(due, t)
    ensures Place(a + b, due, t) == a + Place(b, due, t)
    decreases |a|
  {
    if a == [] {
      assert a + b == b;
    } else {
      assert (a + b)[1..] == a[1..] + b;
      PlaceBeyond(a[1..], b, due, t);
      assert a == [a[0]] + a[1..];
    }
  }

  /** A sorted list stays sorted, gains `t` and nothing else, and keeps its order. */
  lemma {:induction false} PlaceKeeps(q: seq<int>, due: seq<int>, t: int)
    requires Sorted(q, due) && NoDup(q) && t !in q
    ensures Sorted(Place(q, due, t), due) && NoDup(Place(q, due, t))
    ensures forall u :: u in Place(q, due, t) <==> u in q || u == t
  {
    if q == [] || At(due, t) < At(due, q[0]) {
      forall j | 0 <= j < |q|
        ensures At(due, t) <= At(due, q[j]) && q[j] != t
      {
        assert q[j] in q && InOrder(q, due, 0, j);
      }
      Prepended(t, q, due);
    } else {
      var rest := q[1..];
      assert q == [q[0]] + rest;
      forall i, j
        ensures InOrder(rest, due, i, j)
      {
        assert InOrder(q, due, i + 1, j + 1);
      }
      PlaceKeeps(rest, due, t);
      var p := Place(rest, due, t);
      forall j | 0 <= j < |p|
        ensures At(due, q[0]) <= At(due, p[j]) && p[j] != q[0]
      {
        assert p[j] in p;
        if p[j] != t {
          var i :| 0 <= i < |rest| && rest[i] == p[j];
          assert q[i + 1] == p[j] && InOrder(q, due, 0, i + 1);
        }
      }
      Prepended(q[0], p, due);
    }
  }

  lemma Prepended(t: int, q: seq<int>, due: seq<int>)
    requires Sorted(q, due) && NoDup(q) && forall j :: 0 <= j < |q| ==> At(due, t) <= At(due, q[j]) && q[j] != t
    ensures Sorted([t] + q, due) && NoDup([t] + q)
  {
    forall i, j
      ensures InOrder([t] + q, due, i, j)
    {
      assert InOrder(q, due, i - 1, j - 1);
    }
  }

  // ---------------------------------------------------------------------------
  // Firing

  /** How many timers at the front of the list have expired. */
  function DueCount(q: seq<int>, due: seq<int>, now: int): (k: nat)
    ensures k <= |q|
  {
    if q == [] || now < At(due, q[0]) then 0 else 1 + DueCount(q[1..], due, now)
  }

  /** In a sorted list these are all the expired ones. */
  lemma {:induction false} DueExactly(q: seq<int>, due: seq<int>, now: int, i: nat)
    requires Sorted(q, due) && i < |q|
    ensures At(due, q[i]) <= now <==> i < DueCount(q, due, now)
  {
    if now < At(due, q[0]) {
      assert InOrder(q, due, 0, i);
    } else if i > 0 {
      forall a, b
        ensures InOrder(q[1..], due, a, b)
      {
        assert InOrder(q, due, a + 1, b + 1);
      }
      DueExactly(q[1..], due, now, i - 1);
    }
  }

  lemma {:induction false} PlaceMembers(q: seq<int>, due: seq<int>, t: int, u: int)
    ensures u in Place(q, due, t) <==> u in q || u == t
    decreases |q|
  {
    if q != [] {
      assert q == [q[0]] + q[1..];
      PlaceMembers(q[1..], due, t, u);
    }
  }

  // ---------------------------------------------------------------------------
  // The service

  /** The list holds exactly the active timers, once each, in expiry order. `due` is the expiry
      tick without wrap-around, `timers` the fields the code has. */
  ghost predicate Listed(list: seq<int>, timers: seq<Timer>, due: seq<int>) {
    && |due| == |timers| && NoDup(list) && Sorted(list, due)
    && (forall t {:trigger ActiveIff(list, timers, t)} :: ActiveIff(list, timers, t))
    && (forall t {:trigger Kept(timers, due, t)} :: t in list ==> Kept(timers, due, t))
  }

  ghost predicate ActiveIff(list: seq<int>, timers: seq<Timer>, t: int) {
    0 <= t < |timers| ==> (timers[t].active <==> t in list)
  }

  /** The code's expiry word stands for the expiry tick. */
  ghost predicate Kept(timers: seq<Timer>, due: seq<int>, t: int) {
    0 <= t < |timers| && t < |due| && timers[t].expiry == due[t] % WORD
  }

  /** Periods are from 1 to 2^30 - 1. */
  ghost predicate Periods(timers: seq<Timer>) {
    forall t :: 0 <= t < |timers| ==> 1 <= timers[t].period < QUARTER
  }

  /** No timer has changed its period or whether it is periodic. */
  ghost predicate Settings(was: seq<Timer>, timers: seq<Timer>) {
    && |timers| == |was|
    && forall t :: 0 <= t < |timers| ==> timers[t].period == was[t].period && timers[t].auto == was[t].auto
  }

  /** Every listed expiry is less than 2^30 ticks away. */
  ghost predicate Near(list: seq<int>, due: seq<int>, now: int) {
    forall t :: t in list ==> -QUARTER < At(due, t) - now < QUARTER
  }

  class TimerService {
    var timers: seq<Timer>
    var list: seq<int>
    ghost var due: seq<int>

    ghost predicate Valid()
      reads this
    {
      Listed(list, timers, due) && Periods(timers)
    }

    /** `timer_insert`. */
    method Insert(t: int, ghost now: int)
      requires t !in list && forall u :: u in list || u == t ==> Kept(timers, due, u)
      requires Near(list, due, now) && -QUARTER < At(due, t) - now < QUARTER
      modifies this`list
      ensures list == Place(old(list), due, t)
    {
      var k := 0;
      while k < |list|
        invariant list == old(list) && 0 <= k <= |list| && forall i :: 0 <= i < k ==> At(due, list[i]) <= At(due, t)
      {
        assert list[k] in list && Kept(timers, due, t);
        EarlierIsOrder(due[t], due[list[k]]);
        if Earlier(timers[t].expiry, timers[list[k]].expiry) {
          break;
        }
        k := k + 1;
      }
      PlaceAt(list, due, t, k);
      list := list[..k] + [t] + list[k..];
    }

    /** `timer_remove`. */
    method Remove(t: int)
      requires t in list
      modifies this`list
      ensures exists i :: 0 <= i < |old(list)| && old(list)[i] == t && list == Drop(old(list), i)
    {
      var k := 0;
      while list[k] != t
        invariant list == old(list) && 0 <= k < |list| && t in list[k..]
        decreases |list| - k
      {
        k := k + 1;
      }
      list := list[..k] + list[k + 1..];
    }

    /** `timer_start` at tick `now`: the timer, if it was running, starts afresh. `head` tells
        whether it is now the first to expire, in which case the daemon is notified. */
    method Start(t: int, word: int, ghost now: int) returns (head: bool, ghost q: seq<int>)
      requires Valid() && 0 <= t < |timers| && word == now % WORD && Near(list, due, now)
      modifies this
      ensures Valid() && Near(list, due, now) && due == old(due)[t := now + old(timers[t]).period]
      ensures timers == old(timers)[t := Armed(old(timers[t]), now)]
      ensures Off(old(list), t, q) && list == Place(q, due, t)
      ensures head <==> list != [] && list[0] == t
      ensures timers[t].active && timers[t].expiry == (now + timers[t].period) % WORD
      ensures Settings(old(timers), timers) && forall u :: 0 <= u < |timers| && u != t ==> timers[u] == old(timers)[u]
    {
      assert ActiveIff(list, timers, t);
      if timers[t].active {
        Remove(t);
      }
      q := list;
      OffKeeps(old(list), timers, due, t, q);
      head := Arm(t, word, now);
    }

    /** Timer `t`, off the list, will expire one period from now and goes to its place. */
    method Arm(t: int, word: int, ghost now: int) returns (head: bool)
      requires Loose(list, timers, due, t) && Periods(timers) && word == now % WORD && Near(list, due, now)
      modifies this
      ensures Valid() && Near(list, due, now) && due == old(due)[t := now + old(timers[t]).period]
      ensures timers == old(timers)[t := Armed(old(timers[t]), now)]
      ensures list == Place(old(list), due, t) && (head <==> list != [] && list[0] == t)
    {
      ArmKeeps(list, timers, due, t, now);
      AddWord(now, timers[t].period);
      due := due[t := now + timers[t].period];
      timers := timers[t := timers[t].(expiry := (word + timers[t].period) % WORD, active := true)];
      head := list == [];
      if list != [] {
        assert list[0] in list && Kept(timers, due, list[0]);
        EarlierIsOrder(due[t], due[list[0]]);
        head := Earlier(timers[t].expiry, timers[list[0]].expiry);
      }
      Insert(t, now);
    }

    /** `timer_stop`. */
    method Stop(t: int)
      requires Valid() && 0 <= t < |timers|
      modifies this
      ensures Valid() && due == old(due) && Off(old(list), t, list)
      ensures timers == old(timers)[t := old(timers[t]).(active := false)]
      ensures t !in list && !timers[t].active
      ensures Settings(old(timers), timers) && forall u :: 0 <= u < |timers| && u != t ==> timers[u] == old(timers)[u]
    {
      assert ActiveIff(list, timers, t);
      if timers[t].active {
        Remove(t);
      }
      OffKeeps(old(list), timers, due, t, list);
      timers := timers[t := timers[t].(active := false)];
    }

    /** No timers yet; `timer_create` adds them inactive. */
    constructor ()
      ensures Valid() && list == [] && timers == []
    {
      timers, list, due := [], [], [];
    }

    /** `timer_create`, given a free record. */
    method Create(period: int, auto: bool) returns (t: int)
      requires Valid() && 1 <= period < QUARTER
      modifies this
      ensures Valid() && t == |old(timers)| && list == old(list)
      ensures timers == old(timers) + [Timer(0, period, auto, false)] && due == old(due) + [0]
    {
      t := |timers|;
      timers := timers + [Timer(0, period, auto, false)];
      due := due + [0];
      forall u
        ensures u in list ==> At(due, u) == At(old(due), u) && Kept(timers, due, u)
        ensures ActiveIff(list, timers, u)
      {
        assert ActiveIff(list, old(timers), u) && (u in list ==> Kept(old(timers), old(due), u));
      }
      SortedFrame(list, old(due), due);
    }

    /** One round of `timer_check_expiries`: the first timer, having expired, fires. */
    method FireFirst(word: int, ghost now: int) returns (t: int)
      requires Valid() && Near(list, due, now) && word == now % WORD && list != [] && At(due, list[0]) <= now
      modifies this
      ensures Valid() && Near(list, due, now) && t == old(list)[0] && 0 <= t < |old(timers)|
      ensures timers == old(timers)[t := Fired(old(timers)[t], now)]
      ensures if old(timers)[t].auto
              then due == old(due)[t := now + old(timers)[t].period] && list == Place(old(list)[1..], due, t)
              else due == old(due) && list == old(list)[1..]
    {
      t := list[0];
      HeadOff(list, timers, due, now);
      list := list[1..];
      timers := timers[t := timers[t].(active := false)];
      if timers[t].auto {
        var _ := Arm(t, word, now);
      }
    }

    /** `timer_check_expiries` at a fixed tick. It fires exactly the expired timers, once each,
        in list order; periodic ones are re-armed for one period from now and the rest go
        inactive; all others stay as they are; the result is the distance to the next expiry. */
    method CheckExpiries(word: int, ghost now: int) returns (wait: int, fired: seq<int>)
      requires Valid() && Near(list, due, now) && word == now % WORD
      modifies this
      ensures Valid() && Near(list, due, now) && fired == old(list)[..DueCount(old(list), old(due), now)]
      ensures forall i :: 0 <= i < |old(list)| ==> (old(list)[i] in fired <==> At(old(due), old(list)[i]) <= now)
      ensures |timers| == |old(timers)| && forall t {:trigger Outcome(old(timers), old(due), now, fired, timers, due, t)} ::
        Outcome(old(timers), old(due), now, fired, timers, due, t)
      ensures if list == [] then wait == WORD - 1 else wait == At(due, list[0]) - now && 0 < wait < QUARTER
      ensures Settings(old(timers), timers)
      ensures forall t :: 0 <= t < |timers| && t in fired ==> timers[t].active == timers[t].auto
      ensures forall t :: 0 <= t < |timers| && t in fired && timers[t].auto ==> timers[t].expiry == (now + timers[t].period) % WORD
      ensures forall t :: 0 <= t < |timers| && t !in fired ==> timers[t] == old(timers)[t]
    {
      fired := FireAll(word, now);
      forall t | 0 <= t < |timers|
        ensures timers[t].period == old(timers)[t].period && timers[t].auto == old(timers)[t].auto
        ensures t in fired ==> timers[t].active == timers[t].auto
        ensures t in fired && timers[t].auto ==> timers[t].expiry == (now + timers[t].period) % WORD
        ensures t !in fired ==> timers[t] == old(timers)[t]
      {
        assert Outcome(old(timers), old(due), now, fired, timers, due, t);
      }
      forall i | 0 <= i < |old(list)|
        ensures old(list)[i] in fired <==> At(old(due), old(list)[i]) <= now
      {
        DueExactly(old(list), old(due), now, i);
        Prefix(old(list), |fired|, i);
      }
      if list == [] {
        wait := WORD - 1;
      } else {
        HeadIsDue(list, timers, due, now);
        assert list[0] in list;
        wait := (timers[list[0]].expiry - word) % WORD;
      }
    }

    /** The loop of `timer_check_expiries`. */
    method FireAll(word: int, ghost now: int) returns (fired: seq<int>)
      requires Valid() && Near(list, due, now) && word == now % WORD
      modifies this
      ensures Valid() && Near(list, due, now) && (list != [] ==> now < At(due, list[0]))
      ensures fired == old(list)[..DueCount(old(list), old(due), now)]
      ensures |timers| == |old(timers)| && forall t {:trigger Outcome(old(timers), old(due), now, fired, timers, due, t)} ::
        Outcome(old(timers), old(due), now, fired, timers, due, t)
    {
      ghost var q, d, ts, k := list, due, timers, DueCount(list, due, now);
      fired := [];
      QueuedStart(q, d, now);
      while list != []
        invariant Valid() && Near(list, due, now) && |timers| == |ts| && |fired| <= k && fired == q[..|fired|]
        invariant Queued(q[|fired|..k], list, due, now)
        invariant forall t {:trigger Outcome(ts, d, now, fired, timers, due, t)} :: Outcome(ts, d, now, fired, timers, due, t)
        decreases k - |fired|
      {
        HeadIsDue(list, timers, due, now);
        if Earlier(word, timers[list[0]].expiry) {
          break;
        }
        ghost var m := |fired|;
        QueuedHead(q[m..k], list, due, now);
        assert q[m..k][0] == q[m] && q[m..k][1..] == q[m + 1..k] && q[..m + 1] == fired + [q[m]];
        ghost var l0, d0, t0 := list, due, timers;
        var t := FireFirst(word, now);
        QueuedStep(q[m..k], l0, d0, t0, list, due, now);
        Prefix(q, m, m);
        OutcomeStep(ts, d, now, fired, t0, d0, timers, due, t);
        fired := fired + [t];
      }
      if list != [] {
        HeadIsDue(list, timers, due, now);
        QueuedHead(q[|fired|..k], list, due, now);
      }
    }
  }

  // ---------------------------------------------------------------------------
  // Steps of the firing loop

  function Fired(x: Timer, now: int): Timer {
    if x.auto then Armed(x, now) else x.(active := false)
  }

  /** What becomes of timer `t` when those in `fired` fire. */
  ghost predicate Outcome(ts: seq<Timer>, d: seq<int>, now: int, fired: seq<int>,
                          timers: seq<Timer>, due: seq<int>, t: int) {
    0 <= t < |ts| == |timers| == |d| == |due| ==>
      if t in fired then timers[t] == Fired(ts[t], now) && due[t] == if ts[t].auto then now + ts[t].period else d[t]
      else timers[t] == ts[t] && due[t] == d[t]
  }

  lemma OutcomeStep(ts: seq<Timer>, d: seq<int>, now: int, fired: seq<int>, t0: seq<Timer>, d0: seq<int>,
                    timers: seq<Timer>, due: seq<int>, t: int)
    requires |ts| == |d| == |t0| == |d0| && 0 <= t < |ts| && t !in fired
    requires forall u {:trigger Outcome(ts, d, now, fired, t0, d0, u)} :: Outcome(ts, d, now, fired, t0, d0, u)
    requires timers == t0[t := Fired(t0[t], now)] && due == if t0[t].auto then d0[t := now + t0[t].period] else d0
    ensures forall u {:trigger Outcome(ts, d, now, fired + [t], timers, due, u)} ::
      Outcome(ts, d, now, fired + [t], timers, due, u)
  {
    forall u
      ensures Outcome(ts, d, now, fired + [t], timers, due, u)
    {
      assert Outcome(ts, d, now, fired, t0, d0, u) && Outcome(ts, d, now, fired, t0, d0, t);
    }
  }

  /** A list element is among the first `m` exactly when its place says so. */
  lemma Prefix(q: seq<int>, m: nat, i: nat)
    requires NoDup(q) && m <= |q| && i < |q|
    ensures q[i] in q[..m] <==> i < m
  {
    assert i < m ==> q[..m][i] == q[i];
  }

  /** The list starts with the timers `a`, which have expired; the others have not. */
  ghost predicate Queued(a: seq<int>, list: seq<int>, due: seq<int>, now: int) {
    && |a| <= |list| && list[..|a|] == a
    && (forall i :: 0 <= i < |a| ==> At(due, a[i]) <= now)
    && (forall t :: t in list[|a|..] ==> now < At(due, t))
  }

  lemma QueuedStart(q: seq<int>, due: seq<int>, now: int)
    requires Sorted(q, due)
    ensures Queued(q[0..DueCount(q, due, now)], q, due, now)
  {
    var k := DueCount(q, due, now);
    forall i | 0 <= i < |q|
      ensures At(due, q[i]) <= now <==> i < k
    {
      DueExactly(q, due, now, i);
    }
    assert forall i :: 0 <= i < |q[k..]| ==> q[k..][i] == q[k + i];
  }

  lemma QueuedHead(a: seq<int>, list: seq<int>, due: seq<int>, now: int)
    requires Queued(a, list, due, now) && list != []
    ensures At(due, list[0]) <= now <==> a != []
    ensures a != [] ==> list[0] == a[0]
  {
    if a == [] {
      assert list[0..][0] in list[0..];
    }
  }

  /** Firing the first one: a re-armed timer goes behind all that are still to fire. */
  lemma QueuedStep(a: seq<int>, list: seq<int>, due: seq<int>, timers: seq<Timer>, list': seq<int>, due': seq<int>, now: int)
    requires a != [] && Queued(a, list, due, now) && NoDup(list) && |due| == |timers| && Periods(timers)
    requires 0 <= a[0] < |timers|
    requires if timers[a[0]].auto then due' == due[a[0] := now + timers[a[0]].period] && list' == Place(list[1..], due', a[0])
             else due' == due && list' == list[1..]
    ensures Queued(a[1..], list', due', now)
  {
    var t, ahead, rest := a[0], a[1..], list[|a|..];
    assert list == a + rest && a == [t] + ahead;
    assert list[1..] == ahead + rest;
    if timers[t].auto {
      Others(list, t);
      QueuedPlace(t, ahead, rest, due, due', now);
    } else {
      assert list'[|ahead|..] == rest && list'[..|ahead|] == ahead;
    }
  }

  lemma Others(list: seq<int>, t: int)
    requires NoDup(list) && list != [] && list[0] == t
    ensures t !in list[1..]
  {
    assert forall i :: 0 <= i < |list| - 1 ==> list[1..][i] == list[i + 1];
  }

  lemma QueuedPlace(t: int, ahead: seq<int>, rest: seq<int>, due: seq<int>, due': seq<int>, now: int)
    requires forall i :: 0 <= i < |ahead| ==> At(due, ahead[i]) <= now
    requires forall u :: u in rest ==> now < At(due, u)
    requires forall u :: u != t ==> At(due', u) == At(due, u)
    requires now < At(due', t) && t !in ahead + rest
    ensures Queued(ahead, Place(ahead + rest, due', t), due', now)
  {
    forall i | 0 <= i < |ahead|
      ensures At(due', ahead[i]) <= now
    {
      assert ahead[i] == (ahead + rest)[i];
    }
    PlaceBeyond(ahead, rest, due', t);
    var p := Place(rest, due', t);
    assert (ahead + p)[..|ahead|] == ahead && (ahead + p)[|ahead|..] == p;
    forall u | u in p
      ensures now < At(due', u)
    {
      PlaceMembers(rest, due', t, u);
    }
  }

  /** The test of the loop on the head of the list. */
  lemma HeadIsDue(list: seq<int>, timers: seq<Timer>, due: seq<int>, now: int)
    requires Listed(list, timers, due) && Near(list, due, now) && list != []
    ensures 0 <= list[0] < |timers| && (Earlier(now % WORD, timers[list[0]].expiry) <==> now < At(due, list[0]))
    ensures now < At(due, list[0]) ==> (timers[list[0]].expiry - now % WORD) % WORD == At(due, list[0]) - now
  {
    assert list[0] in list && Kept(timers, due, list[0]);
    EarlierIsOrder(now, due[list[0]]);
    EarlierIsOrder(due[list[0]], now);
  }

  /** `q` is the list without timer `t`. */
  ghost predicate Off(list: seq<int>, t: int, q: seq<int>) {
    if t in list then exists i :: 0 <= i < |list| && list[i] == t && q == Drop(list, i) else q == list
  }

  lemma OffKeeps(list: seq<int>, timers: seq<Timer>, due: seq<int>, t: int, q: seq<int>)
    requires Listed(list, timers, due) && 0 <= t < |timers| && Off(list, t, q)
    ensures Loose(q, timers, due, t) && forall u :: u in q ==> u in list
    ensures var timers' := timers[t := timers[t].(active := false)]; Listed(q, timers', due)
  {
    if t in list {
      var i :| 0 <= i < |list| && list[i] == t && q == Drop(list, i);
      DropKeeps(list, due, i);
    }
    var timers' := timers[t := timers[t].(active := false)];
    forall u
      ensures u != t ==> ActiveIff(q, timers, u)
      ensures ActiveIff(q, timers', u)
      ensures u in q ==> Kept(timers, due, u) && Kept(timers', due, u)
    {
      assert ActiveIff(list, timers, u) && (u in list ==> Kept(timers, due, u));
    }
  }

  function Armed(x: Timer, now: int): Timer {
    x.(expiry := (now + x.period) % WORD, active := true)
  }

  /** Timer `t` is off the list; all else is in order. */
  ghost predicate Loose(q: seq<int>, timers: seq<Timer>, due: seq<int>, t: int) {
    && |due| == |timers| && NoDup(q) && Sorted(q, due) && t !in q && 0 <= t < |timers|
    && (forall u {:trigger ActiveIff(q, timers, u)} :: u != t ==> ActiveIff(q, timers, u))
    && (forall u {:trigger Kept(timers, due, u)} :: u in q ==> Kept(timers, due, u))
  }

  /** Arming a timer that is off the list and putting it in its place restores the order. */
  lemma ArmKeeps(q: seq<int>, timers: seq<Timer>, due: seq<int>, t: int, now: int)
    requires Loose(q, timers, due, t) && Periods(timers) && Near(q, due, now)
    ensures var timers', due' := timers[t := Armed(timers[t], now)], due[t := now + timers[t].period];
      && (forall u :: u in q || u == t ==> Kept(timers', due', u))
      && Near(q, due', now) && -QUARTER < At(due', t) - now < QUARTER
      && Listed(Place(q, due', t), timers', due') && Periods(timers') && Near(Place(q, due', t), due', now)
  {
    var timers', due' := timers[t := Armed(timers[t], now)], due[t := now + timers[t].period];
    forall u
      ensures u in q || u == t ==> Kept(timers', due', u)
      ensures u in q ==> At(due', u) == At(due, u)
      ensures u != t ==> ActiveIff(q, timers, u)
    {
      assert u in q ==> Kept(timers, due, u);
    }
    SortedFrame(q, due, due');
    PlaceKeeps(q, due', t);
    forall u
      ensures ActiveIff(Place(q, due', t), timers', u)
    {
      assert u != t ==> ActiveIff(q, timers, u);
    }
  }

  lemma SortedFrame(q: seq<int>, due: seq<int>, due': seq<int>)
    requires Sorted(q, due) && forall u :: u in q ==> At(due', u) == At(due, u)
    ensures Sorted(q, due')
  {
    forall i, j
      ensures InOrder(q, due', i, j)
    {
      assert InOrder(q, due, i, j);
      if 0 <= i < j < |q| { assert q[i] in q && q[j] in q; }
    }
  }

  lemma DropKeeps(q: seq<int>, due: seq<int>, i: nat)
    requires NoDup(q) && Sorted(q, due) && i < |q|
    ensures NoDup(Drop(q, i)) && Sorted(Drop(q, i), due)
    ensures forall u :: u in Drop(q, i) <==> u in q && u != q[i]
  {
    var r := Drop(q, i);
    forall a, b
      ensures InOrder(r, due, a, b)
    {
      assert InOrder(q, due, if a < i then a else a + 1, if b < i then b else b + 1);
    }
    assert q == q[..i] + [q[i]] + q[i + 1..];
  }

  /** Taking the first timer off the list and marking it inactive. */
  lemma HeadOff(list: seq<int>, timers: seq<Timer>, due: seq<int>, now: int)
    requires Listed(list, timers, due) && Periods(timers) && list != [] && Near(list, due, now)
    ensures 0 <= list[0] < |timers|
    ensures var timers' := timers[list[0] := timers[list[0]].(active := false)];
      && Loose(list[1..], timers', due, list[0]) && Listed(list[1..], timers', due)
      && Periods(timers') && Near(list[1..], due, now)
  {
    var t := list[0];
    assert t in list && Kept(timers, due, t);
    assert Drop(list, 0) == list[1..];
    OffKeeps(list, timers, due, t, list[1..]);
  }

  lemma AddWord(a: int, b: int)
    ensures (a % WORD + b) % WORD == (a + b) % WORD
  {
    Residue(a % WORD + b, (a + b) % WORD, a / WORD - (a + b) / WORD, WORD);
  }
}
