/** Every interleaving of callers on one queue. */
module QueueSession {
  import opened Common
  import opened Queue

  /** A call that has not returned yet: `queue_push`, what is left of a `queue_push_arr`, or
      `queue_pop`. */
  datatype Call<T> =
    | Sending(item: T)
    | SendingAll(items: seq<T>)
    | Receiving

  /** What happens next: a task calls, a task runs a round of its call, an interrupt handler
      calls, the queue is reset. */
  datatype Event<T> =
    | Enter(t: int, call: Call<T>)
    | Round(t: int)
    | IsrPush(item: T)
    | IsrPop
    | Empty

  type Calls<T> = map<int, Call<T>>

  /** What a call still has to put in. */
  function Left<T>(calls: Calls<T>, t: int): seq<T> {
    if t !in calls then []
    else match calls[t]
      case Sending(item) => [item]
      case SendingAll(items) => items
      case Receiving => []
  }

  /** A task makes one call at a time, and a call with no data returns at once. */
  predicate MayEnter<T>(tasks: nat, calls: Calls<T>, t: int, call: Call<T>) {
    0 <= t < tasks && t !in calls && !(call.SendingAll? && |call.items| == 0)
  }

  /** What the event asks to put in on behalf of `t`. */
  function Asked<T>(tasks: nat, calls: Calls<T>, e: Event<T>, t: int): seq<T> {
    if e.Enter? && e.t == t && MayEnter(tasks, calls, t, e.call) then Left(map[t := e.call], t) else []
  }

  /** Whoever waits in the queue, or was woken by it, is in a call of that kind. */
  ghost predicate Tracks<T(0)>(q: Queue<T>, calls: Calls<T>)
    reads q, q.rx, q.tx
  {
    && (forall t {:trigger t in q.tx.list} {:trigger t in q.txWoken} ::
          t in q.tx.list || t in q.txWoken ==> t in calls && !calls[t].Receiving?)
    && (forall t {:trigger t in q.rx.list} {:trigger t in q.rxWoken} ::
          t in q.rx.list || t in q.rxWoken ==> t in calls && calls[t].Receiving?)
    && (forall t :: t in calls ==> 0 <= t < q.rx.next.Length && !(calls[t].SendingAll? && |calls[t].items| == 0))
  }

  /** As long as somebody is sending and somebody is receiving, some caller is not blocked. */
  lemma SomebodyRuns<T(0)>(q: Queue<T>, calls: Calls<T>, s: int, r: int) returns (t: int)
    requires q.Valid() && Tracks(q, calls) && s in calls && r in calls && !calls[s].Receiving? && calls[r].Receiving?
    ensures t in calls && t !in q.rx.list && t !in q.tx.list
  {
    if s !in q.tx.list {
      t := s;
    } else if r !in q.rx.list {
      t := r;
    } else {
      q.NeverStuck();
      t := Member(q.rxWoken + q.txWoken);
    }
  }

  lemma Member(s: set<int>) returns (x: int)
    requires s != {}
    ensures x in s
  {
    if y :| y in s {
      x := y;
    } else {
      assert forall y :: y !in s;
      assert false;
    }
  }

  /** What is in the log of `t` and what it still has to put in, together. */
  ghost function Account<T>(pushed: seq<(int, T)>, calls: Calls<T>, t: int): seq<T> {
    By(pushed, t) + Left(calls, t)
  }

  lemma SentOne<T>(pushed: seq<(int, T)>, author: int, item: T, u: int)
    ensures By(pushed + [(author, item)], u) == By(pushed, u) + if u == author then [item] else []
  {
    assert (pushed + [(author, item)])[..|pushed|] == pushed;
  }

  /** An item of somebody else. */
  lemma OtherSent<T>(pushed: seq<(int, T)>, author: int, item: T, calls: Calls<T>, calls': Calls<T>, u: int)
    requires u != author && Left(calls', u) == Left(calls, u)
    ensures Account(pushed + [(author, item)], calls', u) == Account(pushed, calls, u)
  {
    SentOne(pushed, author, item, u);
    assert By(pushed, u) + [] == By(pushed, u);
  }

  /** An own item, which was all that was left. */
  lemma OwnSent<T>(pushed: seq<(int, T)>, t: int, item: T, calls: Calls<T>, calls': Calls<T>)
    requires Left(calls, t) == [item] && Left(calls', t) == []
    ensures Account(pushed + [(t, item)], calls', t) == Account(pushed, calls, t)
  {
    SentOne(pushed, t, item, t);
    assert (By(pushed, t) + [item]) + [] == By(pushed, t) + [item];
  }

  method PushIsr<T(0)>(q: Queue<T>, calls: Calls<T>, item: T)
    requires q.Valid() && Tracks(q, calls)
    modifies q.Repr()
    ensures q.Valid() && Tracks(q, calls) && old(q.pushed) <= q.pushed && old(q.popped) <= q.popped
    ensures forall u {:trigger Account(q.pushed, calls, u)} :: u != ISR ==>
      Account(q.pushed, calls, u) == Account(old(q.pushed), calls, u)
  {
    var done := q.PushFromIsr(item);
    forall u | u != ISR
      ensures Account(q.pushed, calls, u) == Account(old(q.pushed), calls, u)
    {
      if done { OtherSent(old(q.pushed), ISR, item, calls, calls, u); }
    }
  }

  method PopIsr<T(0)>(q: Queue<T>, calls: Calls<T>)
    requires q.Valid() && Tracks(q, calls)
    modifies q.Repr()
    ensures q.Valid() && Tracks(q, calls) && q.pushed == old(q.pushed) && old(q.popped) <= q.popped
  {
    var _ := q.PopFromIsr();
  }

  /** One event: nobody's account changes except by what it asks for. */
  method Step<T(0)>(q: Queue<T>, calls: Calls<T>, e: Event<T>) returns (calls': Calls<T>)
    requires q.Valid() && Tracks(q, calls)
    modifies q.Repr()
    ensures q.Valid() && Tracks(q, calls') && old(q.pushed) <= q.pushed && old(q.popped) <= q.popped
    ensures forall t {:trigger Account(q.pushed, calls', t)} :: t != ISR ==>
      Account(q.pushed, calls', t) == Account(old(q.pushed), calls, t) + Asked(q.rx.next.Length, calls, e, t)
  {
    calls' := calls;
    match e {
      case Enter(t, call) =>
        if MayEnter(q.rx.next.Length, calls, t, call) {
          calls' := calls[t := call];
        }
      case Round(t) =>
        var receiving := q.rx.Contains(t);
        var sending := q.tx.Contains(t);
        if t in calls && !receiving && !sending {
          calls' := RunRound(q, calls, t);
        }
      case IsrPush(item) => PushIsr(q, calls, item);
      case IsrPop => PopIsr(q, calls);
      case Empty => q.Reset();
    }
  }

  /** One round of the retry loop of the call that `t` is in: as much as fits goes in, or one
      item comes out, and the call returns when it has nothing left to do. */
  method RunRound<T(0)>(q: Queue<T>, calls: Calls<T>, t: int) returns (calls': Calls<T>)
    requires q.Valid() && Tracks(q, calls) && t in calls && t !in q.rx.list && t !in q.tx.list
    modifies q.Repr()
    ensures q.Valid() && Tracks(q, calls') && old(q.pushed) <= q.pushed && old(q.popped) <= q.popped
    ensures forall u {:trigger Account(q.pushed, calls', u)} :: Account(q.pushed, calls', u) == Account(old(q.pushed), calls, u)
    ensures |Left(calls', t)| == |Left(calls, t)| - Min(|Left(calls, t)|, q.buffer.Length - old(q.count))
    ensures t in calls' <==> if calls[t].Receiving? then old(q.count) == 0 else Left(calls', t) != []
  {
    match calls[t] {
      case Sending(item) => calls' := SendOne(q, calls, t, item);
      case SendingAll(items) => calls' := SendSome(q, calls, t, items);
      case Receiving => calls' := ReceiveOne(q, calls, t);
    }
  }

  method SendOne<T(0)>(q: Queue<T>, calls: Calls<T>, t: int, item: T) returns (calls': Calls<T>)
    requires q.Valid() && Tracks(q, calls) && t in calls && t !in q.rx.list && t !in q.tx.list && calls[t] == Sending(item)
    modifies q.Repr()
    ensures q.Valid() && Tracks(q, calls') && old(q.pushed) <= q.pushed && old(q.popped) <= q.popped
    ensures forall u {:trigger Account(q.pushed, calls', u)} :: Account(q.pushed, calls', u) == Account(old(q.pushed), calls, u)
    ensures Left(calls', t) == (if old(q.count) < q.buffer.Length then [] else [item]) && (t in calls' <==> Left(calls', t) != [])
  {
    var done := q.Push(t, item);
    calls' := if done then calls - {t} else calls;
    forall u
      ensures Account(q.pushed, calls', u) == Account(old(q.pushed), calls, u)
    {
      if done {
        if u == t { OwnSent(old(q.pushed), t, item, calls, calls'); } else { OtherSent(old(q.pushed), t, item, calls, calls', u); }
      }
    }
  }

  method SendSome<T(0)>(q: Queue<T>, calls: Calls<T>, t: int, items: seq<T>) returns (calls': Calls<T>)
    requires q.Valid() && Tracks(q, calls) && t in calls && t !in q.rx.list && t !in q.tx.list && calls[t] == SendingAll(items)
    modifies q.Repr()
    ensures q.Valid() && Tracks(q, calls') && old(q.pushed) <= q.pushed && old(q.popped) <= q.popped
    ensures forall u {:trigger Account(q.pushed, calls', u)} :: Account(q.pushed, calls', u) == Account(old(q.pushed), calls, u)
    ensures Left(calls', t) == items[Min(|items|, q.buffer.Length - old(q.count))..] && (t in calls' <==> Left(calls', t) != [])
  {
    var n := q.PushArr(t, items);
    calls' := if n == |items| then calls - {t} else calls[t := SendingAll(items[n..])];
    forall u
      ensures Account(q.pushed, calls', u) == Account(old(q.pushed), calls, u)
    {
      SentSome(old(q.pushed), calls, calls', t, items, n, u);
    }
  }

  lemma Rejoin<T>(front: seq<T>, items: seq<T>, n: nat)
    requires n <= |items|
    ensures (front + items[..n]) + items[n..] == front + items
    ensures n == |items| ==> (front + items[..n]) + [] == front + items
  {
  }

  lemma SentSome<T>(pushed: seq<(int, T)>, calls: Calls<T>, calls': Calls<T>, t: int, items: seq<T>, n: nat, u: int)
    requires t in calls && calls[t] == SendingAll(items) && n <= |items|
    requires calls' == if n == |items| then calls - {t} else calls[t := SendingAll(items[n..])]
    ensures Account(pushed + Signed(t, items[..n]), calls', u) == Account(pushed, calls, u)
  {
    BySigned(pushed, t, items[..n], u);
    Rejoin(By(pushed, u), items, n);
    if u != t { assert By(pushed, u) + [] == By(pushed, u); }
  }

  method ReceiveOne<T(0)>(q: Queue<T>, calls: Calls<T>, t: int) returns (calls': Calls<T>)
    requires q.Valid() && Tracks(q, calls) && t in calls && t !in q.rx.list && t !in q.tx.list && calls[t].Receiving?
    modifies q.Repr()
    ensures q.Valid() && Tracks(q, calls') && q.pushed == old(q.pushed) && old(q.popped) <= q.popped
    ensures forall u {:trigger Account(q.pushed, calls', u)} :: Account(q.pushed, calls', u) == Account(old(q.pushed), calls, u)
    ensures Left(calls', t) == [] && (t in calls' <==> old(q.count) == 0)
  {
    var r := q.Pop(t);
    calls' := if r.Some? then calls - {t} else calls;
  }

  /** No new call of `t` begins. */
  predicate Quiet<T(!new)>(script: seq<Event<T>>, t: int) {
    forall i :: 0 <= i < |script| && script[i].Enter? ==> script[i].t != t
  }

  /** Any events in any order, whoever is in a call at the start and whoever joins. A call that
      was in progress has put in a front part of its data, in order and with nothing of its own
      in between; one that has returned has put in all of it. */
  method Session<T(0,!new)>(q: Queue<T>, calls: Calls<T>, script: seq<Event<T>>) returns (calls': Calls<T>)
    requires q.Valid() && Tracks(q, calls)
    modifies q.Repr()
    ensures q.Valid() && Tracks(q, calls') && old(q.pushed) <= q.pushed && old(q.popped) <= q.popped
    ensures forall t {:trigger Quiet(script, t)} :: t != ISR && Quiet(script, t) ==>
      By(q.pushed, t) + Left(calls', t) == By(old(q.pushed), t) + Left(calls, t)
    ensures forall t {:trigger Quiet(script, t)} :: t != ISR && Quiet(script, t) && t !in calls' ==>
      By(q.pushed, t) == By(old(q.pushed), t) + Left(calls, t)
  {
    calls' := calls;
    for i := 0 to |script|
      invariant q.Valid() && Tracks(q, calls') && old(q.pushed) <= q.pushed && old(q.popped) <= q.popped
      invariant forall t {:trigger Quiet(script, t)} :: t != ISR && Quiet(script, t) ==>
        Account(q.pushed, calls', t) == Account(old(q.pushed), calls, t)
    {
      ghost var before, was := q.pushed, calls';
      calls' := Step(q, calls', script[i]);
      forall t | t != ISR && Quiet(script, t)
        ensures Account(q.pushed, calls', t) == Account(old(q.pushed), calls, t)
      {
        assert Account(before, was, t) == Account(old(q.pushed), calls, t);
        assert Asked(q.rx.next.Length, was, script[i], t) == [];
      }
    }
  }
}
