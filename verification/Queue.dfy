/** Message queues: a ring buffer with FIFO lists of blocked senders and receivers. */
module Queue {
  import opened Common
  import opened WaitList

  /** An index past the end comes round to the start. */
  function Wrap(i: int, capacity: int): int {
    if i < capacity then i else i - capacity
  }

  lemma WrapIsMod(i: int, capacity: int)
    requires 0 <= i < 2 * capacity
    ensures i % capacity == Wrap(i, capacity)
  {
    if i < capacity {
      assert i / capacity == 0;
    } else {
      assert i == capacity * 1 + (i - capacity);
      assert i / capacity == 1;
    }
  }

  /** The items from `head` on, oldest first. */
  ghost function Items<T>(b: seq<T>, head: int, count: int): seq<T>
    requires 0 <= head < |b| && 0 <= count <= |b|
  {
    seq(count, i requires 0 <= i < count => b[Wrap(head + i, |b|)])
  }

  /** The buffer after writing items one by one from `tail` on. */
  ghost function WriteAll<T>(b: seq<T>, tail: int, items: seq<T>): (r: seq<T>)
    requires 0 <= tail < |b| && |items| <= |b|
    ensures |r| == |b|
  {
    if items == [] then b
    else
      var n := |items| - 1;
      WriteAll(b, tail, items[..n])[Wrap(tail + n, |b|) := items[n]]
  }

  /** What a cell holds after the writes: the item that fell on it, or what it held. */
  ghost function Cell<T>(b: seq<T>, tail: int, items: seq<T>, j: int): T
    requires 0 <= tail < |b| && |items| <= |b| && 0 <= j < |b|
  {
    var d := if tail <= j then j - tail else j - tail + |b|;
    if d < |items| then items[d] else b[j]
  }

  lemma {:induction false} WriteAllAt<T>(b: seq<T>, tail: int, items: seq<T>, j: int)
    requires 0 <= tail < |b| && |items| <= |b| && 0 <= j < |b|
    ensures WriteAll(b, tail, items)[j] == Cell(b, tail, items, j)
    decreases |items|
  {
    if items != [] {
      WriteAllAt(b, tail, items[..|items| - 1], j);
    }
  }

  /** Two buffers that agree on every cell are the same. */
  lemma WrittenCells<T>(b: seq<T>, tail: int, items: seq<T>, b': seq<T>)
    requires 0 <= tail < |b| && |items| <= |b| && |b'| == |b|
    requires forall j {:trigger b'[j]} :: 0 <= j < |b| ==> b'[j] == Cell(b, tail, items, j)
    ensures b' == WriteAll(b, tail, items)
  {
    forall j | 0 <= j < |b|
      ensures b'[j] == WriteAll(b, tail, items)[j]
    {
      WriteAllAt(b, tail, items, j);
    }
  }

  lemma ItemsCells<T>(b: seq<T>, head: int, count: int, items: seq<T>, b': seq<T>)
    requires 0 <= head < |b| && 0 <= count < |b| && count + |items| <= |b| && |b'| == |b|
    requires forall j {:trigger b'[j]} :: 0 <= j < |b| ==> b'[j] == Cell(b, Wrap(head + count, |b|), items, j)
    ensures Items(b', head, count + |items|) == Items(b, head, count) + items
  {
    forall i | 0 <= i < count + |items|
      ensures Items(b', head, count + |items|)[i] == (Items(b, head, count) + items)[i]
    {
      assert b'[Wrap(head + i, |b|)] == Cell(b, Wrap(head + count, |b|), items, Wrap(head + i, |b|));
    }
  }

  lemma ItemsDrop<T>(b: seq<T>, head: int, count: int)
    requires 0 <= head < |b| && 0 < count <= |b|
    ensures Items(b, head, count) == [b[head]] + Items(b, Wrap(head + 1, |b|), count - 1)
  {
    var rest := Items(b, Wrap(head + 1, |b|), count - 1);
    forall i | 0 <= i < count
      ensures Items(b, head, count)[i] == ([b[head]] + rest)[i]
    {
      if i > 0 {
        assert Wrap(Wrap(head + 1, |b|) + (i - 1), |b|) == Wrap(head + i, |b|);
        assert ([b[head]] + rest)[i] == rest[i - 1] == b[Wrap(head + i, |b|)];
      } else {
        assert Wrap(head + 0, |b|) == head;
      }
    }
  }

  /** Writing after the newest item appends to the contents. */
  lemma ItemsWrite<T>(b: seq<T>, head: int, count: int, items: seq<T>)
    requires 0 <= head < |b| && 0 <= count < |b| && count + |items| <= |b|
    ensures Items(WriteAll(b, Wrap(head + count, |b|), items), head, count + |items|) == Items(b, head, count) + items
  {
    var b' := WriteAll(b, Wrap(head + count, |b|), items);
    forall j | 0 <= j < |b|
      ensures b'[j] == Cell(b, Wrap(head + count, |b|), items, j)
    {
      WriteAllAt(b, Wrap(head + count, |b|), items, j);
    }
    ItemsCells(b, head, count, items, b');
  }

  /** Nobody on the list is stranded: what it waits for is covered by woken tasks. */
  ghost predicate Covered(list: seq<int>, woken: set<int>, available: int) {
    list != [] ==> available <= |woken|
  }

  /** The items of one author. */
  ghost function By<T>(log: seq<(int, T)>, author: int): seq<T> {
    if log == [] then []
    else By(log[..|log| - 1], author) + if log[|log| - 1].0 == author then [log[|log| - 1].1] else []
  }

  ghost function Signed<T>(author: int, items: seq<T>): seq<(int, T)> {
    seq(|items|, i requires 0 <= i < |items| => (author, items[i]))
  }

  ghost function Payloads<T>(log: seq<(int, T)>): seq<T> {
    seq(|log|, i requires 0 <= i < |log| => log[i].1)
  }

  lemma PayloadsAppend<T>(log: seq<(int, T)>, author: int, items: seq<T>)
    ensures Payloads(log + Signed(author, items)) == Payloads(log) + items
  {
  }

  lemma {:induction false} BySigned<T>(log: seq<(int, T)>, author: int, items: seq<T>, u: int)
    ensures By(log + Signed(author, items), u) == By(log, u) + if u == author then items else []
    decreases |items|
  {
    var all := log + Signed(author, items);
    if items == [] {
      assert all == log;
    } else {
      var n := |items| - 1;
      BySigned(log, author, items[..n], u);
      assert all[..|all| - 1] == log + Signed(author, items[..n]);
      assert items == items[..n] + [items[n]];
    }
  }

  /** Interrupt handlers push under this name. */
  const ISR := -1

  class Queue<T(0)> {
    const buffer: array<T>
    var head: int
    var tail: int
    var count: int
    const rx: WaitList
    const tx: WaitList

    /** Tasks woken by the queue that have not retried yet. */
    ghost var rxWoken: set<int>
    ghost var txWoken: set<int>

    /** Everything pushed, with its author, and everything popped or dropped by a reset. */
    ghost var pushed: seq<(int, T)>
    ghost var popped: seq<T>

    ghost predicate Ring()
      reads this, buffer
    {
      && buffer.Length > 0 && 0 <= head < buffer.Length && 0 <= count <= buffer.Length
      && tail == Wrap(head + count, buffer.Length)
    }

    ghost function Contents(): seq<T>
      reads this, buffer
      requires Ring()
    {
      Items(buffer[..], head, count)
    }

    ghost function Repr(): set<object>
      reads this
    {
      {this, buffer, rx, tx, rx.next, tx.next}
    }

    /** The wait lists are two lists over the same tasks, apart from each other and the buffer. */
    ghost predicate Lists()
      reads this, rx, tx, rx.next, tx.next
    {
      && rx.Valid() && tx.Valid() && rx != tx && rx.next != tx.next && rx.next.Length == tx.next.Length
      && buffer as object != rx.next && buffer as object != tx.next
    }

    /** Each task is in one place at most. */
    ghost predicate Apart()
      reads this, rx, tx
    {
      && NoDup(rx.list) && NoDup(tx.list) && rxWoken !! txWoken
      && (forall t :: t in rx.list ==> t !in tx.list && t !in rxWoken && t !in txWoken)
      && (forall t :: t in tx.list ==> t !in rxWoken && t !in txWoken)
    }

    /** No blocked task is stranded: queued receivers mean every item is spoken for by a woken
        receiver, queued senders that every free cell is by a woken sender. */
    ghost predicate Live()
      reads this, rx, tx
    {
      Covered(rx.list, rxWoken, count) && Covered(tx.list, txWoken, buffer.Length - count)
    }

    ghost predicate Valid()
      reads this, buffer, rx, tx, rx.next, tx.next
    {
      Ring() && Lists() && Apart() && Live() && popped + Contents() == Payloads(pushed)
    }

    /** Not blocked here and not about to retry the other operation. */
    ghost predicate MaySend(t: int)
      reads this, rx, tx
    {
      0 <= t < rx.next.Length && t !in rx.list && t !in tx.list && t !in rxWoken
    }

    ghost predicate MayReceive(t: int)
      reads this, rx, tx
    {
      0 <= t < rx.next.Length && t !in rx.list && t !in tx.list && t !in txWoken
    }

    /** A sender and a receiver are never both blocked with nobody woken; and when nobody is
        woken, blocked receivers mean an empty queue and blocked senders a full one. */
    lemma NeverStuck()
      requires Valid()
      ensures rx.list != [] && tx.list != [] ==> rxWoken + txWoken != {}
      ensures rxWoken == {} && rx.list != [] ==> count == 0
      ensures txWoken == {} && tx.list != [] ==> count == buffer.Length
    {
    }

    /** `queue_create` with both allocations successful. */
    constructor (tasks: nat, capacity: nat)
      requires capacity > 0
      ensures Valid() && buffer.Length == capacity && rx.next.Length == tasks && Contents() == [] && pushed == [] && popped == []
      ensures fresh(buffer) && fresh(rx) && fresh(tx) && fresh(rx.next) && fresh(tx.next)
      ensures rx.list == [] && tx.list == [] && rxWoken == {} && txWoken == {}
    {
      buffer := new T[capacity];
      rx := new WaitList(tasks);
      tx := new WaitList(tasks);
      head, tail, count := 0, 0, 0;
      rxWoken, txWoken, pushed, popped := {}, {}, [], [];
    }

    // -------------------------------------------------------------------------
    // Wake-ups

    /** The oldest waiting receiver, if any, is taken off the list and made runnable. */
    method WakeReceiver() returns (woke: bool)
      requires Lists() && Apart()
      modifies rx, this`rxWoken
      ensures Lists() && Apart() && (woke <==> old(rx.list) != [])
      ensures if woke then rx.list == old(rx.list)[1..] && rxWoken == old(rxWoken) + {old(rx.list)[0]} && |rxWoken| == old(|rxWoken|) + 1
              else rx.list == [] && rxWoken == old(rxWoken)
      ensures forall t :: t in rx.list || t in rxWoken <==> t in old(rx.list) || t in old(rxWoken)
    {
      ghost var was := rx.list;
      var t := rx.PopFirst();
      woke := t != -1;
      if woke {
        assert was == [t] + was[1..];
        rxWoken := rxWoken + {t};
      } else {
        assert was == [];
      }
    }

    method WakeSender() returns (woke: bool)
      requires Lists() && Apart()
      modifies tx, this`txWoken
      ensures Lists() && Apart() && (woke <==> old(tx.list) != [])
      ensures if woke then tx.list == old(tx.list)[1..] && txWoken == old(txWoken) + {old(tx.list)[0]} && |txWoken| == old(|txWoken|) + 1
              else tx.list == [] && txWoken == old(txWoken)
      ensures forall t :: t in tx.list || t in txWoken <==> t in old(tx.list) || t in old(txWoken)
    {
      ghost var was := tx.list;
      var t := tx.PopFirst();
      woke := t != -1;
      if woke {
        assert was == [t] + was[1..];
        txWoken := txWoken + {t};
      } else {
        assert was == [];
      }
    }

    // -------------------------------------------------------------------------
    // The ring

    /** One item is copied in and the oldest waiting receiver woken. */
    method Put(item: T, ghost author: int)
      requires Valid() && count < buffer.Length
      modifies this`tail, this`count, rx, this`rxWoken, this`pushed, buffer
      ensures Ring() && Lists() && Apart() && Contents() == old(Contents()) + [item] && count == old(count) + 1
      ensures pushed == old(pushed) + [(author, item)] && popped + Contents() == Payloads(pushed)
      ensures Covered(rx.list, rxWoken, count) && rx.list == old(rx.list)[Min(1, |old(rx.list)|)..]
      ensures rxWoken >= old(rxWoken) && forall t :: t in rx.list || t in rxWoken <==> t in old(rx.list) || t in old(rxWoken)
    {
      ghost var b := buffer[..];
      buffer[tail] := item;
      assert buffer[..] == WriteAll(b, tail, [item]) by {
        assert [item][..0] == [];
      }
      ItemsWrite(b, head, count, [item]);
      WrapIsMod(tail + 1, buffer.Length);
      tail := (tail + 1) % buffer.Length;
      count := count + 1;
      pushed := pushed + [(author, item)];
      assert Payloads(pushed) == Payloads(old(pushed)) + [item];
      var _ := WakeReceiver();
    }

    /** The oldest item is copied out and the oldest waiting sender woken. */
    method Take() returns (item: T)
      requires Valid() && count > 0
      modifies this`head, this`count, tx, this`txWoken, this`popped
      ensures Ring() && Lists() && Apart() && old(Contents()) == [item] + Contents() && count == old(count) - 1
      ensures popped == old(popped) + [item] && popped + Contents() == Payloads(pushed)
      ensures Covered(tx.list, txWoken, buffer.Length - count) && tx.list == old(tx.list)[Min(1, |old(tx.list)|)..]
      ensures txWoken >= old(txWoken) && forall t :: t in tx.list || t in txWoken <==> t in old(tx.list) || t in old(txWoken)
    {
      item := buffer[head];
      ItemsDrop(buffer[..], head, count);
      WrapIsMod(head + 1, buffer.Length);
      head := (head + 1) % buffer.Length;
      count := count - 1;
      popped := popped + [item];
      var _ := WakeSender();
    }

    // -------------------------------------------------------------------------
    // Task operations: each method is one round of the retry loop, under the lock

    /** `queue_push`: the item goes in, or the task joins the waiting senders. */
    method Push(t: int, item: T) returns (done: bool)
      requires Valid() && MaySend(t)
      modifies Repr()
      ensures Valid() && done == (old(count) < buffer.Length)
      ensures if done then pushed == old(pushed) + [(t, item)] && rx.list == old(rx.list)[Min(1, |old(rx.list)|)..] && tx.list == old(tx.list)
                           && txWoken == old(txWoken) - {t}
              else pushed == old(pushed) && rx.list == old(rx.list) && tx.list == old(tx.list) + [t] && Contents() == old(Contents())
      ensures popped == old(popped) && forall u :: u in rx.list || u in rxWoken <==> u in old(rx.list) || u in old(rxWoken)
      ensures forall u :: u != t ==> (u in tx.list || u in txWoken <==> u in old(tx.list) || u in old(txWoken))
    {
      done := count < buffer.Length;
      if done {
        Put(item, t);
        SenderDone(t);
      } else {
        WaitToSend(t);
      }
    }

    /** A sender that got through is not waited for any more; it used at least one free cell. */
    method SenderDone(ghost t: int)
      requires Ring() && Lists() && Apart() && Covered(rx.list, rxWoken, count) && Covered(tx.list, txWoken, buffer.Length - count + 1)
      modifies this`txWoken
      ensures txWoken == old(txWoken) - {t} && Ring() && Lists() && Apart() && Live()
    {
      txWoken := txWoken - {t};
    }

    /** With the queue full, the task joins the waiting senders. */
    method WaitToSend(t: int)
      requires Valid() && MaySend(t) && count == buffer.Length
      modifies tx, tx.next, this`txWoken
      ensures Valid() && tx.list == old(tx.list) + [t] && txWoken == old(txWoken) - {t}
    {
      tx.Remove(t);
      tx.Add(t);
      txWoken := txWoken - {t};
    }

    /** `queue_pop`: the oldest item comes out, or the task joins the waiting receivers. */
    method Pop(t: int) returns (r: Option<T>)
      requires Valid() && MayReceive(t)
      modifies this, rx, tx, rx.next
      ensures Valid() && pushed == old(pushed)
      ensures r.None? <==> old(count) == 0
      ensures match r
              case Some(item) => old(Contents()) == [item] + Contents() && popped == old(popped) + [item]
                                 && tx.list == old(tx.list)[Min(1, |old(tx.list)|)..] && rx.list == old(rx.list) && rxWoken == old(rxWoken) - {t}
              case None => popped == old(popped) && tx.list == old(tx.list) && rx.list == old(rx.list) + [t] && Contents() == old(Contents())
      ensures forall u :: u in tx.list || u in txWoken <==> u in old(tx.list) || u in old(txWoken)
      ensures forall u :: u != t ==> (u in rx.list || u in rxWoken <==> u in old(rx.list) || u in old(rxWoken))
    {
      if count > 0 {
        var item := Take();
        ReceiverDone(t);
        r := Some(item);
      } else {
        WaitToReceive(t);
        r := None;
      }
    }

    /** A receiver that got an item is not waited for any more. */
    method ReceiverDone(ghost t: int)
      requires Ring() && Lists() && Apart() && Covered(rx.list, rxWoken, count + 1) && Covered(tx.list, txWoken, buffer.Length - count)
      modifies this`rxWoken
      ensures rxWoken == old(rxWoken) - {t} && Ring() && Lists() && Apart() && Live()
    {
      rxWoken := rxWoken - {t};
    }

    /** With the queue empty, the task joins the waiting receivers. */
    method WaitToReceive(t: int)
      requires Valid() && MayReceive(t) && count == 0
      modifies rx, rx.next, this`rxWoken
      ensures Valid() && rx.list == old(rx.list) + [t] && rxWoken == old(rxWoken) - {t}
    {
      rx.Remove(t);
      rx.Add(t);
      rxWoken := rxWoken - {t};
    }

    /** `queue_push_from_isr`. */
    method PushFromIsr(item: T) returns (done: bool)
      requires Valid()
      modifies Repr()
      ensures Valid() && done == (old(count) < buffer.Length) && popped == old(popped)
      ensures pushed == if done then old(pushed) + [(ISR, item)] else old(pushed)
      ensures tx.list == old(tx.list) && txWoken == old(txWoken) && rx.list == old(rx.list)[if done then Min(1, |old(rx.list)|) else 0..]
      ensures forall u :: u in rx.list || u in rxWoken <==> u in old(rx.list) || u in old(rxWoken)
    {
      done := count < buffer.Length;
      if done {
        Put(item, ISR);
      }
    }

    /** `queue_pop_from_isr`. */
    method PopFromIsr() returns (r: Option<T>)
      requires Valid()
      modifies this, tx
      ensures Valid() && pushed == old(pushed) && (r.None? <==> old(count) == 0)
      ensures match r
              case Some(item) => old(Contents()) == [item] + Contents() && popped == old(popped) + [item]
                                 && tx.list == old(tx.list)[Min(1, |old(tx.list)|)..]
              case None => Contents() == old(Contents()) && popped == old(popped) && tx.list == old(tx.list)
      ensures rx.list == old(rx.list) && rxWoken == old(rxWoken)
      ensures forall u :: u in tx.list || u in txWoken <==> u in old(tx.list) || u in old(txWoken)
    {
      if count > 0 {
        var item := Take();
        r := Some(item);
      } else {
        r := None;
      }
    }

    /** `queue_peek`. */
    method Peek() returns (r: Option<T>)
      requires Valid()
      ensures if Contents() == [] then r == None else r == Some(Contents()[0])
    {
      if count > 0 {
        ItemsDrop(buffer[..], head, count);
        r := Some(buffer[head]);
      } else {
        r := None;
      }
    }

    /** `queue_reset`: the contents go and every waiting sender is woken. */
    method Reset()
      requires Valid()
      modifies this, tx
      ensures Valid() && Contents() == [] && tx.list == [] && rx.list == old(rx.list) && rxWoken == old(rxWoken)
      ensures pushed == old(pushed) && popped == old(popped + Contents())
      ensures forall t :: t in txWoken <==> t in old(tx.list) || t in old(txWoken)
    {
      popped := popped + Contents();
      head, tail, count := 0, 0, 0;
      WakeSenders();
    }

    /** Every waiting sender is woken. */
    method WakeSenders()
      requires Lists() && Apart()
      modifies tx, this`txWoken
      ensures Lists() && Apart() && tx.list == []
      ensures forall t :: t in txWoken <==> t in old(tx.list) || t in old(txWoken)
    {
      var more := true;
      while more
        invariant Lists() && Apart() && (!more ==> tx.list == [])
        invariant forall t :: t in tx.list || t in txWoken <==> t in old(tx.list) || t in old(txWoken)
        decreases more, |tx.list|
      {
        more := WakeSender();
      }
    }

    // -------------------------------------------------------------------------
    // Arrays

    /** `utils_memcpy` into the buffer. */
    method CopyIn(at: int, items: seq<T>)
      requires 0 <= at && at + |items| <= buffer.Length
      modifies buffer
      ensures forall j :: 0 <= j < buffer.Length ==>
        buffer[j] == if at <= j < at + |items| then items[j - at] else old(buffer[j])
    {
      var i := 0;
      while i < |items|
        invariant 0 <= i <= |items|
        invariant forall j :: 0 <= j < buffer.Length ==>
          buffer[j] == if at <= j < at + i then items[j - at] else old(buffer[j])
      {
        buffer[at + i] := items[i];
        i := i + 1;
      }
    }

    /** The write of `queue_push_arr`, in one part or two: the buffer, the tail and the count
        end up as after pushing the chunk item by item. */
    method WriteChunk(chunk: seq<T>)
      requires Ring() && 0 < |chunk| <= buffer.Length - count
      modifies buffer, this`tail, this`count
      ensures buffer[..] == WriteAll(old(buffer[..]), old(tail), chunk)
      ensures Ring() && Contents() == old(Contents()) + chunk && count == old(count) + |chunk|
    {
      ghost var b := buffer[..];
      ItemsWrite(b, head, count, chunk);
      CopyParts(chunk);
      count := count + |chunk|;
    }

    method CopyParts(chunk: seq<T>)
      requires 0 <= tail < buffer.Length && 0 < |chunk| <= buffer.Length
      modifies buffer, this`tail
      ensures buffer[..] == WriteAll(old(buffer[..]), old(tail), chunk) && tail == Wrap(old(tail) + |chunk|, buffer.Length)
    {
      ghost var b, at := buffer[..], tail;
      var first := buffer.Length - tail;
      if |chunk| <= first {
        CopyIn(tail, chunk);
        WrapIsMod(tail + |chunk|, buffer.Length);
        tail := (tail + |chunk|) % buffer.Length;
      } else {
        CopyIn(tail, chunk[..first]);
        CopyIn(0, chunk[first..]);
        tail := |chunk| - first;
      }
      WrittenCells(b, at, chunk, buffer[..]);
    }

    /** One round of `queue_push_arr`: as much of the data as fits goes in, waking one receiver
        for each item as long as there are any, or the task joins the waiting senders. */
    method PushArr(t: int, data: seq<T>) returns (n: nat)
      requires Valid() && MaySend(t) && data != []
      modifies Repr()
      ensures Valid() && n == if |data| < buffer.Length - old(count) then |data| else buffer.Length - old(count)
      ensures pushed == old(pushed) + Signed(t, data[..n]) && popped == old(popped)
      ensures if n == 0 then tx.list == old(tx.list) + [t] else tx.list == old(tx.list) && txWoken == old(txWoken) - {t}
      ensures rx.list == old(rx.list)[Min(n, |old(rx.list)|)..] && forall u :: u in rx.list || u in rxWoken <==> u in old(rx.list) || u in old(rxWoken)
      ensures forall u :: u != t ==> (u in tx.list || u in txWoken <==> u in old(tx.list) || u in old(txWoken))
    {
      if count == buffer.Length {
        WaitToSend(t);
        return 0;
      }
      var space := buffer.Length - count;
      n := if |data| < space then |data| else space;
      PutChunk(data[..n], t);
      SenderDone(t);
    }

    /** A chunk is copied in and a receiver woken for each of its items, while there are any. */
    method PutChunk(chunk: seq<T>, ghost author: int)
      requires Valid() && 0 < |chunk| <= buffer.Length - count
      modifies this`tail, this`count, rx, this`rxWoken, this`pushed, buffer
      ensures Ring() && Lists() && Apart() && count == old(count) + |chunk|
      ensures pushed == old(pushed) + Signed(author, chunk) && popped + Contents() == Payloads(pushed)
      ensures Covered(rx.list, rxWoken, count) && rx.list == old(rx.list)[Min(|chunk|, |old(rx.list)|)..]
      ensures forall t :: t in rx.list || t in rxWoken <==> t in old(rx.list) || t in old(rxWoken)
    {
      WriteChunk(chunk);
      ghost var all := popped + Contents();
      pushed := pushed + Signed(author, chunk);
      PayloadsAppend(old(pushed), author, chunk);
      assert all == old(popped + Contents()) + chunk;
      WakeReceivers(|chunk|);
    }

    /** Up to `n` receivers are woken, oldest first. */
    method WakeReceivers(n: nat)
      requires Lists() && Apart()
      modifies rx, this`rxWoken
      ensures Lists() && Apart() && forall u :: u in rx.list || u in rxWoken <==> u in old(rx.list) || u in old(rxWoken)
      ensures rx.list != [] ==> |rxWoken| == old(|rxWoken|) + n
      ensures rx.list == old(rx.list)[Min(n, |old(rx.list)|)..]
    {
      ghost var q := rx.list;
      var woken := 0;
      while woken < n && rx.head != -1
        invariant Lists() && Apart() && 0 <= woken <= n && |rxWoken| == old(|rxWoken|) + woken
        invariant woken <= |q| && rx.list == q[woken..]
        invariant forall u :: u in rx.list || u in rxWoken <==> u in q || u in old(rxWoken)
      {
        assert q[woken..][1..] == q[woken + 1..];
        var _ := WakeReceiver();
        woken := woken + 1;
      }
      assert woken == Min(n, |q|);
    }
  }
}
