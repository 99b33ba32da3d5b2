/** Counting semaphores with a cap and FIFO waiters. */
module Semaphore {
  import opened Common
  import opened WaitList

  class Semaphore {
    const initial: nat
    const max: nat
    const waiters: WaitList
    var count: int

    /** Tasks woken that have not retried yet. */
    ghost var woken: set<int>

    /** Tokens added by signals and tokens taken by completed waits. */
    ghost var given: nat
    ghost var taken: nat

    ghost function Repr(): set<object>
      reads this
    {
      {this, waiters, waiters.next}
    }

    /** Waiters queued means every token is spoken for by a woken task; tokens are conserved;
        the count exceeds the cap only as far as the initial value did. */
    ghost predicate Valid()
      reads this, waiters, waiters.next
    {
      && waiters.Valid()
      && (forall t :: t in waiters.list ==> t !in woken)
      && (waiters.list != [] ==> count <= |woken|)
      && 0 <= count <= Max(initial, max)
      && count == initial + given - taken
    }

    ghost predicate MayWait(t: int)
      reads this, waiters
    {
      0 <= t < waiters.next.Length && t !in waiters.list
    }

    /** A blocked waiter with nobody woken means there is no token. */
    lemma NeverStuck()
      requires Valid()
      ensures waiters.list != [] && woken == {} ==> count == 0
      ensures initial <= max ==> count <= max
    {
    }

    /** `so_sem_init`. */
    constructor (tasks: nat, initial: nat, max: nat)
      ensures Valid() && fresh(waiters) && fresh(waiters.next) && count == initial
      ensures waiters.next.Length == tasks && waiters.list == [] && woken == {} && given == 0 && taken == 0
      ensures this.initial == initial && this.max == max && (count <= this.max <==> initial <= max)
    {
      this.initial, this.max, count := initial, max, initial;
      waiters := new WaitList(tasks);
      woken, given, taken := {}, 0, 0;
    }

    /** One round of `so_sem_wait`: take a token or join the waiters. */
    method Wait(t: int) returns (done: bool)
      requires Valid() && MayWait(t)
      modifies Repr()
      ensures Valid() && done == (old(count) > 0) && woken == old(woken) - {t} && given == old(given)
      ensures if done then count == old(count) - 1 && taken == old(taken) + 1 && waiters.list == old(waiters.list)
              else count == 0 && taken == old(taken) && waiters.list == old(waiters.list) + [t]
    {
      done := count > 0;
      if done {
        count := count - 1;
        taken := taken + 1;
      } else {
        waiters.Add(t);
      }
      woken := woken - {t};
    }

    /** `so_sem_signal`: the oldest waiter is woken, and the count goes up unless it is at the cap. */
    method Signal()
      requires Valid()
      modifies Repr()
      ensures Valid() && taken == old(taken)
      ensures count == if old(count) < max then old(count) + 1 else old(count)
      ensures if old(waiters.list) == [] then waiters.list == [] && woken == old(woken)
              else waiters.list == old(waiters.list)[1..] && woken == old(woken) + {old(waiters.list)[0]}
    {
      var _ := Wake();
      if count < max {
        count := count + 1;
        given := given + 1;
      }
    }

    /** The oldest waiter leaves the list and becomes runnable. */
    method Wake() returns (t: int)
      requires Valid()
      modifies waiters, waiters.next, this`woken
      ensures waiters.Valid() && forall u :: u in waiters.list ==> u !in woken
      ensures if old(waiters.list) == [] then t == -1 && waiters.list == [] && woken == old(woken)
              else t == old(waiters.list)[0] && waiters.list == old(waiters.list)[1..]
                   && woken == old(woken) + {t} && |woken| == old(|woken|) + 1
    {
      ghost var was := waiters.list;
      t := waiters.PopFirst();
      if t != -1 {
        assert was == [t] + was[1..];
        woken := woken + {t};
      } else {
        assert was == [];
      }
    }

    /** `so_sem_broadcast`: everybody is woken, with a token each up to the cap. */
    method Broadcast()
      requires Valid()
      modifies Repr()
      ensures Valid() && waiters.list == [] && taken == old(taken)
      ensures count == if old(count) >= max then old(count) else Min(max, old(count) + |old(waiters.list)|)
      ensures woken >= old(woken) && forall t :: t in old(waiters.list) ==> t in woken
    {
      ghost var n := 0;
      ghost var all := waiters.list;
      while true
        invariant Valid() && taken == old(taken) && 0 <= n <= |all| && waiters.list == all[n..] && woken >= old(woken)
        invariant forall i :: 0 <= i < n ==> all[i] in woken
        invariant count == if old(count) >= max then old(count) else Min(max, old(count) + n)
        decreases |waiters.list|
      {
        var t := Serve();
        if t == -1 {
          break;
        }
        n := n + 1;
      }
    }

    /** One round of the broadcast: the oldest waiter, if any, is woken with a token below the cap. */
    method Serve() returns (t: int)
      requires Valid()
      modifies Repr()
      ensures Valid() && taken == old(taken)
      ensures if old(waiters.list) == [] then t == -1 && waiters.list == [] && count == old(count) && woken == old(woken)
              else t == old(waiters.list)[0] != -1 && waiters.list == old(waiters.list)[1..] && woken == old(woken) + {t}
                   && count == if old(count) < max then old(count) + 1 else old(count)
    {
      t := Wake();
      if t != -1 && count < max {
        count := count + 1;
        given := given + 1;
      }
    }
  }
}
