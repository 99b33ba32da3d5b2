/** Mutexes with direct handoff and weight inheritance. */
module Mutex {
  import opened Common
  import opened WaitList

  /** Owner -1 stands for NULL. `weight` is what the scheduler charges by, `base` what a task
      has when it owns nothing. */
  datatype State = State(owner: int, waiters: seq<int>, weight: seq<int>, base: seq<int>)

  datatype Op = Lock(t: int) | Unlock(t: int)

  function At(weight: seq<int>, t: int): int { if 0 <= t < |weight| then weight[t] else 0 }

  /** The greatest weight among some tasks, 0 if there are none. */
  function Heaviest(q: seq<int>, weight: seq<int>): int {
    if q == [] then 0 else Max(Heaviest(q[..|q| - 1], weight), At(weight, q[|q| - 1]))
  }

  /** It is an upper bound, and one of the weights if the tasks have positive weights. */
  lemma {:induction false} HeaviestIs(q: seq<int>, weight: seq<int>)
    requires forall i :: 0 <= i < |q| ==> At(weight, q[i]) > 0
    ensures forall i :: 0 <= i < |q| ==> At(weight, q[i]) <= Heaviest(q, weight)
    ensures q != [] ==> exists i :: 0 <= i < |q| && At(weight, q[i]) == Heaviest(q, weight)
  {
    if q != [] {
      var n := |q| - 1;
      HeaviestIs(q[..n], weight);
      if At(weight, q[n]) >= Heaviest(q[..n], weight) {
        assert At(weight, q[n]) == Heaviest(q, weight);
      } else {
        var i :| 0 <= i < n && At(weight, q[..n][i]) == Heaviest(q[..n], weight);
        assert At(weight, q[i]) == Heaviest(q, weight);
      }
    }
  }

  predicate InRange(m: State) {
    && |m.base| == |m.weight| && -1 <= m.owner < |m.weight|
    && forall i :: 0 <= i < |m.waiters| ==> 0 <= m.waiters[i] < |m.weight|
  }

  /** A free mutex has no waiters; the owner weighs exactly as much as the heaviest of itself
      and its waiters; everybody else is at base weight. */
  ghost predicate Ok(m: State) {
    && InRange(m) && NoDup(m.waiters) && m.owner !in m.waiters
    && (m.owner == -1 ==> m.waiters == [])
    && (forall t :: 0 <= t < |m.base| ==> 0 < m.base[t])
    && (forall t :: 0 <= t < |m.base| && t != m.owner ==> m.weight[t] == m.base[t])
    && (m.owner >= 0 ==> m.weight[m.owner] == Max(m.base[m.owner], Heaviest(m.waiters, m.base)))
  }

  /** Only a task that is not blocked on the mutex acts. */
  predicate Enabled(m: State, op: Op) {
    0 <= op.t < |m.weight| && op.t !in m.waiters
  }

  /** What one atomic step does. */
  function Step(m: State, op: Op): State
    requires InRange(m) && Enabled(m, op)
  {
    match op
    case Lock(t) =>
      if m.owner == t then m
      else if m.owner == -1 then m.(owner := t)
      else m.(weight := m.weight[m.owner := Max(m.weight[m.owner], m.weight[t])], waiters := m.waiters + [t])
    case Unlock(t) =>
      if m.owner != t then m
      else
        var w := m.weight[t := m.base[t]];
        if m.waiters == [] then m.(owner := -1, weight := w)
        else
          var next, rest := m.waiters[0], m.waiters[1..];
          m.(owner := next, waiters := rest, weight := w[next := Max(w[next], Heaviest(rest, w))])
  }

  lemma {:induction false} SameHeaviest(q: seq<int>, w: seq<int>, w': seq<int>)
    requires forall i :: 0 <= i < |q| ==> At(w, q[i]) == At(w', q[i])
    ensures Heaviest(q, w) == Heaviest(q, w')
  {
    if q != [] {
      SameHeaviest(q[..|q| - 1], w, w');
    }
  }

  lemma LockKept(m: State, op: Op)
    requires Ok(m) && Enabled(m, op) && op.Lock?
    ensures Ok(Step(m, op))
  {
    var q := m.waiters;
    assert (q + [op.t])[..|q|] == q;
  }

  lemma UnlockKept(m: State, op: Op)
    requires Ok(m) && Enabled(m, op) && op.Unlock?
    ensures Ok(Step(m, op))
  {
    if m.owner == op.t && m.waiters != [] {
      var rest := m.waiters[1..];
      forall i | 0 <= i < |rest|
        ensures rest[i] in m.waiters && rest[i] != m.waiters[0]
      {
        assert rest[i] == m.waiters[i + 1];
      }
      SameHeaviest(rest, m.weight[op.t := m.base[op.t]], m.base);
    }
  }

  /** Every step keeps the mutex in order. */
  lemma OkKept(m: State, op: Op)
    requires Ok(m) && Enabled(m, op)
    ensures Ok(Step(m, op))
  {
    if op.Lock? { LockKept(m, op); } else { UnlockKept(m, op); }
  }

  // ---------------------------------------------------------------------------
  // Runs

  predicate Legal(m: State, ops: seq<Op>)
    decreases |ops|
  {
    ops == [] || (InRange(m) && Enabled(m, ops[0]) && Legal(Step(m, ops[0]), ops[1..]))
  }

  function Run(m: State, ops: seq<Op>): State
    requires Legal(m, ops)
    decreases |ops|
  {
    if ops == [] then m else Run(Step(m, ops[0]), ops[1..])
  }

  predicate Releases(m: State, op: Op) {
    op.Unlock? && op.t == m.owner
  }

  /** How often the owner of the moment unlocks during a run. */
  function Unlocks(m: State, ops: seq<Op>): nat
    requires Legal(m, ops)
    decreases |ops|
  {
    if ops == [] then 0
    else (if Releases(m, ops[0]) then 1 else 0) + Unlocks(Step(m, ops[0]), ops[1..])
  }

  lemma {:induction false} OkAlways(m: State, ops: seq<Op>)
    requires Ok(m) && Legal(m, ops)
    ensures Ok(Run(m, ops))
    decreases |ops|
  {
    if ops != [] {
      OkKept(m, ops[0]);
      OkAlways(Step(m, ops[0]), ops[1..]);
    }
  }

  /** Where the task at place `k` stands after one step. */
  lemma StepPlace(m: State, op: Op, k: nat) returns (j: nat)
    requires InRange(m) && Enabled(m, op) && k < |m.waiters| && (Releases(m, op) ==> k > 0)
    ensures j == (if Releases(m, op) then k - 1 else k) && j < |Step(m, op).waiters| && Step(m, op).waiters[j] == m.waiters[k]
  {
    j := if Releases(m, op) then k - 1 else k;
  }

  lemma {:induction false} Advances(m: State, ops: seq<Op>, k: nat)
    requires Legal(m, ops) && k < |m.waiters| && Unlocks(m, ops) <= k
    ensures k - Unlocks(m, ops) < |Run(m, ops).waiters| && Run(m, ops).waiters[k - Unlocks(m, ops)] == m.waiters[k]
    decreases |ops|
  {
    if ops != [] {
      var j := StepPlace(m, ops[0], k);
      Advances(Step(m, ops[0]), ops[1..], j);
    }
  }

  /** No barging: after `n` unlocks, and whatever else happened, the task that stood at place
      `k` stands at place `k - n`; so it is not the owner before the unlock number `k + 1`. */
  lemma NoBarging(m: State, ops: seq<Op>, k: nat)
    requires Ok(m) && Legal(m, ops) && k < |m.waiters| && Unlocks(m, ops) <= k
    ensures var m', n := Run(m, ops), Unlocks(m, ops);
      k - n < |m'.waiters| && m'.waiters[k - n] == m.waiters[k] && m'.owner != m.waiters[k]
  {
    Advances(m, ops, k);
    OkAlways(m, ops);
  }

  /** And that unlock makes it the owner. */
  lemma HandedOver(m: State, ops: seq<Op>, op: Op, k: nat)
    requires Ok(m) && Legal(m, ops) && k < |m.waiters| && Unlocks(m, ops) == k
    requires Enabled(Run(m, ops), op) && Releases(Run(m, ops), op)
    ensures InRange(Run(m, ops)) && Step(Run(m, ops), op).owner == m.waiters[k]
  {
    Advances(m, ops, k);
    OkAlways(m, ops);
  }

  /** Without an unlock the owner of a taken mutex stays the same. */
  lemma {:induction false} OwnerStays(m: State, ops: seq<Op>)
    requires Legal(m, ops) && m.owner != -1 && Unlocks(m, ops) == 0
    ensures Run(m, ops).owner == m.owner
    decreases |ops|
  {
    if ops != [] {
      OwnerStays(Step(m, ops[0]), ops[1..]);
    }
  }

  /** The task at place `k` becomes the owner with unlock number `k + 1` and stays it until the
      next one. */
  lemma {:induction false} OwnsAfter(m: State, ops: seq<Op>, k: nat)
    requires Ok(m) && Legal(m, ops) && k < |m.waiters| && Unlocks(m, ops) == k + 1
    ensures Run(m, ops).owner == m.waiters[k]
    decreases |ops|
  {
    var m' := Step(m, ops[0]);
    OkKept(m, ops[0]);
    if Releases(m, ops[0]) && k == 0 {
      OwnerStays(m', ops[1..]);
    } else {
      var j := StepPlace(m, ops[0], k);
      OwnsAfter(m', ops[1..], j);
    }
  }

  /** How many unlocks a task that asks for the mutex has to wait for. */
  function Ahead(m: State, t: int): nat {
    if m.owner == -1 || m.owner == t then 0 else |m.waiters| + 1
  }

  /** A task that asks for the mutex, after which anything may happen, owns it exactly from
      that number of unlocks on, until the next one: at once if it is free, and else after one
      unlock for the owner and one for each task that waits already. */
  lemma GetsInAfter(m: State, t: int, ops: seq<Op>)
    requires Ok(m) && Enabled(m, Lock(t)) && Legal(Step(m, Lock(t)), ops)
    requires Unlocks(Step(m, Lock(t)), ops) <= Ahead(m, t)
    ensures Run(Step(m, Lock(t)), ops).owner == t <==> Unlocks(Step(m, Lock(t)), ops) == Ahead(m, t)
  {
    var m' := Step(m, Lock(t));
    OkKept(m, Lock(t));
    if Ahead(m, t) == 0 {
      OwnerStays(m', ops);
    } else {
      var k := |m.waiters|;
      assert m'.waiters[k] == t;
      if Unlocks(m', ops) == k + 1 { OwnsAfter(m', ops, k); } else { NoBarging(m', ops, k); }
    }
  }

  // ---------------------------------------------------------------------------
  // The class

  class Mutex {
    var owner: int
    const list: WaitList
    const weight: array<int>
    const base: array<int>

    ghost predicate Shape()
      reads this, list, list.next, weight, base
    {
      list.Valid() && weight != base && list.next != weight && list.next != base && list.next.Length == weight.Length
    }

    ghost function View(): State
      reads this, list, weight, base
    {
      State(owner, list.list, weight[..], base[..])
    }

    ghost predicate Valid()
      reads this, list, list.next, weight, base
    {
      Shape() && Ok(View())
    }

    /** `so_mutex_init`, for tasks with the given base weights. */
    constructor (weights: seq<int>)
      requires forall t :: 0 <= t < |weights| ==> 0 < weights[t]
      ensures Valid() && View() == State(-1, [], weights, weights)
      ensures fresh(list) && fresh(list.next) && fresh(weight) && fresh(base)
    {
      owner := -1;
      list := new WaitList(|weights|);
      weight := new int[|weights|](i requires 0 <= i < |weights| => weights[i]);
      base := new int[|weights|](i requires 0 <= i < |weights| => weights[i]);
    }

    /** `_get_max_waiter_weight`. */
    method MaxWaiterWeight() returns (max: int)
      requires Shape() && InRange(View())
      ensures max == Heaviest(list.list, weight[..])
    {
      max := 0;
      var curr := list.head;
      ghost var i := 0;
      ghost var q := list.list;
      while curr != -1
        invariant 0 <= i <= |q| && curr == if i < |q| then q[i] else -1
        invariant max == Heaviest(q[..i], weight[..])
        decreases |q| - i
      {
        assert q[..i + 1][..i] == q[..i];
        assert i < |q| - 1 ==> list.next[q[i]] == q[i + 1];
        if weight[curr] > max {
          max := weight[curr];
        }
        curr := list.next[curr];
        i := i + 1;
      }
      assert q[..i] == q;
    }

    /** One round of `so_mutex_lock`; `held` says whether the task owns the mutex now. */
    method Lock(t: int) returns (held: bool)
      requires Valid() && Enabled(View(), Op.Lock(t))
      modifies this, list, list.next, weight
      ensures Valid() && View() == Step(old(View()), Op.Lock(t))
      ensures held <==> old(owner) == -1 || old(owner) == t
      ensures if held then owner == t && list.list == old(list.list) && weight[..] == old(weight[..])
              else owner == old(owner) && list.list == old(list.list) + [t]
      ensures !held ==> forall u :: 0 <= u < weight.Length && u != owner ==> weight[u] == old(weight[u])
      ensures !held ==> weight[owner] == if old(weight[t]) > old(weight[owner]) then old(weight[t]) else old(weight[owner])
    {
      OkKept(View(), Op.Lock(t));
      if owner == t {
        return true;
      }
      if owner == -1 {
        owner := t;
        return true;
      }
      Join(t);
      held := false;
    }

    /** The owner is boosted if need be, and the task joins the waiters. */
    method Join(t: int)
      requires Shape() && 0 <= t < weight.Length && t !in list.list && 0 <= owner < weight.Length
      modifies list, list.next, weight
      ensures Shape() && list.list == old(list.list) + [t]
      ensures weight[..] == old(weight[..])[owner := Max(old(weight[owner]), old(weight[t]))]
    {
      if weight[t] > weight[owner] {
        weight[owner] := weight[t];
      }
      list.Add(t);
    }

    /** `so_mutex_unlock`. */
    method Unlock(t: int)
      requires Valid() && Enabled(View(), Op.Unlock(t))
      modifies this, list, list.next, weight
      ensures Valid() && View() == Step(old(View()), Op.Unlock(t))
      ensures old(owner) != t ==> View() == old(View())
      ensures old(owner) == t ==> weight[t] == base[t] && t != owner
      ensures old(owner) == t && old(list.list) == [] ==> owner == -1 && list.list == []
      ensures old(owner) == t && old(list.list) != [] ==> owner == old(list.list)[0] && list.list == old(list.list)[1..]
    {
      OkKept(View(), Op.Unlock(t));
      if owner != t {
        return;
      }
      ghost var m := View();
      weight[t] := base[t];
      ghost var w := weight[..];
      assert w == m.weight[t := m.base[t]];
      var next := list.PopFirst();
      if next != -1 {
        owner := next;
        assert forall i :: 0 <= i < |list.list| ==> list.list[i] == m.waiters[i + 1];
        var max := MaxWaiterWeight();
        if max > weight[next] {
          weight[next] := max;
        }
        assert weight[..] == w[next := Max(w[next], Heaviest(list.list, w))];
      } else {
        owner := -1;
      }
    }
  }
}
