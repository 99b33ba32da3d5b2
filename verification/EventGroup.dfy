/** Event groups: 32 bits, and tasks waiting for any or all of some of them. */
module EventGroup {
  import opened Common
  import opened WaitList

  /** A word as the set of its bits. */
  type Bits = set<int>

  /** What a task waits for; once `satisfied`, `bits` holds its result. */
  datatype Wait = Wait(bits: Bits, all: bool, clear: bool, satisfied: bool)

  predicate Satisfied(bits: Bits, w: Wait) {
    if w.all then w.bits <= bits else w.bits * bits != {}
  }

  /** The bits after a satisfied waiter has left. */
  function Consume(bits: Bits, w: Wait): Bits {
    if w.clear then bits - w.bits else bits
  }

  function Of(node: seq<Wait>, t: int): Wait {
    if 0 <= t < |node| then node[t] else Wait({}, false, false, false)
  }

  /** One wake pass over a list of waiters, oldest first: the bits it leaves, who stays, who
      is woken, and the bits each woken task is told. */
  datatype Outcome = Outcome(bits: Bits, kept: seq<int>, woken: seq<int>, told: seq<Bits>)

  function Pass(bits: Bits, q: seq<int>, node: seq<Wait>): Outcome {
    if q == [] then Outcome(bits, [], [], [])
    else if Satisfied(bits, Of(node, q[0])) then
      var left := Consume(bits, Of(node, q[0]));
      var r := Pass(left, q[1..], node);
      r.(woken := [q[0]] + r.woken, told := [left] + r.told)
    else
      var r := Pass(bits, q[1..], node);
      r.(kept := [q[0]] + r.kept)
  }

  // ---------------------------------------------------------------------------
  // What it means in bits

  lemma AnyIff(a: Bits, bits: Bits)
    ensures a * bits != {} <==> exists b :: b in a && b in bits
  {
    var c := a * bits;
    if b :| b in a && b in bits {
      assert b in c;
    } else {
      assert forall b :: b !in c;
      assert c == {};
    }
  }

  lemma AllIff(a: Bits, bits: Bits)
    ensures a <= bits <==> forall b :: b in a ==> b in bits
  {
    if forall b :: b in a ==> b in bits { assert a <= bits; }
  }

  /** WAIT_ALL is satisfied when every bit is set, WAIT_ANY when one is. */
  lemma SatisfiedIff(bits: Bits, w: Wait)
    ensures w.all ==> (Satisfied(bits, w) <==> forall b :: b in w.bits ==> b in bits)
    ensures !w.all ==> (Satisfied(bits, w) <==> exists b :: b in w.bits && b in bits)
  {
    if w.all { AllIff(w.bits, bits); } else { AnyIff(w.bits, bits); }
  }

  /** A bit is left after a pass if and only if it was set and no waiter that was woken and
      clears its bits had asked for it. */
  lemma {:induction false} BitLeft(bits: Bits, q: seq<int>, node: seq<Wait>, b: int)
    requires NoDup(q)
    ensures b in Pass(bits, q, node).bits <==>
      b in bits && forall t :: t in Pass(bits, q, node).woken && Of(node, t).clear ==> b !in Of(node, t).bits
    decreases |q|
  {
    if q != [] {
      var w := Of(node, q[0]);
      assert forall i :: 0 <= i < |q| - 1 ==> q[1..][i] == q[i + 1];
      var rest := if Satisfied(bits, w) then Consume(bits, w) else bits;
      BitLeft(rest, q[1..], node, b);
      var r := Pass(rest, q[1..], node);
      if Satisfied(bits, w) {
        assert Pass(bits, q, node).woken == [q[0]] + r.woken;
        assert forall t :: t in [q[0]] + r.woken <==> t == q[0] || t in r.woken;
      }
    }
  }

  // ---------------------------------------------------------------------------
  // What a pass does

  /** Bits only go, so a waiter that was not satisfied at its turn is not satisfied afterwards. */
  lemma {:induction false} PassSettles(bits: Bits, q: seq<int>, node: seq<Wait>)
    ensures Pass(bits, q, node).bits <= bits
    ensures forall t :: t in Pass(bits, q, node).kept ==> !Satisfied(Pass(bits, q, node).bits, Of(node, t))
    decreases |q|
  {
    if q != [] {
      var w := Of(node, q[0]);
      PassSettles(if Satisfied(bits, w) then Consume(bits, w) else bits, q[1..], node);
    }
  }

  /** `a` and `b` together make up `q`, each in the order of `q`. */
  ghost predicate Split(q: seq<int>, a: seq<int>, b: seq<int>) {
    if q == [] then a == [] && b == []
    else
      || (a != [] && a[0] == q[0] && Split(q[1..], a[1..], b))
      || (b != [] && b[0] == q[0] && Split(q[1..], a, b[1..]))
  }

  lemma {:induction false} PassSplits(bits: Bits, q: seq<int>, node: seq<Wait>)
    ensures var r := Pass(bits, q, node); Split(q, r.kept, r.woken) && |r.told| == |r.woken|
    decreases |q|
  {
    if q != [] {
      var w := Of(node, q[0]);
      PassSplits(if Satisfied(bits, w) then Consume(bits, w) else bits, q[1..], node);
    }
  }

  lemma {:induction false} PassConcat(bits: Bits, a: seq<int>, b: seq<int>, node: seq<Wait>)
    ensures var r := Pass(bits, a, node); var s := Pass(r.bits, b, node);
      Pass(bits, a + b, node) == Outcome(s.bits, r.kept + s.kept, r.woken + s.woken, r.told + s.told)
    decreases |a|
  {
    if a == [] {
      assert a + b == b;
    } else {
      var w := Of(node, a[0]);
      assert (a + b)[1..] == a[1..] + b;
      PassConcat(if Satisfied(bits, w) then Consume(bits, w) else bits, a[1..], b, node);
    }
  }

  lemma {:induction false} PassMembers(bits: Bits, q: seq<int>, node: seq<Wait>, t: int)
    ensures t in Pass(bits, q, node).kept || t in Pass(bits, q, node).woken <==> t in q
    decreases |q|
  {
    if q != [] {
      var w := Of(node, q[0]);
      assert q == [q[0]] + q[1..];
      PassMembers(if Satisfied(bits, w) then Consume(bits, w) else bits, q[1..], node, t);
    }
  }

  /** Exactly the waiters satisfied at their turn, by what those before them left, are woken. */
  lemma WokenAtTurn(bits: Bits, q: seq<int>, node: seq<Wait>, i: nat)
    requires NoDup(q) && i < |q|
    ensures q[i] in Pass(bits, q, node).woken <==> Satisfied(Pass(bits, q[..i], node).bits, Of(node, q[i]))
    ensures q[i] in Pass(bits, q, node).kept <==> !Satisfied(Pass(bits, q[..i], node).bits, Of(node, q[i]))
  {
    var before := Pass(bits, q[..i], node);
    assert q == q[..i] + q[i..];
    PassConcat(bits, q[..i], q[i..], node);
    PassMembers(bits, q[..i], node, q[i]);
    var w := Of(node, q[i]);
    PassMembers(if Satisfied(before.bits, w) then Consume(before.bits, w) else before.bits, q[i + 1..], node, q[i]);
    assert q[i..][1..] == q[i + 1..];
  }

  /** What a waiter is told: the bits as they are once it has taken its own. */
  lemma ToldAtTurn(bits: Bits, q: seq<int>, node: seq<Wait>, i: nat) returns (k: nat)
    requires NoDup(q) && i < |q| && q[i] in Pass(bits, q, node).woken
    ensures var r := Pass(bits, q, node);
      k < |r.woken| == |r.told| && r.woken[k] == q[i] && r.told[k] == Pass(bits, q[..i + 1], node).bits
  {
    var front, w := Pass(bits, q[..i], node), Of(node, q[i]);
    WokenAtTurn(bits, q, node, i);
    PassSplits(bits, q, node);
    PassSplits(bits, q[..i], node);
    assert q == q[..i] + q[i..] && q[..i + 1] == q[..i] + [q[i]] && q[i..][1..] == q[i + 1..] && [q[i]][1..] == [];
    PassConcat(bits, q[..i], q[i..], node);
    PassConcat(bits, q[..i], [q[i]], node);
    k := |front.woken|;
  }

  /** In bits: exactly the waiters that find all, or any, of their bits among those that are
      set at their turn are woken; and those that stay miss one, or all, of theirs among the
      bits left. */
  lemma WokenExactly(bits: Bits, q: seq<int>, node: seq<Wait>, i: nat)
    requires NoDup(q) && i < |q|
    ensures var r, turn, w := Pass(bits, q, node), Pass(bits, q[..i], node).bits, Of(node, q[i]);
      && (w.all ==> (q[i] in r.woken <==> forall b :: b in w.bits ==> b in turn))
      && (!w.all ==> (q[i] in r.woken <==> exists b :: b in w.bits && b in turn))
      && (w.all && q[i] in r.kept ==> exists b :: b in w.bits && b !in r.bits)
      && (!w.all && q[i] in r.kept ==> forall b :: b in w.bits ==> b !in r.bits)
      && (q[i] in r.kept <==> q[i] !in r.woken)
  {
    var r, turn, w := Pass(bits, q, node), Pass(bits, q[..i], node).bits, Of(node, q[i]);
    WokenAtTurn(bits, q, node, i);
    PassSettles(bits, q, node);
    SatisfiedIff(turn, w);
    SatisfiedIff(r.bits, w);
  }

  /** The waiter at the front of those that would take bits away. */
  ghost predicate Consumes(bits: Bits, w: Wait) {
    w.clear && w.bits * bits != {} && Satisfied(bits, w)
  }

  lemma Overlap(a: Bits, b: Bits)
    ensures a * b == {} <==> b - a == b
    ensures a * b != {} ==> !(b <= b - a)
  {
    var c := a * b;
    if x :| x in c {
      assert x in a && x in b && x !in b - a;
    } else {
      assert forall x :: x !in c;
      assert forall x :: x in b && x in a ==> x in c;
      assert b - a == b;
    }
  }

  /** A pass leaves the bits as they were exactly when no waiter that clears bits was satisfied
      by them to begin with. */
  lemma {:induction false} PassUnchanged(bits: Bits, q: seq<int>, node: seq<Wait>)
    ensures Pass(bits, q, node).bits == bits <==> forall i :: 0 <= i < |q| ==> !Consumes(bits, Of(node, q[i]))
    decreases |q|
  {
    if q != [] {
      var w := Of(node, q[0]);
      Overlap(w.bits, bits);
      if Consumes(bits, w) {
        PassSettles(Consume(bits, w), q[1..], node);
        assert Consumes(bits, Of(node, q[0]));
      } else {
        assert Satisfied(bits, w) ==> Consume(bits, w) == bits;
        PassUnchanged(bits, q[1..], node);
        assert forall i :: 0 < i < |q| ==> q[i] == q[1..][i - 1];
        assert forall i :: 0 <= i < |q| - 1 ==> q[1..][i] == q[i + 1];
      }
    }
  }

  // ---------------------------------------------------------------------------
  // The walk

  /** The outcome of a pass that has decided the first `i` waiters still on the list and
      woken others. */
  ghost function After(bits: Bits, q: seq<int>, i: int, node: seq<Wait>, woken: seq<int>, told: seq<Bits>): Outcome
    requires 0 <= i <= |q|
  {
    var r := Pass(bits, q[i..], node);
    Outcome(r.bits, q[..i] + r.kept, woken + r.woken, told + r.told)
  }

  lemma AfterWake(bits: Bits, q: seq<int>, i: int, node: seq<Wait>, woken: seq<int>, told: seq<Bits>)
    requires 0 <= i < |q| && Satisfied(bits, Of(node, q[i]))
    ensures var left := Consume(bits, Of(node, q[i]));
      After(bits, q, i, node, woken, told) == After(left, Drop(q, i), i, node, woken + [q[i]], told + [left])
    ensures forall t :: t in Drop(q, i) ==> t in q
    ensures NoDup(q) ==> q[i] !in Drop(q, i)
  {
    var left := Consume(bits, Of(node, q[i]));
    var r := Pass(left, q[i + 1..], node);
    assert q[i..][1..] == q[i + 1..] == Drop(q, i)[i..];
    assert Drop(q, i)[..i] == q[..i];
    assert woken + ([q[i]] + r.woken) == (woken + [q[i]]) + r.woken;
    assert told + ([left] + r.told) == (told + [left]) + r.told;
  }

  lemma AfterSkip(bits: Bits, q: seq<int>, i: int, node: seq<Wait>, woken: seq<int>, told: seq<Bits>)
    requires 0 <= i < |q| && !Satisfied(bits, Of(node, q[i]))
    ensures After(bits, q, i, node, woken, told) == After(bits, q, i + 1, node, woken, told)
  {
    var r := Pass(bits, q[i + 1..], node);
    assert q[i..][1..] == q[i + 1..];
    assert q[..i] + ([q[i]] + r.kept) == q[..i + 1] + r.kept;
  }

  lemma AfterAll(bits: Bits, q: seq<int>, node: seq<Wait>, woken: seq<int>, told: seq<Bits>)
    ensures After(bits, q, |q|, node, woken, told) == Outcome(bits, q, woken, told)
  {
    assert q[|q|..] == [] && q[..|q|] == q;
  }

  ghost predicate Told(node: seq<Wait>, node': seq<Wait>, t: int, bits: Bits) {
    0 <= t < |node| && |node'| == |node| && node'[t] == node[t].(bits := bits, satisfied := true)
  }

  ghost predicate Untouched(node: seq<Wait>, node': seq<Wait>, woken: seq<int>, t: int) {
    0 <= t < |node| && |node'| == |node| && t !in woken ==> node'[t] == node[t]
  }

  /** Woken tasks carry their result; nobody else's wait has changed. */
  ghost predicate Marked(node: seq<Wait>, node': seq<Wait>, woken: seq<int>, told: seq<Bits>) {
    && |node'| == |node| && |told| == |woken|
    && (forall k {:trigger Told(node, node', woken[k], told[k])} :: 0 <= k < |woken| ==> Told(node, node', woken[k], told[k]))
    && (forall t {:trigger Untouched(node, node', woken, t)} :: Untouched(node, node', woken, t))
  }

  lemma MarkedOne(node: seq<Wait>, mid: seq<Wait>, woken: seq<int>, told: seq<Bits>, t: int, bits: Bits)
    requires 0 <= t < |node| && t !in woken && Marked(node, mid, woken, told)
    ensures Marked(node, mid[t := mid[t].(bits := bits, satisfied := true)], woken + [t], told + [bits])
  {
    var node' := mid[t := mid[t].(bits := bits, satisfied := true)];
    assert Untouched(node, mid, woken, t);
    forall k | 0 <= k < |woken + [t]|
      ensures Told(node, node', (woken + [t])[k], (told + [bits])[k])
    {
      if k < |woken| {
        assert woken[k] in woken && Told(node, mid, woken[k], told[k]);
      }
    }
    forall u
      ensures Untouched(node, node', woken + [t], u)
    {
      assert Untouched(node, mid, woken, u);
    }
  }

  /** A walk over `node` that has come to place `i` of what is now the list `q`, with the bits
      and waits as they are now, and is going to end as `r`. */
  ghost predicate Progress(r: Outcome, node: seq<Wait>, bits: Bits, q: seq<int>, i: int, node': seq<Wait>,
                           woken: seq<int>, told: seq<Bits>) {
    forall key {:trigger Open(key)} :: Open(key) ==>
      && 0 <= i <= |q| && r == After(bits, q, i, node, woken, told) && Marked(node, node', woken, told)
      && forall t :: t in q ==> t !in woken
  }

  /** `Progress` unfolds where a proof opens it. */
  ghost predicate Open(key: int) { true }

  lemma ProgressBegins(node: seq<Wait>, bits: Bits, q: seq<int>)
    ensures Progress(Pass(bits, q, node), node, bits, q, 0, node, [], [])
  {
    assert q[..0] == [] && q[0..] == q;
  }

  lemma ProgressEnds(r: Outcome, node: seq<Wait>, bits: Bits, q: seq<int>, node': seq<Wait>, woken: seq<int>, told: seq<Bits>)
    requires Progress(r, node, bits, q, |q|, node', woken, told)
    ensures r == Outcome(bits, q, woken, told) && Marked(node, node', woken, told)
    ensures forall t :: t in q ==> t !in woken
  {
    assert Open(0);
    AfterAll(bits, q, node, woken, told);
  }

  lemma ProgressWake(r: Outcome, node: seq<Wait>, bits: Bits, q: seq<int>, i: int, mid: seq<Wait>, woken: seq<int>, told: seq<Bits>)
    requires Progress(r, node, bits, q, i, mid, woken, told) && 0 <= i < |q| && NoDup(q) && 0 <= q[i] < |mid| && Satisfied(bits, mid[q[i]])
    ensures var left := Consume(bits, mid[q[i]]);
      Progress(r, node, left, Drop(q, i), i, mid[q[i] := mid[q[i]].(bits := left, satisfied := true)], woken + [q[i]], told + [left])
  {
    assert Open(0);
    assert q[i] in q && Untouched(node, mid, woken, q[i]);
    AfterWake(bits, q, i, node, woken, told);
    MarkedOne(node, mid, woken, told, q[i], Consume(bits, mid[q[i]]));
  }

  lemma ProgressSkip(r: Outcome, node: seq<Wait>, bits: Bits, q: seq<int>, i: int, mid: seq<Wait>, woken: seq<int>, told: seq<Bits>)
    requires Progress(r, node, bits, q, i, mid, woken, told) && 0 <= i < |q| && 0 <= q[i] < |mid| && !Satisfied(bits, mid[q[i]])
    ensures Progress(r, node, bits, q, i + 1, mid, woken, told)
  {
    assert Open(0);
    assert q[i] in q && Untouched(node, mid, woken, q[i]);
    AfterSkip(bits, q, i, node, woken, told);
  }

  /** What a task that clears its bits is told when it finds them at once (the bits) and when
      it was queued (what it left): the same exactly when it does not clear or takes nothing. */
  lemma SameToldIff(bits: Bits, w: Wait, t: int, node: seq<Wait>)
    requires 0 <= t < |node| && node[t] == w && Satisfied(bits, w)
    ensures Pass(bits, [t], node).told == [Consume(bits, w)]
    ensures Consume(bits, w) == bits <==> !w.clear || w.bits * bits == {}
  {
    Overlap(w.bits, bits);
    assert [t][1..] == [];
  }

  // ---------------------------------------------------------------------------
  // The class

  class EventGroup {
    var bits: Bits
    const list: WaitList
    const node: array<Wait>

    ghost predicate Shape()
      reads this, list, list.next, node
    {
      list.Valid() && list.next.Length == node.Length && list.next as object != node
    }

    ghost predicate Unsatisfied(t: int)
      reads this, node
    {
      0 <= t < node.Length ==> !Satisfied(bits, node[t]) && !node[t].satisfied
    }

    /** No queued waiter is satisfied by the current bits. */
    ghost predicate Valid()
      reads this, list, list.next, node
    {
      Shape() && forall t {:trigger Unsatisfied(t)} :: t in list.list ==> Unsatisfied(t)
    }

    ghost function Repr(): set<object>
      reads this
    {
      {this, list, list.next, node}
    }

    /** Whoever is queued misses one of its bits, or all of them. */
    lemma QueuedMisses(t: int)
      requires Valid() && t in list.list
      ensures 0 <= t < node.Length
      ensures if node[t].all then exists b :: b in node[t].bits && b !in bits else forall b :: b in node[t].bits ==> b !in bits
    {
      assert Unsatisfied(t);
      SatisfiedIff(bits, node[t]);
    }

    /** `event_group_create`. */
    constructor (tasks: nat)
      ensures Valid() && fresh(Repr()) && bits == {} && list.list == [] && node.Length == tasks
    {
      bits := {};
      list := new WaitList(tasks);
      node := new Wait[tasks](_ => Wait({}, false, false, false));
    }

    /** The satisfied waiter `curr` leaves the list with its result, and takes its bits if asked to. */
    method WakeAt(prev: int, curr: int, ghost i: int)
      requires Shape() && 0 <= i < |list.list| && curr == list.list[i] && prev == if i > 0 then list.list[i - 1] else -1
      modifies Repr()
      ensures Shape() && list.list == Drop(old(list.list), i) && bits == Consume(old(bits), old(node[curr]))
      ensures node[..] == old(node[..])[curr := old(node[curr]).(bits := bits, satisfied := true)]
    {
      var w := node[curr];
      list.Unlink(prev, curr, i);
      bits := Consume(bits, w);
      node[curr] := w.(bits := bits, satisfied := true);
    }

    /** `_check_and_wake_tasks`: one walk along the list. */
    method Walk() returns (ghost r: Outcome)
      requires Shape()
      modifies Repr()
      ensures Shape() && r == Pass(old(bits), old(list.list), old(node[..]))
      ensures bits == r.bits && list.list == r.kept && Marked(old(node[..]), node[..], r.woken, r.told)
      ensures forall t :: t in list.list ==> t !in r.woken
    {
      r := Pass(bits, list.list, node[..]);
      ghost var w0 := node[..];
      ghost var woken, told := [], [];
      ghost var i := 0;
      var curr, prev := list.head, -1;
      ProgressBegins(w0, bits, list.list);
      while curr != -1
        invariant Shape() && 0 <= i <= |list.list|
        invariant curr == if i < |list.list| then list.list[i] else -1
        invariant prev == if i > 0 then list.list[i - 1] else -1
        invariant Progress(r, w0, bits, list.list, i, node[..], woken, told)
        decreases |list.list| - i
      {
        var q := list.next[curr];
        ghost var was := list.list;
        assert i < |was| - 1 ==> list.next[was[i]] == was[i + 1];
        if Satisfied(bits, node[curr]) {
          ProgressWake(r, w0, bits, was, i, node[..], woken, told);
          WakeAt(prev, curr, i);
          woken, told := woken + [curr], told + [bits];
          curr := q;
        } else {
          ProgressSkip(r, w0, bits, was, i, node[..], woken, told);
          prev := curr;
          curr := q;
          i := i + 1;
        }
      }
      ProgressEnds(r, w0, bits, list.list, node[..], woken, told);
    }

    /** After the walk nobody left on the list is satisfied. */
    method CheckAndWake() returns (ghost r: Outcome)
      requires Shape() && forall t :: t in list.list ==> !Of(node[..], t).satisfied
      modifies Repr()
      ensures Valid() && r == Pass(old(bits), old(list.list), old(node[..]))
      ensures bits == r.bits && list.list == r.kept && Marked(old(node[..]), node[..], r.woken, r.told)
    {
      ghost var b, q, w := bits, list.list, node[..];
      r := Walk();
      PassSettles(b, q, w);
      forall t | t in list.list
        ensures Unsatisfied(t)
      {
        PassMembers(b, q, w, t);
        assert Untouched(w, node[..], r.woken, t);
        assert 0 <= t < node.Length ==> node[..][t] == w[t] == Of(w, t);
      }
    }

    /** `event_group_set_bits`, also from an interrupt: the result is the bits before any waiter
        took its own away. */
    method Set(add: Bits) returns (result: Bits, ghost r: Outcome)
      requires Valid()
      modifies Repr()
      ensures Valid() && result == old(bits) + add
      ensures r == Pass(result, old(list.list), old(node[..]))
      ensures bits == r.bits && list.list == r.kept && Marked(old(node[..]), node[..], r.woken, r.told)
      ensures result == bits <==>
        forall i :: 0 <= i < |old(list.list)| ==> !Consumes(old(bits) + add, old(Of(node[..], list.list[i])))
    {
      bits := bits + add;
      result := bits;
      forall t | t in list.list
        ensures !Of(node[..], t).satisfied
      {
        assert old(Unsatisfied(t));
      }
      PassUnchanged(bits, list.list, node[..]);
      r := CheckAndWake();
    }

    /** `event_group_clear_bits`. */
    method Clear(remove: Bits) returns (result: Bits)
      requires Valid()
      modifies this`bits
      ensures Valid() && bits == old(bits) - remove && result == bits
    {
      bits := bits - remove;
      result := bits;
      forall t | t in list.list
        ensures Unsatisfied(t)
      {
        assert old(Unsatisfied(t));
      }
    }

    /** The first part of `event_group_wait_bits`: an immediate result, or the task waits. */
    method StartWait(t: int, want: Bits, all: bool, clear: bool) returns (now: bool, result: Bits)
      requires Valid() && 0 <= t < node.Length && t !in list.list
      modifies Repr()
      ensures Valid()
      ensures var w := Wait(want, all, clear, false);
        && now == Satisfied(old(bits), w) && node[..] == old(node[..])[t := w]
        && if now then result == old(bits) && bits == Consume(old(bits), w) && list.list == old(list.list)
           else bits == old(bits) && list.list == old(list.list) + [t]
      ensures all ==> (now <==> forall b :: b in want ==> b in old(bits))
      ensures !all ==> (now <==> exists b :: b in want && b in old(bits))
      ensures forall b :: b in bits <==> b in old(bits) && !(now && clear && b in want)
    {
      SatisfiedIff(bits, Wait(want, all, clear, false));
      node[t] := Wait(want, all, clear, false);
      result := bits;
      now := Satisfied(bits, node[t]);
      if now {
        bits := Consume(bits, node[t]);
      } else {
        list.Add(t);
      }
      forall u | u in list.list
        ensures Unsatisfied(u)
      {
        if u != t { assert old(Unsatisfied(u)); }
      }
    }

    /** The last part: the stored result, or, after a timeout, no result and off the list. */
    method EndWait(t: int) returns (result: Bits)
      requires Valid() && 0 <= t < node.Length && (t in list.list <==> !node[t].satisfied)
      modifies list, list.next
      ensures Valid() && t !in list.list
      ensures if node[t].satisfied then result == node[t].bits && list.list == old(list.list)
              else result == {} && exists i ::
                     0 <= i < |old(list.list)| && old(list.list)[i] == t && list.list == Drop(old(list.list), i)
    {
      ghost var was := list.list;
      if node[t].satisfied {
        result := node[t].bits;
      } else {
        result := {};
        list.Remove(t);
        ghost var i :| 0 <= i < |was| && was[i] == t && list.list == Drop(was, i);
        forall u | u in list.list
          ensures u in was && u != t && Unsatisfied(u)
        {
          assert old(Unsatisfied(u));
        }
      }
    }

    /** `event_group_wait_bits` with no time to wait. A task that does not find its bits is left
        on the list although the call returns. */
    method Poll(t: int, want: Bits, all: bool, clear: bool) returns (result: Bits)
      requires Valid() && 0 <= t < node.Length && t !in list.list
      modifies Repr()
      ensures Valid() && result == old(bits)
      ensures var w := Wait(want, all, clear, false);
        && bits == (if Satisfied(old(bits), w) then Consume(old(bits), w) else old(bits))
        && (t in list.list <==> !Satisfied(old(bits), w))
    {
      var now;
      now, result := StartWait(t, want, all, clear);
      if !now {
        result := bits;
      }
    }
  }

  /** One task waits for bit 0 and clears it; bit 0 is set. The result is {0}, and when the call
      returns no bit is set. */
  method StaleResult() returns (result: Bits, after: Bits)
    ensures result == {0} && after == {}
  {
    var e := new EventGroup(1);
    var now, _ := e.StartWait(0, {0}, false, true);
    ghost var node := e.node[..];
    assert node == [Wait({0}, false, true, false)] && e.list.list == [0];
    ghost var r;
    result, r := e.Set({0});
    SameToldIff({0}, node[0], 0, node);
    assert [0][1..] == [] && {0} * {0} == {0} && 0 in {0} * {0};
    after := e.bits;
  }
}
