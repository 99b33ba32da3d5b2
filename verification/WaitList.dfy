/** The FIFO wait list that the blocking primitives share: nodes linked through the tasks'
    wait nodes, with a head and a tail. Task -1 stands for NULL. */
module WaitList {
  import opened Common

  /** The list without element `i`. */
  function Drop(q: seq<int>, i: int): seq<int>
    requires 0 <= i < |q|
  {
    q[..i] + q[i + 1..]
  }

  /** `q` is what the links from `head` to `tail` spell. */
  ghost predicate Spells(next: seq<int>, head: int, tail: int, q: seq<int>) {
    && NoDup(q) && (forall i :: 0 <= i < |q| ==> 0 <= q[i] < |next|)
    && (if q == [] then head == -1 && tail == -1
        else head == q[0] && tail == q[|q| - 1] && next[tail] == -1
             && forall i :: 0 <= i < |q| - 1 ==> next[q[i]] == q[i + 1])
  }

  lemma SpellsDrop(next: seq<int>, head: int, tail: int, q: seq<int>, i: int, next': seq<int>)
    requires Spells(next, head, tail, q) && 0 <= i < |q|
    requires next' == if i > 0 then next[q[i - 1] := next[q[i]]] else next
    ensures var prev := if i > 0 then q[i - 1] else -1;
      Spells(next', if i == 0 then next[q[0]] else head, if i == |q| - 1 then prev else tail, Drop(q, i))
  {
    var r := Drop(q, i);
    forall j | 0 <= j < |r| - 1
      ensures next'[r[j]] == r[j + 1]
    {
      assert r[j] == if j < i then q[j] else q[j + 1];
      assert r[j + 1] == if j + 1 < i then q[j + 1] else q[j + 2];
    }
  }

  lemma SpellsTail(next: seq<int>, head: int, tail: int, q: seq<int>)
    requires Spells(next, head, tail, q) && q != []
    ensures Spells(next, next[head], if |q| == 1 then -1 else tail, q[1..])
    ensures |q| == 1 <==> next[head] == -1
  {
    assert |q| > 1 ==> next[q[0]] == q[1];
    assert forall i :: 0 <= i < |q| - 1 ==> q[1..][i] == q[i + 1];
  }

  class WaitList {
    const next: array<int>
    var head: int
    var tail: int
    ghost var list: seq<int>

    ghost predicate Valid()
      reads this, next
    {
      Spells(next[..], head, tail, list)
    }

    constructor (tasks: nat)
      ensures Valid() && list == [] && fresh(next) && next.Length == tasks
    {
      next := new int[tasks](_ => -1);
      head, tail, list := -1, -1, [];
    }

    /** Whether a task is on the list. */
    method Contains(t: int) returns (found: bool)
      requires Valid()
      ensures found <==> t in list
    {
      var curr := head;
      ghost var i := 0;
      while curr != -1
        invariant 0 <= i <= |list| && curr == if i < |list| then list[i] else -1
        invariant forall j :: 0 <= j < i ==> list[j] != t
        decreases |list| - i
      {
        if curr == t {
          return true;
        }
        assert i < |list| - 1 ==> next[list[i]] == list[i + 1];
        curr := next[curr];
        i := i + 1;
      }
      return false;
    }

    /** `_add_to_wait_list`. */
    method Add(t: int)
      requires Valid() && 0 <= t < next.Length && t !in list
      modifies this, next
      ensures Valid() && list == old(list) + [t]
    {
      next[t] := -1;
      if tail != -1 {
        next[tail] := t;
      } else {
        head := t;
      }
      tail := t;
      list := list + [t];
    }

    /** `_pop_from_wait_list`. */
    method PopFirst() returns (t: int)
      requires Valid()
      modifies this
      ensures Valid()
      ensures if old(list) == [] then t == -1 && list == [] else t == old(list)[0] && list == old(list)[1..]
    {
      if head == -1 {
        return -1;
      }
      SpellsTail(next[..], head, tail, list);
      t := head;
      head := next[t];
      list := list[1..];
      if head == -1 {
        tail := -1;
      }
    }

    /** Taking node `curr`, at position `i`, out of the list; `prev` is the node before it. */
    method Unlink(prev: int, curr: int, ghost i: int)
      requires Valid() && 0 <= i < |list| && curr == list[i] && prev == if i > 0 then list[i - 1] else -1
      modifies this, next
      ensures Valid() && list == Drop(old(list), i)
    {
      SpellsDrop(next[..], head, tail, list, i, if i > 0 then next[..][list[i - 1] := next[list[i]]] else next[..]);
      if prev != -1 {
        next[prev] := next[curr];
      } else {
        head := next[curr];
      }
      if curr == tail {
        tail := prev;
      }
      list := Drop(list, i);
    }

    /** `_remove_task_from_list`, `_remove_waiter`. */
    method Remove(t: int)
      requires Valid()
      modifies this, next
      ensures Valid()
      ensures if t in old(list) then exists i :: 0 <= i < |old(list)| && old(list)[i] == t && list == Drop(old(list), i)
              else list == old(list)
    {
      var curr, prev := head, -1;
      ghost var i := 0;
      while curr != -1
        invariant Valid() && list == old(list) && 0 <= i <= |list|
        invariant curr == if i < |list| then list[i] else -1
        invariant prev == if i > 0 then list[i - 1] else -1
        invariant forall j :: 0 <= j < i ==> list[j] != t
        decreases |list| - i
      {
        if curr == t {
          Unlink(prev, curr, i);
          return;
        }
        assert i < |list| - 1 ==> next[list[i]] == list[i + 1];
        prev := curr;
        curr := next[curr];
        i := i + 1;
      }
    }
  }
}
