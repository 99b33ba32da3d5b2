/** The ready heap: an index-tracked binary min-heap over 64-bit virtual runtimes. */
module SchedHeap {
  import opened Common
  import opened SchedModel
  import opened SchedInvariants
  import opened SchedFairness

  function Parent(i: int): int { (i - 1) / 2 }

  /** Each of the first `n` heap cells holds a slot that knows its cell; all other slots
      have index -1. So no slot is in the heap twice. */
  ghost predicate Tracked(h: seq<int>, x: seq<int>, n: int) {
    && |h| == MAX_TASKS && |x| == MAX_TASKS && 0 <= n <= MAX_TASKS
    && (forall i :: 0 <= i < n ==> Slot(h[i]) && x[h[i]] == i)
    && (forall t :: 0 <= t < MAX_TASKS ==> x[t] == -1 || (0 <= x[t] < n && h[x[t]] == t))
  }

  /** The virtual runtime of the slot in cell `i`. */
  ghost function At(h: seq<int>, v: seq<int>, i: int): int
    requires |v| == MAX_TASKS
  {
    if 0 <= i < |h| && Slot(h[i]) then v[h[i]] else 0
  }

  /** Cell `j` is not smaller than its parent. */
  ghost predicate Above(h: seq<int>, v: seq<int>, j: int)
    requires |h| == MAX_TASKS && |v| == MAX_TASKS
  {
    0 < j < MAX_TASKS ==> At(h, v, Parent(j)) <= At(h, v, j)
  }

  /** Cell `j` is not smaller than its grandparent, `k` being its parent. */
  ghost predicate Across(h: seq<int>, v: seq<int>, k: int, j: int)
    requires |h| == MAX_TASKS && |v| == MAX_TASKS
  {
    0 < k && 0 < j && Parent(j) == k ==> At(h, v, Parent(k)) <= At(h, v, j)
  }

  /** The children of `k` are not smaller than its parent. */
  ghost predicate Bridged(h: seq<int>, v: seq<int>, n: int, k: int)
    requires |h| == MAX_TASKS && |v| == MAX_TASKS && n <= MAX_TASKS
  {
    forall j {:trigger Across(h, v, k, j)} :: 0 < j < n ==> Across(h, v, k, j)
  }

  ghost predicate Ordered(h: seq<int>, v: seq<int>, n: int)
    requires |h| == MAX_TASKS && |v| == MAX_TASKS
  {
    forall j {:trigger Above(h, v, j)} :: 0 < j < n ==> Above(h, v, j)
  }

  /** Only the element at `k` can be out of place, and only upwards; `start` is where the
      walk began, whose children are unchecked until something moves. */
  ghost predicate UpTo(h: seq<int>, v: seq<int>, n: int, k: int, start: int)
    requires |h| == MAX_TASKS && |v| == MAX_TASKS && n <= MAX_TASKS
  {
    && (forall j {:trigger Above(h, v, j)} :: 0 < j < n && j != k && (k == start ==> Parent(j) != start) ==> Above(h, v, j))
    && Bridged(h, v, n, k)
  }

  /** Only the element at `k` can be out of place, and only downwards. */
  ghost predicate DownFrom(h: seq<int>, v: seq<int>, n: int, k: int)
    requires |h| == MAX_TASKS && |v| == MAX_TASKS && n <= MAX_TASKS
  {
    && (forall j {:trigger Above(h, v, j)} :: 0 < j < n && Parent(j) != k ==> Above(h, v, j))
    && Bridged(h, v, n, k)
  }

  /** The words in `key` stand for the numbers in `v`. */
  ghost predicate Keys(key: seq<int>, v: seq<int>) {
    && |key| == MAX_TASKS && |v| == MAX_TASKS
    && forall t :: 0 <= t < MAX_TASKS ==> key[t] == v[t] % WORD
  }

  ghost predicate Close(v: seq<int>, t: int, u: int)
    requires |v| == MAX_TASKS
  {
    Slot(t) && Slot(u) ==> -HALF < v[t] - v[u] < HALF
  }

  /** All slots in the heap are less than 2^63 apart. */
  ghost predicate Window(x: seq<int>, v: seq<int>) {
    && |x| == MAX_TASKS && |v| == MAX_TASKS
    && forall t, u {:trigger Close(v, t, u)} :: Slot(t) && Slot(u) && x[t] != -1 && x[u] != -1 ==> Close(v, t, u)
  }

  // ---------------------------------------------------------------------------
  // Steps on the sequences

  function Swap(h: seq<int>, i: int, j: int): seq<int>
    requires 0 <= i < |h| && 0 <= j < |h|
  {
    h[i := h[j]][j := h[i]]
  }

  lemma SwapTracked(h: seq<int>, x: seq<int>, n: int, i: int, j: int)
    requires Tracked(h, x, n) && 0 <= i < n && 0 <= j < n && i != j
    ensures Tracked(Swap(h, i, j), x[h[j] := i][h[i] := j], n)
  {
  }

  /** Moving the element at `k` up past its parent. */
  lemma SwapUp(h: seq<int>, v: seq<int>, n: int, k: int, start: int)
    requires |h| == MAX_TASKS && |v| == MAX_TASKS && 0 < k < n <= MAX_TASKS && 0 <= k <= start
    requires UpTo(h, v, n, k, start) && At(h, v, k) < At(h, v, Parent(k))
    ensures UpTo(Swap(h, k, Parent(k)), v, n, Parent(k), start)
  {
    var p := Parent(k);
    var h' := Swap(h, k, p);
    assert p > 0 ==> Above(h, v, p);
    forall j | 0 < j < n && j != p
      ensures Above(h', v, j)
    {
      assert Across(h, v, k, j);
      assert j != k ==> Above(h, v, j) || Parent(j) == k;
    }
    forall j | 0 < j < n
      ensures Across(h', v, p, j)
    {
      assert j != k && Parent(j) != k ==> Above(h, v, j);
    }
  }

  /** Moving the element at `k` down past its smaller child `c`. */
  lemma SwapDown(h: seq<int>, v: seq<int>, n: int, k: int, c: int)
    requires |h| == MAX_TASKS && |v| == MAX_TASKS && 0 <= k && 0 < c < n <= MAX_TASKS && Parent(c) == k
    requires DownFrom(h, v, n, k) && At(h, v, c) < At(h, v, k)
    requires forall j :: 0 < j < n && Parent(j) == k ==> At(h, v, c) <= At(h, v, j)
    ensures DownFrom(Swap(h, k, c), v, n, c)
  {
    var h' := Swap(h, k, c);
    forall j | 0 < j < n && Parent(j) != c
      ensures Above(h', v, j)
    {
      assert Parent(j) != k ==> Above(h, v, j);
      assert Across(h, v, k, c);
    }
    forall j | 0 < j < n
      ensures Across(h', v, c, j)
    {
      assert Parent(j) == c ==> Above(h, v, j);
    }
  }

  lemma UpDone(h: seq<int>, v: seq<int>, n: int, k: int, start: int)
    requires |h| == MAX_TASKS && |v| == MAX_TASKS && 0 <= k <= start < n <= MAX_TASKS
    requires UpTo(h, v, n, k, start) && (k > 0 ==> At(h, v, Parent(k)) <= At(h, v, k))
    ensures DownFrom(h, v, n, start)
  {
    forall j | 0 < j < n && Parent(j) != start
      ensures Above(h, v, j)
    {
    }
    if k != start {
      forall j | 0 < j < n
        ensures Across(h, v, start, j)
      {
        assert Parent(j) == start ==> Above(h, v, j) && Above(h, v, start);
      }
    }
  }

  lemma DownDone(h: seq<int>, v: seq<int>, n: int, k: int)
    requires |h| == MAX_TASKS && |v| == MAX_TASKS && 0 <= k && n <= MAX_TASKS && DownFrom(h, v, n, k)
    requires 2 * k + 1 < n ==> At(h, v, k) <= At(h, v, 2 * k + 1)
    requires 2 * k + 2 < n ==> At(h, v, k) <= At(h, v, 2 * k + 2)
    ensures Ordered(h, v, n)
  {
    forall j | 0 < j < n
      ensures Above(h, v, j)
    {
      assert Parent(j) == k ==> j == 2 * k + 1 || j == 2 * k + 2;
    }
  }

  /** The root of an ordered heap is a minimum. */
  lemma {:induction false} RootIsMinimum(h: seq<int>, v: seq<int>, n: int, i: int)
    requires |h| == MAX_TASKS && |v| == MAX_TASKS && 0 <= i < n <= MAX_TASKS && Ordered(h, v, n)
    ensures At(h, v, 0) <= At(h, v, i)
    decreases i
  {
    if i > 0 {
      assert Above(h, v, i);
      RootIsMinimum(h, v, n, Parent(i));
    }
  }

  /** A slot outside the heap leaves room for it. */
  lemma RoomFor(h: seq<int>, x: seq<int>, n: int, t: int)
    requires Tracked(h, x, n) && Slot(t) && x[t] == -1
    ensures n < MAX_TASKS
  {
    NoDupBound([t] + h[..n], MAX_TASKS);
  }

  // ---------------------------------------------------------------------------
  // The class

  class ReadyHeap {
    const ready: array<int>
    const index: array<int>
    const key: array<int>
    var size: int
    ghost var v: seq<int>

    ghost predicate Shape()
      reads this, ready, index, key
    {
      && ready.Length == MAX_TASKS && index.Length == MAX_TASKS && key.Length == MAX_TASKS
      && ready != index && ready != key && index != key
      && Tracked(ready[..], index[..], size) && Keys(key[..], v) && Window(index[..], v)
    }

    ghost predicate Valid()
      reads this, ready, index, key
    {
      Shape() && Ordered(ready[..], v, size)
    }

    ghost function Members(): set<int>
      reads this, index
      requires index.Length == MAX_TASKS
    {
      set t | 0 <= t < MAX_TASKS && index[t] != -1
    }

    constructor ()
      ensures Valid() && Members() == {} && fresh(ready) && fresh(index) && fresh(key)
      ensures v == seq(MAX_TASKS, _ => 0)
    {
      ready := new int[MAX_TASKS](_ => 0);
      index := new int[MAX_TASKS](_ => -1);
      key := new int[MAX_TASKS](_ => 0);
      size := 0;
      v := seq(MAX_TASKS, _ => 0);
    }

    method NonEmpty() returns (r: bool)
      requires Shape()
      ensures r <==> Members() != {}
    {
      assert size > 0 ==> ready[..][0] in Members();
      r := size > 0;
    }

    /** The comparison of two heap cells. */
    method Less(i: int, j: int) returns (r: bool)
      requires Shape() && 0 <= i < size && 0 <= j < size
      ensures r <==> v[ready[i]] < v[ready[j]]
    {
      ghost var t, u := ready[..][i], ready[..][j];
      assert index[..][t] == i && index[..][u] == j;
      assert Close(v, t, u);
      VruntimeLtIsOrder(v[t], v[u]);
      r := VruntimeLt(key[ready[i]], key[ready[j]]);
    }

    /** `_swap_tasks`. */
    method SwapTasks(i: int, j: int)
      requires Shape() && 0 <= i < size && 0 <= j < size && i != j
      modifies ready, index
      ensures Shape() && ready[..] == Swap(old(ready[..]), i, j) && Members() == old(Members())
    {
      SwapTracked(ready[..], index[..], size, i, j);
      ghost var h, x := ready[..], index[..];
      var temp := ready[i];
      ready[i] := ready[j];
      ready[j] := temp;
      index[ready[i]] := i;
      index[ready[j]] := j;
      assert ready[..] == Swap(h, i, j);
      assert index[..] == x[h[j] := i][h[i] := j];
    }

    /** `_heap_up`. */
    method HeapUp(start: int)
      requires Shape() && 0 <= start < size && UpTo(ready[..], v, size, start, start)
      modifies ready, index
      ensures Shape() && DownFrom(ready[..], v, size, start) && Members() == old(Members())
    {
      var k := start;
      while k > 0
        invariant Shape() && 0 <= k <= start && UpTo(ready[..], v, size, k, start) && Members() == old(Members())
      {
        var parent := (k - 1) / 2;
        var less := Less(k, parent);
        if !less {
          break;
        }
        SwapUp(ready[..], v, size, k, start);
        SwapTasks(k, parent);
        k := parent;
      }
      UpDone(ready[..], v, size, k, start);
    }

    /** `_heap_down`. */
    method HeapDown(start: int)
      requires Shape() && 0 <= start < size && DownFrom(ready[..], v, size, start)
      modifies ready, index
      ensures Valid() && Members() == old(Members())
    {
      var k := start;
      while true
        invariant Shape() && 0 <= k < size && DownFrom(ready[..], v, size, k) && Members() == old(Members())
        decreases size - k
      {
        var left, right, smallest := 2 * k + 1, 2 * k + 2, k;
        if left < size {
          var less := Less(left, smallest);
          if less { smallest := left; }
        }
        if right < size {
          var less := Less(right, smallest);
          if less { smallest := right; }
        }
        if smallest == k {
          DownDone(ready[..], v, size, k);
          break;
        }
        SwapDown(ready[..], v, size, k, smallest);
        SwapTasks(k, smallest);
        k := smallest;
      }
    }

    /** Writing the virtual runtime of a task that is not in the heap. */
    method SetKey(t: int, value: int, ghost number: int)
      requires Valid() && Slot(t) && t !in Members() && value == number % WORD
      modifies this`v, key
      ensures Valid() && v == old(v)[t := number] && Members() == old(Members())
    {
      key[t] := value;
      v := v[t := number];
      assert Ordered(ready[..], v, size) by {
        forall j | 0 < j < size
          ensures Above(ready[..], v, j)
        {
          assert Above(ready[..], old(v), j);
        }
      }
      assert Window(index[..], v) by {
        forall a, b | Slot(a) && Slot(b) && index[..][a] != -1 && index[..][b] != -1
          ensures Close(v, a, b)
        {
          assert Close(old(v), a, b);
        }
      }
    }

    /** `_heap_insert`. The full-heap branch is dead: a task outside the heap leaves room. */
    method Insert(t: int)
      requires Valid() && Slot(t) && t !in Members()
      requires forall u {:trigger Close(v, t, u)} :: u in Members() ==> Close(v, t, u)
      modifies this`size, ready, index
      ensures Valid() && Members() == old(Members()) + {t}
    {
      RoomFor(ready[..], index[..], size, t);
      if size >= MAX_TASKS {
        return;
      }
      ghost var h := ready[..];
      index[t] := size;
      ready[size] := t;
      size := size + 1;
      assert Shape() by { WindowWith(old(index[..]), index[..], v, t); }
      assert UpTo(ready[..], v, size, size - 1, size - 1) by {
        forall j | 0 < j < size - 1
          ensures Above(ready[..], v, j)
        {
          assert Above(h, v, j);
        }
        assert forall j :: 0 < j < size ==> Parent(j) != size - 1;
      }
      HeapUp(size - 1);
      assert Ordered(ready[..], v, size);
    }

    /** `_heap_pop_min`; -1 stands for NULL. */
    method PopMin() returns (min: int)
      requires Valid()
      modifies this`size, ready, index
      ensures Valid() && Members() == old(Members()) - {min}
      ensures min == -1 <==> old(Members()) == {}
      ensures min != -1 ==> min in old(Members()) && forall u :: u in old(Members()) ==> v[min] <= v[u]
    {
      if size == 0 {
        return -1;
      }
      min := ready[0];
      ghost var h, x := ready[..], index[..];
      forall u | u in Members()
        ensures v[min] <= v[u]
      {
        RootIsMinimum(h, v, size, x[u]);
      }
      assert min in Members();
      Take(0);
      if size > 0 {
        HeapDown(0);
      }
    }

    /** `_heap_remove`. */
    method Remove(t: int)
      requires Valid() && Slot(t)
      modifies this`size, ready, index
      ensures Valid() && Members() == old(Members()) - {t}
    {
      if index[t] == -1 || index[t] >= size {
        return;
      }
      var i := index[t];
      Take(i);
      if i < size {
        HeapUp(i);
        HeapDown(i);
      }
    }

    /** The common part of the two removals: the last cell replaces cell `i`. */
    method Take(i: int)
      requires Valid() && 0 <= i < size
      modifies this`size, ready, index
      ensures Shape() && size == old(size) - 1 && Members() == old(Members()) - {old(ready[i])}
      ensures if i < size then UpTo(ready[..], v, size, i, i) else Ordered(ready[..], v, size)
    {
      ghost var h, x := ready[..], index[..];
      index[ready[i]] := -1;
      size := size - 1;
      if i < size {
        ready[i] := ready[size];
        index[ready[i]] := i;
      }
      assert Shape() by { WindowWithout(x, index[..], v); }
      HoleOk(h, ready[..], v, size, i);
    }
  }

  lemma WindowWith(x: seq<int>, x': seq<int>, v: seq<int>, t: int)
    requires Window(x, v) && |x'| == MAX_TASKS && Slot(t)
    requires forall u :: 0 <= u < MAX_TASKS && u != t ==> x'[u] == x[u]
    requires forall u {:trigger Close(v, t, u)} :: 0 <= u < MAX_TASKS && x[u] != -1 ==> Close(v, t, u)
    ensures Window(x', v)
  {
    forall a, b | Slot(a) && Slot(b) && x'[a] != -1 && x'[b] != -1
      ensures Close(v, a, b)
    {
      assert a == t || b == t || Close(v, a, b);
      assert a == t && b != t ==> Close(v, t, b);
      assert b == t && a != t ==> Close(v, t, a);
    }
  }

  lemma WindowWithout(x: seq<int>, x': seq<int>, v: seq<int>)
    requires Window(x, v) && |x'| == MAX_TASKS
    requires forall u :: 0 <= u < MAX_TASKS && x'[u] != -1 ==> x[u] != -1
    ensures Window(x', v)
  {
  }

  lemma HoleOk(h: seq<int>, h': seq<int>, v: seq<int>, n: int, i: int)
    requires |h| == MAX_TASKS && |h'| == MAX_TASKS && |v| == MAX_TASKS && 0 <= i <= n < MAX_TASKS
    requires Ordered(h, v, n + 1) && (if i < n then h' == h[i := h[n]] else h' == h)
    ensures if i < n then UpTo(h', v, n, i, i) else Ordered(h', v, n)
  {
    forall j | 0 < j < n
      ensures j != i && Parent(j) != i ==> Above(h', v, j)
      ensures Across(h', v, i, j)
    {
      assert Above(h, v, j);
      assert 0 < i ==> Above(h, v, i);
    }
  }
}
