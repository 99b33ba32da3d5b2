/** `allocator_check_integrity` on any heap: it terminates, and returns 0 exactly when the headers
    spell a layout, the links spell lists that agree with the second-level bitmaps, and the
    counters are right. */
module TlsfIntegrity {
  import opened Common
  import opened TlsfMapping
  import opened TlsfLists
  import opened TlsfBlocks
  import opened TlsfState
  import opened TlsfHeap
  import opened TlsfLayout

  /** The list heads point into the heap, and there is a bit for each list. A list word past the
      end of memory, which only a damaged list leads to, reads as zero. */
  ghost predicate Readable(s: State) {
    && Geometry(s) && |s.sl| == FL_INDEX_MAX
    && (forall f {:trigger s.sl[f]} :: 0 <= f < FL_INDEX_MAX ==> |s.sl[f]| == SL_INDEX_COUNT)
    && (forall k {:trigger Head(s.heads, k)} :: InTable(k) && Head(s.heads, k) != NULL ==> s.lo <= Head(s.heads, k) < s.hi)
  }

  // ---------------------------------------------------------------------------
  // Lists in memory

  function Nth(list: seq<int>, i: int, rest: int): int {
    if i < 0 then NULL else if i < |list| then list[i] else rest
  }

  /** The bucket that a header word belongs in. */
  function Placed(min: nat, word: int): Bucket {
    Calc(min, if GetSize(word) < 0 then 0 else GetSize(word))
  }

  /** A node that may be on list `k`. */
  ghost predicate Fits(s: State, k: Bucket, b: int) {
    s.lo <= b < s.hi && IsFree(Read(s.mem, b)) && Placed(4 * s.w, Read(s.mem, b)) == k
  }

  ghost predicate NodeLinks(s: State, list: seq<int>, rest: int, i: int) {
    0 <= i < |list| ==> NextFree(s.mem, s.w, list[i]) == Nth(list, i + 1, rest) && PrevFree(s.mem, s.w, list[i]) == Nth(list, i - 1, rest)
  }

  /** Following the links from the head of list `k` meets `list` and then `rest`. */
  ghost predicate Spells(s: State, k: Bucket, list: seq<int>, rest: int) {
    && Head(s.heads, k) == Nth(list, 0, rest)
    && (forall i {:trigger Fits(s, k, list[i])} :: 0 <= i < |list| ==> Fits(s, k, list[i]))
    && (forall i {:trigger NodeLinks(s, list, rest, i)} :: NodeLinks(s, list, rest, i))
  }

  ghost predicate HasList(s: State, k: Bucket) { exists list :: Spells(s, k, list, NULL) }

  /** The list exists, and its bit is set exactly when it is not empty. */
  ghost predicate ListOk(s: State, k: Bucket)
    requires Readable(s)
  {
    InTable(k) ==> (s.sl[k.fl][k.sl] <==> Head(s.heads, k) != NULL) && HasList(s, k)
  }

  /** The back links tell the nodes apart. */
  lemma {:induction false} Distinct(s: State, k: Bucket, list: seq<int>, rest: int, i: nat, j: nat)
    requires Readable(s) && Spells(s, k, list, rest) && i < j < |list|
    ensures list[i] != list[j]
    decreases i
  {
    if list[i] == list[j] {
      assert NodeLinks(s, list, rest, i) && NodeLinks(s, list, rest, j) && Fits(s, k, list[j - 1]);
      if i > 0 { Distinct(s, k, list, rest, i - 1, j - 1); }
    }
  }

  /** So no list is longer than the heap, however the links are. */
  lemma Bounded(s: State, k: Bucket, list: seq<int>, rest: int)
    requires Readable(s) && Spells(s, k, list, rest)
    ensures NoDup(list) && |list| <= s.hi
  {
    forall i, j | 0 <= i < j < |list|
      ensures list[i] != list[j]
    {
      Distinct(s, k, list, rest, i, j);
    }
    ElemsSize(list);
    forall x | x in Elems(list)
      ensures x in Below(s.hi)
    {
      var i :| 0 <= i < |list| && list[i] == x;
      assert Fits(s, k, list[i]);
    }
    SubsetSize(Elems(list), Below(s.hi));
  }

  lemma {:induction false} SamePrefix(s: State, k: Bucket, a: seq<int>, b: seq<int>, i: nat)
    requires Readable(s) && Spells(s, k, a, NULL) && Spells(s, k, b, NULL) && i <= |a|
    ensures i <= |b| && a[..i] == b[..i]
  {
    if i > 0 {
      SamePrefix(s, k, a, b, i - 1);
      assert Fits(s, k, a[i - 1]) && NodeLinks(s, a, NULL, i - 2) && NodeLinks(s, b, NULL, i - 2);
      assert i > 1 ==> a[i - 2] == a[..i - 1][i - 2] && b[i - 2] == b[..i - 1][i - 2];
      assert Nth(a, i - 1, NULL) == Nth(b, i - 1, NULL);
      assert a[..i] == a[..i - 1] + [a[i - 1]] && b[..i] == b[..i - 1] + [b[i - 1]];
    }
  }

  lemma OneList(s: State, k: Bucket, a: seq<int>, b: seq<int>)
    requires Readable(s) && Spells(s, k, a, NULL) && Spells(s, k, b, NULL)
    ensures a == b
  {
    SamePrefix(s, k, a, b, |a|);
    SamePrefix(s, k, b, a, |b|);
  }

  /** One more node. */
  lemma Longer(s: State, k: Bucket, list: seq<int>, b: int)
    requires Readable(s) && Spells(s, k, list, b) && Fits(s, k, b) && PrevFree(s.mem, s.w, b) == Nth(list, |list| - 1, b)
    ensures Spells(s, k, list + [b], NextFree(s.mem, s.w, b))
  {
    var more, rest := list + [b], NextFree(s.mem, s.w, b);
    forall i
      ensures NodeLinks(s, more, rest, i)
    {
      assert NodeLinks(s, list, b, i);
    }
    forall i | 0 <= i < |more|
      ensures Fits(s, k, more[i])
    {
      assert i < |list| ==> Fits(s, k, list[i]);
    }
  }

  // ---------------------------------------------------------------------------
  // The walks

  /** Walk one list. It ends with 0 exactly when the links spell a list and the bit is right. */
  method WalkList(h: Heap, k: Bucket) returns (code: int, count: nat)
    requires Readable(h.View()) && InTable(k)
    ensures code == 0 || -13 <= code <= -8
    ensures code == 0 <==> ListOk(h.View(), k)
    ensures code == 0 ==> forall list {:trigger Spells(h.View(), k, list, NULL)} :: Spells(h.View(), k, list, NULL) ==> count == |list|
  {
    ghost var s := h.View();
    ghost var some, full := false, [];
    if HasList(s, k) {
      full :| Spells(s, k, full, NULL);
      some := true;
    }
    code, count := 0, 0;
    var block, prev := Head(h.control.blocks, k), NULL;
    if block != NULL && !h.control.slBitmap[k.fl][k.sl] { return -8, count; }
    if block == NULL && h.control.slBitmap[k.fl][k.sl] { return -9, count; }
    ghost var list: seq<int> := [];
    while block != NULL
      invariant h.View() == s && Spells(s, k, list, block) && count == |list| <= s.hi && prev == Nth(list, |list| - 1, NULL)
      invariant block != NULL ==> s.lo <= block < s.hi
      invariant some ==> Spells(s, k, full, NULL) && |list| <= |full| && block == Nth(full, |list|, NULL) && prev == Nth(full, |list| - 1, NULL)
      invariant some <==> HasList(s, k)
      decreases s.hi - |list|
    {
      if some { assert Fits(s, k, full[|list|]) && NodeLinks(s, full, NULL, |list|); }
      if !IsFree(h.mem[block]) { return -10, count; }
      if Read(h.mem, block + 3 * h.w) != prev { return -11, count; }
      if Placed(h.MinSize(), h.mem[block]) != k { return -12, count; }
      Longer(s, k, list, block);
      list := list + [block];
      Bounded(s, k, list, NextFree(s.mem, s.w, block));
      count := count + 1;
      prev := block;
      var next := Read(h.mem, block + 2 * h.w);
      if some && |list| < |full| { assert Fits(s, k, full[|list|]); }
      if next != NULL && (next < h.lo || next >= h.hi) { return -13, count; }
      block := next;
    }
    forall other | Spells(s, k, other, NULL)
      ensures count == |other|
    {
      OneList(s, k, list, other);
    }
  }

  /** The list that is there. */
  ghost function ListOf(s: State, k: Bucket): (list: seq<int>)
    ensures HasList(s, k) ==> Spells(s, k, list, NULL)
  {
    if HasList(s, k) then var list :| Spells(s, k, list, NULL); list else []
  }

  /** The nodes on all lists before (fl, sl). */
  ghost function Total(s: State, fl: nat, sl: nat): nat
    decreases fl, sl
  {
    if sl > 0 then Total(s, fl, sl - 1) + |ListOf(s, Bucket(fl, sl - 1))|
    else if fl > 0 then Total(s, fl - 1, SL_INDEX_COUNT)
    else 0
  }

  ghost predicate AllLists(s: State)
    requires Readable(s)
  {
    forall k {:trigger ListOk(s, k)} :: ListOk(s, k)
  }

  /** Second half: walk every list, check it against the bitmap, and count its nodes. */
  method LogicalWalk(h: Heap) returns (code: int, count: nat)
    requires Readable(h.View())
    ensures code == 0 || -13 <= code <= -8
    ensures code == 0 <==> AllLists(h.View())
    ensures code == 0 ==> count == Total(h.View(), FL_INDEX_MAX, 0)
  {
    ghost var s := h.View();
    code, count := 0, 0;
    var fl := 0;
    while fl < FL_INDEX_MAX
      invariant 0 <= fl <= FL_INDEX_MAX && h.View() == s && count == Total(s, fl, 0)
      invariant forall k: Bucket {:trigger ListOk(s, k)} :: k.fl < fl ==> ListOk(s, k)
    {
      var sl := 0;
      while sl < SL_INDEX_COUNT
        invariant 0 <= sl <= SL_INDEX_COUNT && h.View() == s && count == Total(s, fl, sl)
        invariant forall k: Bucket {:trigger ListOk(s, k)} :: k.fl < fl || (k.fl == fl && k.sl < sl) ==> ListOk(s, k)
      {
        var c, m := WalkList(h, Bucket(fl, sl));
        if c != 0 { return c, count; }
        assert Spells(s, Bucket(fl, sl), ListOf(s, Bucket(fl, sl)), NULL);
        count := count + m;
        sl := sl + 1;
      }
      fl := fl + 1;
    }
  }

  /** The counters are those of the layout. */
  ghost predicate CountersRight(s: State) {
    forall blk {:trigger Laid(s, blk)} :: Laid(s, blk) ==> Tallied(s, blk, s.n, s.hi)
  }

  /** `allocator_check_integrity`: what each class of results stands for. */
  method CheckIntegrity(h: Heap) returns (code: int)
    requires Readable(h.View())
    ensures -7 <= code <= -2 <==> !HasLayout(h.View())
    ensures -13 <= code <= -8 <==> HasLayout(h.View()) && !AllLists(h.View())
    ensures code == -14 <==> HasLayout(h.View()) && AllLists(h.View()) && !CountersRight(h.View())
    ensures code == -15 <==> HasLayout(h.View()) && AllLists(h.View()) && CountersRight(h.View())
                             && Total(h.View(), FL_INDEX_MAX, 0) != h.stats.freeBlocks
    ensures code == 0 <==> Passes(h.View())
  {
    ghost var s := h.View();
    var c, n := PhysicalWalk(h);
    if c != 0 { return c; }
    var d, listed := LogicalWalk(h);
    if d != 0 { return d; }
    SameCounts(s, n);
    if n != h.stats { return -14; }
    if listed != h.stats.freeBlocks { return -15; }
    return 0;
  }

  ghost predicate Passes(s: State)
    requires Readable(s)
  {
    HasLayout(s) && AllLists(s) && CountersRight(s) && Total(s, FL_INDEX_MAX, 0) == s.n.freeBlocks
  }

  lemma SameCounts(s: State, n: Counts)
    requires HasLayout(s) && forall blk {:trigger Laid(s, blk)} :: Laid(s, blk) ==> Tallied(s, blk, n, s.hi)
    ensures CountersRight(s) <==> n == s.n
  {
    var blk :| Laid(s, blk);
    if CountersRight(s) {
      forall k: Counter
        ensures Count(n, k) == Count(s.n, k)
      {
        assert Tallied(s, blk, n, s.hi) && Tallied(s, blk, s.n, s.hi);
      }
      assert Count(n, FreeMem) == n.freeMem && Count(n, UsedMem) == n.usedMem
          && Count(n, FreeBlocks) == n.freeBlocks && Count(n, UsedBlocks) == n.usedBlocks;
    }
  }
}
