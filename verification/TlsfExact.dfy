/** What a result of 0 from `allocator_check_integrity` is worth: exactly which heaps that pass
    satisfy the heap invariant. */
module TlsfExact {
  import opened Common
  import opened TlsfMapping
  import opened TlsfLists
  import opened TlsfBitmaps
  import opened TlsfBlocks
  import opened TlsfState
  import opened TlsfHeap
  import opened TlsfLayout
  import opened TlsfIntegrity

  /** The first-level bitmap, which the checker does not look at, agrees with the second. */
  ghost predicate FlRight(s: State)
    requires Readable(s)
  {
    && |s.fl| == 32 && !s.fl[30] && !s.fl[31]
    && forall f {:trigger s.fl[f]} {:trigger s.sl[f]} :: 0 <= f < FL_INDEX_MAX ==> (s.fl[f] <==> !IsZero(s.sl[f]))
  }

  /** Every node on a list is a block, and not something inside one that looks like a block. */
  ghost predicate Genuine(s: State) {
    forall blk, k {:trigger Laid(s, blk), ListOf(s, k)} :: Laid(s, blk) && InTable(k) ==> AreBlocks(blk, ListOf(s, k))
  }

  ghost predicate AreBlocks(blk: Blocks, list: seq<int>) {
    forall i {:trigger list[i]} :: 0 <= i < |list| ==> list[i] in blk
  }

  /** Some blocks, lists and stamps explain the memory. */
  ghost predicate Explained(s: State) {
    exists blk, tag, clock :: Valid(With(s, blk, tag, clock))
  }

  ghost function With(s: State, blk: Blocks, tag: map<int, Tag>, clock: nat): State {
    s.(blk := blk, tag := tag, clock := clock)
  }

  // ---------------------------------------------------------------------------
  // Counting listed and free blocks

  ghost function InBucket(tag: map<int, Tag>, k: Bucket): set<int> {
    set b | b in tag && tag[b].bucket == k
  }

  ghost function InEarlier(tag: map<int, Tag>, k: Bucket): set<int> {
    set b | b in tag && Before(tag[b].bucket, k)
  }

  function After(fl: nat, sl: nat): Bucket {
    if sl < SL_INDEX_COUNT then Bucket(fl, sl) else Bucket(fl + 1, 0)
  }

  lemma BucketAfter(tag: map<int, Tag>, k: Bucket)
    requires InTable(k) && forall b :: b in tag ==> InTable(tag[b].bucket)
    ensures |InEarlier(tag, After(k.fl, k.sl + 1))| == |InEarlier(tag, k)| + |InBucket(tag, k)|
  {
    var j := After(k.fl, k.sl + 1);
    forall b | b in tag
      ensures Before(tag[b].bucket, j) <==> Before(tag[b].bucket, k) || tag[b].bucket == k
    {
    }
    Union(InEarlier(tag, k), InBucket(tag, k));
    assert InEarlier(tag, j) == InEarlier(tag, k) + InBucket(tag, k);
  }

  lemma Ends(tag: map<int, Tag>)
    requires forall b :: b in tag ==> InTable(tag[b].bucket)
    ensures InEarlier(tag, Bucket(0, 0)) == {} && InEarlier(tag, Bucket(FL_INDEX_MAX, 0)) == tag.Keys
  {
    forall b | b in tag
      ensures !Before(tag[b].bucket, Bucket(0, 0)) && Before(tag[b].bucket, Bucket(FL_INDEX_MAX, 0))
    {
    }
  }

  /** The tags are what is on the lists. */
  ghost predicate TagsListed(s: State, tag: map<int, Tag>) {
    && (forall b :: b in tag ==> InTable(tag[b].bucket))
    && forall k {:trigger InBucket(tag, k)} :: InTable(k) ==> HasList(s, k) && InBucket(tag, k) == Elems(ListOf(s, k))
  }

  lemma {:induction false} TotalIs(s: State, tag: map<int, Tag>, fl: nat, sl: nat)
    requires Readable(s) && TagsListed(s, tag) && sl <= SL_INDEX_COUNT && (fl < FL_INDEX_MAX || (fl == FL_INDEX_MAX && sl == 0))
    ensures Total(s, fl, sl) == |InEarlier(tag, After(fl, sl))|
    decreases fl, sl
  {
    if sl > 0 {
      var k := Bucket(fl, sl - 1);
      TotalIs(s, tag, fl, sl - 1);
      BucketAfter(tag, k);
      assert InBucket(tag, k) == Elems(ListOf(s, k));
      Bounded(s, k, ListOf(s, k), NULL);
      ElemsSize(ListOf(s, k));
    } else if fl > 0 {
      TotalIs(s, tag, fl - 1, SL_INDEX_COUNT);
    } else {
      Ends(tag);
    }
  }

  ghost function FreeBlocksBelow(blk: Blocks, n: int): set<int> {
    set b | b in blk && blk[b].free && b < n
  }

  lemma {:induction false} FreeCounted(blk: Blocks, overhead: int, n: nat)
    requires forall b :: b in blk ==> 0 <= b
    ensures |FreeBlocksBelow(blk, n)| == Tally(blk, overhead, FreeBlocks, n)
  {
    if n == 0 {
      assert FreeBlocksBelow(blk, 0) == {};
    } else {
      FreeCounted(blk, overhead, n - 1);
      var x, y := FreeBlocksBelow(blk, n), FreeBlocksBelow(blk, n - 1);
      if n - 1 in blk && blk[n - 1].free { assert x == y + {n - 1}; } else { assert x == y; }
    }
  }

  lemma FreeOf(s: State, blk: Blocks)
    requires Geometry(s) && Laid(s, blk)
    ensures |FreeBlocksBelow(blk, s.hi)| == Tally(blk, 2 * s.w, FreeBlocks, s.hi)
    ensures forall b :: b in blk && blk[b].free ==> b in FreeBlocksBelow(blk, s.hi)
  {
    forall b | b in blk
      ensures 0 <= b < s.hi
    {
      InHeap(blk, 4 * s.w, s.lo, s.hi, b);
    }
    FreeCounted(blk, 2 * s.w, s.hi);
  }

  // ---------------------------------------------------------------------------
  // The invariant passes

  lemma ValidReadable(s: State)
    requires Valid(s)
    ensures Readable(s) && FlRight(s) && Laid(s, s.blk)
  {
    forall k | InTable(k) && Head(s.heads, k) != NULL
      ensures s.lo <= Head(s.heads, k) < s.hi
    {
      assert HeadLink(s.mem, s.w, s.heads, s.tag, k);
      assert TagOf(s.blk, s.tag, 4 * s.w, s.clock, Head(s.heads, k));
      ReadHeader(s, Head(s.heads, k));
    }
  }

  lemma {:induction false} ChainLinks(s: State, b: int, i: nat)
    requires Linked(s.mem, s.w, s.heads, s.tag) && b in s.tag && i < |Chain(s.mem, s.w, s.heads, s.tag, b)|
    ensures var c := Chain(s.mem, s.w, s.heads, s.tag, b);
      && c[0] == b && NextFree(s.mem, s.w, c[i]) == Nth(c, i + 1, NULL)
      && (i > 0 ==> PrevFree(s.mem, s.w, c[i]) == c[i - 1])
    decreases i
  {
    assert ForwardLink(s.mem, s.w, s.tag, b);
    var n := NextFree(s.mem, s.w, b);
    if n != NULL {
      var rest := Chain(s.mem, s.w, s.heads, s.tag, n);
      assert rest[0] == n;
      if i > 0 { ChainLinks(s, n, i - 1); }
    }
  }

  lemma ValidNode(s: State, b: int)
    requires Valid(s) && b in s.tag
    ensures b in s.blk && s.blk[b].free && Fits(s, s.tag[b].bucket, b)
  {
    assert TagOf(s.blk, s.tag, 4 * s.w, s.clock, b);
    ReadHeader(s, b);
  }

  /** The list of a bucket is there, and holds exactly its blocks. */
  lemma ValidList(s: State, k: Bucket)
    requires Valid(s) && Readable(s) && InTable(k)
    ensures HasList(s, k) && InBucket(s.tag, k) == Elems(ListOf(s, k))
  {
    forall c | c in s.tag
      ensures s.tag[c].stamp < s.clock
    {
      assert TagOf(s.blk, s.tag, 4 * s.w, s.clock, c);
    }
    ListIsBucket(s.mem, s.w, s.heads, s.tag, s.clock, k);
    assert HeadLink(s.mem, s.w, s.heads, s.tag, k);
    var h := Head(s.heads, k);
    var list := Chain(s.mem, s.w, s.heads, s.tag, h);
    forall i
      ensures NodeLinks(s, list, NULL, i)
    {
      if 0 <= i < |list| { ChainLinks(s, h, i); }
    }
    forall i | 0 <= i < |list|
      ensures Fits(s, k, list[i])
    {
      assert list[i] in list;
      ValidNode(s, list[i]);
    }
    assert Spells(s, k, list, NULL);
    OneList(s, k, list, ListOf(s, k));
    assert forall b :: b in InBucket(s.tag, k) <==> b in Elems(list);
  }

  lemma ValidTagsListed(s: State)
    requires Valid(s) && Readable(s)
    ensures TagsListed(s, s.tag)
  {
    forall k | InTable(k)
      ensures HasList(s, k) && InBucket(s.tag, k) == Elems(ListOf(s, k))
    {
      ValidList(s, k);
    }
  }

  lemma ValidPasses(s: State)
    requires Valid(s)
    ensures Readable(s) && Passes(s) && FlRight(s) && Genuine(s)
  {
    ValidReadable(s);
    ValidTagsListed(s);
    forall k | InTable(k)
      ensures ListOk(s, k) && AreBlocks(s.blk, ListOf(s, k))
    {
      assert InBucket(s.tag, k) == Elems(ListOf(s, k));
      assert s.sl[k.fl][k.sl] <==> Head(s.heads, k) != NULL;
      ListedAreTagged(s, k);
    }
    forall blk | Laid(s, blk)
      ensures blk == s.blk && Tallied(s, blk, s.n, s.hi)
    {
      OneLayout(s, blk, s.blk);
      ValidTallied(s);
    }
    ValidTotal(s);
  }

  lemma ValidTallied(s: State)
    requires Valid(s)
    ensures Tallied(s, s.blk, s.n, s.hi)
  {
    forall k: Counter
      ensures Count(s.n, k) == Tally(s.blk, 2 * s.w, k, s.hi)
    {
      assert Drift(s, k) == 0;
    }
  }

  lemma ListedAreTagged(s: State, k: Bucket)
    requires Valid(s) && InTable(k) && InBucket(s.tag, k) == Elems(ListOf(s, k))
    ensures AreBlocks(s.blk, ListOf(s, k))
  {
    var list := ListOf(s, k);
    forall i | 0 <= i < |list|
      ensures list[i] in s.blk
    {
      assert list[i] in Elems(list) && list[i] in InBucket(s.tag, k);
      ValidNode(s, list[i]);
    }
  }

  lemma TaggedAreFree(s: State)
    requires Valid(s) && Laid(s, s.blk)
    ensures s.tag.Keys == FreeBlocksBelow(s.blk, s.hi)
  {
    forall b
      ensures b in s.tag <==> b in FreeBlocksBelow(s.blk, s.hi)
    {
      if b in s.tag { ValidNode(s, b); }
      if b in FreeBlocksBelow(s.blk, s.hi) { InHeap(s.blk, 4 * s.w, s.lo, s.hi, b); }
    }
  }

  lemma ValidTotal(s: State)
    requires Valid(s) && Readable(s) && Laid(s, s.blk) && TagsListed(s, s.tag)
    ensures Total(s, FL_INDEX_MAX, 0) == s.n.freeBlocks
  {
    TotalIs(s, s.tag, FL_INDEX_MAX, 0);
    Ends(s.tag);
    FreeOf(s, s.blk);
    TaggedAreFree(s);
    assert Drift(s, FreeBlocks) == 0 && Count(s.n, FreeBlocks) == s.n.freeBlocks;
  }

  /** The checker accepts every valid heap. */
  method CheckValid(h: Heap) returns (code: int)
    requires Valid(h.View())
    ensures code == 0
  {
    ValidPasses(h.View());
    code := CheckIntegrity(h);
  }

  // ---------------------------------------------------------------------------
  // Passing, with those two conditions, is enough

  function IndexOf(list: seq<int>, b: int): (i: nat)
    requires b in list
    ensures i < |list| && list[i] == b
  {
    if list[0] == b then 0 else 1 + IndexOf(list[1..], b)
  }

  /** The bucket of a block. */
  function Home(s: State, blk: Blocks, b: int): Bucket
    requires b in blk
  {
    Calc(4 * s.w, if blk[b].size < 0 then 0 else blk[b].size)
  }

  /** What is on the list of its bucket, tagged with its place. */
  ghost function Tags(s: State, blk: Blocks): map<int, Tag> {
    map b | b in blk && b in ListOf(s, Home(s, blk, b)) ::
      Tag(Home(s, blk, b), |ListOf(s, Home(s, blk, b))| - 1 - IndexOf(ListOf(s, Home(s, blk, b)), b))
  }

  ghost predicate Good(s: State, blk: Blocks) {
    Readable(s) && Laid(s, blk) && AllLists(s) && Genuine(s)
  }

  /** A node is a free block of the bucket it is listed under. */
  lemma Listed(s: State, blk: Blocks, k: Bucket, i: nat)
    requires Good(s, blk) && InTable(k) && i < |ListOf(s, k)|
    ensures var b := ListOf(s, k)[i];
      && b in blk && blk[b].free && Home(s, blk, b) == k && 4 * s.w <= blk[b].size
      && b in Tags(s, blk) && Tags(s, blk)[b] == Tag(k, |ListOf(s, k)| - 1 - i)
  {
    var list := ListOf(s, k);
    assert ListOk(s, k) && Fits(s, k, list[i]) && AreBlocks(blk, list);
    var b := list[i];
    InHeap(blk, 4 * s.w, s.lo, s.hi, b);
    assert Read(s.mem, b) == SizeWord(blk[b]);
    SizeWordFields(blk[b]);
    Bounded(s, k, list, NULL);
    assert IndexOf(list, b) == i;
  }

  lemma TagIs(s: State, blk: Blocks, b: int) returns (k: Bucket, i: nat)
    requires Good(s, blk) && b in Tags(s, blk)
    ensures InTable(k) && b in blk && k == Home(s, blk, b) && i < |ListOf(s, k)| && ListOf(s, k)[i] == b
  {
    k := Home(s, blk, b);
    i := IndexOf(ListOf(s, k), b);
    InHeap(blk, 4 * s.w, s.lo, s.hi, b);
    CalcInTable(4 * s.w, blk[b].size);
  }

  lemma TagSelf(s: State, blk: Blocks, b: int)
    requires Good(s, blk) && b in Tags(s, blk)
    ensures InTable(Tags(s, blk)[b].bucket) && b != NULL && TagOf(blk, Tags(s, blk), 4 * s.w, s.hi, b)
  {
    var k, i := TagIs(s, blk, b);
    assert ListOk(s, k) && Fits(s, k, b);
    Listed(s, blk, k, i);
    Bounded(s, k, ListOf(s, k), NULL);
  }

  lemma TagForward(s: State, blk: Blocks, b: int)
    requires Good(s, blk) && b in Tags(s, blk)
    ensures ForwardLink(s.mem, s.w, Tags(s, blk), b)
  {
    var k, i := TagIs(s, blk, b);
    var list := ListOf(s, k);
    assert ListOk(s, k) && NodeLinks(s, list, NULL, i) && NodeLinks(s, list, NULL, i + 1);
    Listed(s, blk, k, i);
    if i + 1 < |list| { Listed(s, blk, k, i + 1); }
  }

  lemma TagBackward(s: State, blk: Blocks, b: int)
    requires Good(s, blk) && b in Tags(s, blk)
    ensures BackwardLink(s.mem, s.w, s.heads, Tags(s, blk), b)
  {
    var k, i := TagIs(s, blk, b);
    var list := ListOf(s, k);
    assert ListOk(s, k) && NodeLinks(s, list, NULL, i);
    Listed(s, blk, k, i);
    if i > 0 {
      Listed(s, blk, k, i - 1);
      assert NodeLinks(s, list, NULL, i - 1) && Fits(s, k, list[i - 1]);
    }
  }

  lemma TagsLinked(s: State, blk: Blocks)
    requires Good(s, blk)
    ensures Linked(s.mem, s.w, s.heads, Tags(s, blk)) && Tagged(blk, Tags(s, blk), 4 * s.w, s.hi)
  {
    forall b | b in Tags(s, blk)
      ensures InTable(Tags(s, blk)[b].bucket) && b != NULL
      ensures ForwardLink(s.mem, s.w, Tags(s, blk), b) && BackwardLink(s.mem, s.w, s.heads, Tags(s, blk), b)
      ensures TagOf(blk, Tags(s, blk), 4 * s.w, s.hi, b)
    {
      TagSelf(s, blk, b);
      TagForward(s, blk, b);
      TagBackward(s, blk, b);
    }
    forall k | InTable(k)
      ensures HeadLink(s.mem, s.w, s.heads, Tags(s, blk), k)
    {
      assert ListOk(s, k);
      var list := ListOf(s, k);
      if list != [] {
        Listed(s, blk, k, 0);
        assert NodeLinks(s, list, NULL, 0);
      }
    }
  }

  lemma TagsAre(s: State, blk: Blocks)
    requires Good(s, blk) && Linked(s.mem, s.w, s.heads, Tags(s, blk))
    ensures TagsListed(s, Tags(s, blk))
  {
    var tag := Tags(s, blk);
    forall k | InTable(k)
      ensures HasList(s, k) && InBucket(tag, k) == Elems(ListOf(s, k))
    {
      assert ListOk(s, k);
      forall b
        ensures b in InBucket(tag, k) <==> b in Elems(ListOf(s, k))
      {
        if b in ListOf(s, k) { Listed(s, blk, k, IndexOf(ListOf(s, k), b)); }
      }
      assert InBucket(tag, k) == Elems(ListOf(s, k));
    }
  }

  /** As many blocks are listed as are free, so all free blocks are listed. */
  lemma TagsComplete(s: State, blk: Blocks)
    requires Good(s, blk) && CountersRight(s) && Total(s, FL_INDEX_MAX, 0) == s.n.freeBlocks
    requires TagsListed(s, Tags(s, blk)) && Tagged(blk, Tags(s, blk), 4 * s.w, s.hi)
    ensures Complete(blk, Tags(s, blk), NULL)
  {
    var tag, free := Tags(s, blk), FreeBlocksBelow(blk, s.hi);
    TotalIs(s, tag, FL_INDEX_MAX, 0);
    Ends(tag);
    FreeOf(s, blk);
    assert Tallied(s, blk, s.n, s.hi) && Count(s.n, FreeBlocks) == s.n.freeBlocks;
    forall b | b in tag.Keys
      ensures b in free
    {
      assert TagOf(blk, tag, 4 * s.w, s.hi, b);
    }
    SubsetSize(tag.Keys, free);
  }

  lemma BitsRight(s: State)
    requires Readable(s) && AllLists(s) && FlRight(s)
    ensures Indexed(s.heads, s.fl, s.sl)
  {
    forall k | InTable(k)
      ensures s.sl[k.fl][k.sl] <==> Head(s.heads, k) != NULL
    {
      assert ListOk(s, k);
    }
  }

  lemma PassesExplained(s: State)
    requires Readable(s) && Passes(s) && FlRight(s) && Genuine(s)
    ensures Explained(s)
  {
    var blk :| Laid(s, blk);
    var tag := Tags(s, blk);
    TagsLinked(s, blk);
    TagsAre(s, blk);
    TagsComplete(s, blk);
    var t := With(s, blk, tag, s.hi);
    BitsRight(s);
    forall k: Counter
      ensures Drift(t, k) == 0
    {
      assert Tallied(s, blk, s.n, s.hi) && Count(s.n, k) == Tally(blk, 2 * s.w, k, s.hi);
    }
    assert Valid(t);
  }

  // ---------------------------------------------------------------------------
  // Exactly

  lemma SameRaw(s: State, t: State)
    requires t == With(s, t.blk, t.tag, t.clock) && Readable(t)
    ensures Readable(s)
    ensures forall blk {:trigger Laid(s, blk)} {:trigger Laid(t, blk)} :: Laid(s, blk) <==> Laid(t, blk)
    ensures forall k, list, rest {:trigger Spells(s, k, list, rest)} {:trigger Spells(t, k, list, rest)} ::
      Spells(s, k, list, rest) <==> Spells(t, k, list, rest)
  {
    forall k, list, rest
      ensures Spells(s, k, list, rest) <==> Spells(t, k, list, rest)
    {
      assert forall i :: NodeLinks(s, list, rest, i) <==> NodeLinks(t, list, rest, i);
      assert forall b :: Fits(s, k, b) <==> Fits(t, k, b);
    }
  }

  /** On every heap whose list heads point into it: the heap invariant holds, for some blocks and
      lists, if and only if the checker returns 0, the first-level bitmap agrees with the second,
      and every node on a list is a block. */
  lemma ExplainedIff(s: State)
    requires Readable(s)
    ensures Explained(s) <==> Passes(s) && FlRight(s) && Genuine(s)
  {
    if Explained(s) {
      var blk, tag, clock :| Valid(With(s, blk, tag, clock));
      var t := With(s, blk, tag, clock);
      ValidPasses(t);
      PassesRaw(s, t);
    }
    if Passes(s) && FlRight(s) && Genuine(s) { PassesExplained(s); }
  }

  /** Passing is a matter of the memory, the heads, the bitmaps and the counters only. */
  lemma PassesRaw(s: State, t: State)
    requires t == With(s, t.blk, t.tag, t.clock) && Readable(t) && Readable(s) && Passes(t) && FlRight(t) && Genuine(t)
    ensures Passes(s) && FlRight(s) && Genuine(s)
  {
    SameRaw(s, t);
    forall k
      ensures ListOk(s, k) && (InTable(k) ==> ListOf(s, k) == ListOf(t, k))
    {
      assert ListOk(t, k);
      if InTable(k) {
        assert Spells(t, k, ListOf(t, k), NULL) && Spells(s, k, ListOf(t, k), NULL);
        OneList(s, k, ListOf(s, k), ListOf(t, k));
      }
    }
    TotalRaw(s, t, FL_INDEX_MAX, 0);
    var blk :| Laid(t, blk);
    assert Laid(s, blk);
    forall m | Laid(s, m)
      ensures Tallied(s, m, s.n, s.hi)
    {
      assert Laid(t, m) && Tallied(t, m, t.n, t.hi);
    }
    forall m, k | Laid(s, m) && InTable(k)
      ensures AreBlocks(m, ListOf(s, k))
    {
      assert Laid(t, m) && AreBlocks(m, ListOf(t, k));
    }
  }

  lemma {:induction false} TotalRaw(s: State, t: State, fl: nat, sl: nat)
    requires forall k :: InTable(k) ==> ListOf(s, k) == ListOf(t, k)
    requires sl <= SL_INDEX_COUNT && (fl < FL_INDEX_MAX || (fl == FL_INDEX_MAX && sl == 0))
    ensures Total(s, fl, sl) == Total(t, fl, sl)
    decreases fl, sl
  {
    if sl > 0 {
      TotalRaw(s, t, fl, sl - 1);
    } else if fl > 0 {
      TotalRaw(s, t, fl - 1, SL_INDEX_COUNT);
    }
  }

  /** With the first-level bitmap cleared, a valid heap still passes, and no blocks and lists
      explain it. */
  lemma ClearedBitmapPasses(s: State, b: int)
    requires Valid(s) && b in s.blk && s.blk[b].free
    ensures var t := s.(fl := seq(32, _ => false)); Readable(t) && Passes(t) && !Explained(t)
  {
    var t := s.(fl := seq(32, _ => false));
    ValidPasses(s);
    ClearedRaw(s, t);
    Uncovered(s, b);
    assert !FlRight(t);
    ExplainedIff(t);
  }

  /** The row of a free block has a bit set. */
  lemma Uncovered(s: State, b: int)
    requires Valid(s) && b in s.blk && s.blk[b].free
    ensures exists f :: 0 <= f < FL_INDEX_MAX && f < |s.sl| && !IsZero(s.sl[f])
  {
    ReadHeader(s, b);
    assert b in s.tag;
    HeadOfBucket(s, b);
    var k := BucketOf(s, b);
    assert Head(s.heads, k) != NULL && s.sl[k.fl][k.sl];
    assert !IsZero(s.sl[k.fl]);
  }

  lemma ClearedRaw(s: State, t: State)
    requires Readable(s) && Passes(s) && t == s.(fl := t.fl)
    ensures Readable(t) && Passes(t)
  {
    forall k, list, rest
      ensures Spells(s, k, list, rest) <==> Spells(t, k, list, rest)
    {
      assert forall i :: NodeLinks(s, list, rest, i) <==> NodeLinks(t, list, rest, i);
      assert forall b :: Fits(s, k, b) <==> Fits(t, k, b);
    }
    assert forall blk :: Laid(s, blk) <==> Laid(t, blk);
    forall k
      ensures ListOk(t, k) && (InTable(k) ==> ListOf(s, k) == ListOf(t, k))
    {
      assert ListOk(s, k);
      if InTable(k) {
        assert Spells(s, k, ListOf(s, k), NULL) && Spells(t, k, ListOf(s, k), NULL);
        OneList(t, k, ListOf(t, k), ListOf(s, k));
      }
    }
    TotalRaw(s, t, FL_INDEX_MAX, 0);
    var blk :| Laid(s, blk);
    assert Laid(t, blk);
    forall m | Laid(t, m)
      ensures Tallied(t, m, t.n, t.hi)
    {
      assert Laid(s, m) && Tallied(s, m, s.n, s.hi);
    }
  }
}
