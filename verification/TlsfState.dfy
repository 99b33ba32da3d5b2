/** The allocator's state as a value, and what each internal step does to it. */
module TlsfState {
  import opened TlsfMapping
  import opened TlsfLists
  import opened TlsfBitmaps
  import opened TlsfBlocks

  ghost predicate TagOf(blk: Blocks, tag: map<int, Tag>, min: nat, clock: nat, b: int)
    requires b in tag
  {
    b in blk && blk[b].free && 0 <= blk[b].size && tag[b].bucket == Calc(min, blk[b].size) && tag[b].stamp < clock
  }

  /** Tagged blocks are free and carry the bucket of their size. */
  ghost predicate Tagged(blk: Blocks, tag: map<int, Tag>, min: nat, clock: nat) {
    forall b {:trigger TagOf(blk, tag, min, clock, b)} :: b in tag ==> TagOf(blk, tag, min, clock, b)
  }

  /** Every free block other than `x` is in a list. */
  ghost predicate Complete(blk: Blocks, tag: map<int, Tag>, x: int) {
    forall b {:trigger b in tag} :: b in blk && blk[b].free && b != x ==> b in tag
  }

  /** Free neighbours occur at most next to `x`, and not before `x` if `right`. */
  ghost predicate CoalescedExcept(blk: Blocks, x: int, right: bool) {
    forall b {:trigger NotBothFree(blk, b)} :: b in blk && b != x && (right || End(blk, b) != x) ==> NotBothFree(blk, b)
  }

  /** The same live blocks with the same sizes. */
  ghost predicate SameLive(blk: Blocks, blk': Blocks) {
    forall u {:trigger u in blk} {:trigger u in blk'} :: (u in blk && !blk[u].free) || (u in blk' && !blk'[u].free) ==>
      u in blk && u in blk' && blk[u] == blk'[u]
  }

  lemma SizeWordFields(x: Block)
    requires IsAligned(x.size)
    ensures GetSize(SizeWord(x)) == x.size && (IsFree(SizeWord(x)) <==> x.free)
  {
    var f := if x.free then 1 else 0;
    AlignedNarrow(x.size);
    LowBitsSum(x.size, f, 4);
    LowBitsSum(x.size, f, 2);
  }

  lemma SpacedTags(blk: Blocks, tag: map<int, Tag>, w: int, lo: int, hi: int, limit: int, min: nat, clock: nat, b: int)
    requires 0 < w && 0 < lo && hi <= limit && Tiling(blk, 4 * w, lo, hi) && Tagged(blk, tag, min, clock) && b in blk
    ensures Spaced(tag.Keys + {b}, w, limit)
  {
    TilingSpaces(blk, w, lo, hi, limit);
    forall x | x in tag.Keys + {b}
      ensures x in blk.Keys
    {
      assert x != b ==> TagOf(blk, tag, min, clock, x);
    }
  }

  /** List insertion writes only link words of free blocks. */
  lemma InsertFrame(mem: Memory, w: int, blk: Blocks, lo: int, hi: int, heads: Heads, k: Bucket, b: int)
    requires 0 < w && 0 < lo && hi <= |mem| && Tiling(blk, 4 * w, lo, hi) && b in blk && blk[b].free
    requires var h := Head(heads, k); h != NULL ==> h in blk && blk[h].free
    ensures SameHeaders(mem, InsertMem(mem, w, heads, k, b), w, blk)
    ensures SamePayloads(mem, InsertMem(mem, w, heads, k, b), w, blk, lo, hi)
  {
    InHeap(blk, 4 * w, lo, hi, b);
    LinkWrite(mem, w, blk, lo, hi, b, b + 2 * w, Head(heads, k));
    var m1 := Write(mem, b + 2 * w, Head(heads, k));
    LinkWrite(m1, w, blk, lo, hi, b, b + 3 * w, NULL);
    var m2 := Write(m1, b + 3 * w, NULL);
    FramesCompose(mem, m1, m2, w, blk, lo, hi);
    var h := Head(heads, k);
    if h != NULL {
      InHeap(blk, 4 * w, lo, hi, h);
      LinkWrite(m2, w, blk, lo, hi, h, h + 3 * w, b);
      FramesCompose(mem, m2, Write(m2, h + 3 * w, b), w, blk, lo, hi);
    }
  }

  lemma LinkWrite(mem: Memory, w: int, blk: Blocks, lo: int, hi: int, b: int, a: int, v: int)
    requires 0 < w && 0 < lo && hi <= |mem| && Tiling(blk, 4 * w, lo, hi) && b in blk && blk[b].free
    requires b + 2 * w <= a < b + 4 * w
    ensures SameHeaders(mem, Write(mem, a, v), w, blk) && SamePayloads(mem, Write(mem, a, v), w, blk, lo, hi)
  {
    InHeap(blk, 4 * w, lo, hi, b);
    WriteKeepsHeaders(mem, w, blk, lo, hi, b, a, v);
    WriteKeepsPayloads(mem, w, blk, lo, hi, b, a, v);
  }

  /** List removal writes only link words of free blocks. */
  lemma RemoveFrame(mem: Memory, w: int, blk: Blocks, lo: int, hi: int, b: int)
    requires 0 < w && 0 < lo && hi <= |mem| && Tiling(blk, 4 * w, lo, hi)
    requires var n := NextFree(mem, w, b); n != NULL ==> n in blk && blk[n].free
    requires var p := PrevFree(mem, w, b); p != NULL ==> p in blk && blk[p].free
    ensures SameHeaders(mem, RemoveMem(mem, w, b), w, blk)
    ensures SamePayloads(mem, RemoveMem(mem, w, b), w, blk, lo, hi)
  {
    var n, p := NextFree(mem, w, b), PrevFree(mem, w, b);
    var m := if p != NULL then Write(mem, p + 2 * w, n) else mem;
    if p != NULL { LinkWrite(mem, w, blk, lo, hi, p, p + 2 * w, n); }
    if n != NULL {
      LinkWrite(m, w, blk, lo, hi, n, n + 3 * w, p);
      FramesCompose(mem, m, Write(m, n + 3 * w, p), w, blk, lo, hi);
    }
  }

  /** The running counters `free_mem`, `allocated_mem`, `free_blocks`, `allocated_blocks`. */
  datatype Counts = Counts(freeMem: int, usedMem: int, freeBlocks: int, usedBlocks: int)

  function Count(n: Counts, k: Counter): int {
    match k
    case FreeMem => n.freeMem
    case UsedMem => n.usedMem
    case FreeBlocks => n.freeBlocks
    case UsedBlocks => n.usedBlocks
  }

  /** Memory, list heads, bitmaps and counters, and the abstract blocks and tags that
      explain them. */
  datatype State = State(
    w: nat, lo: nat, hi: nat,
    mem: Memory, heads: Heads, fl: Word, sl: seq<Word>,
    n: Counts, blk: Blocks, tag: map<int, Tag>, clock: nat)

  ghost predicate Geometry(s: State) {
    (s.w == 4 || s.w == 8) && 0 < s.lo < s.hi && s.hi - s.lo < 0x4000_0000 && s.hi <= |s.mem|
  }

  /** Layout, lists and bitmaps agree; nothing is said about counters or coalescing. */
  ghost predicate Shape(s: State) {
    && Geometry(s)
    && Tiling(s.blk, 4 * s.w, s.lo, s.hi) && Aligned(s.blk)
    && Headers(s.mem, s.blk) && PhysLinks(s.mem, s.w, s.blk, s.lo)
    && Linked(s.mem, s.w, s.heads, s.tag) && Indexed(s.heads, s.fl, s.sl)
    && Tagged(s.blk, s.tag, 4 * s.w, s.clock)
  }

  /** A block's header as the code reads it. */
  lemma ReadHeader(s: State, b: int)
    requires Shape(s) && b in s.blk
    ensures s.lo <= b && b + 4 * s.w <= End(s.blk, b) <= s.hi && (End(s.blk, b) == s.hi || End(s.blk, b) in s.blk)
    ensures GetSize(s.mem[b]) == s.blk[b].size && (IsFree(s.mem[b]) <==> s.blk[b].free)
    ensures IsAligned(b) && IsAligned(s.blk[b].size) && s.blk[b].size < 0x4000_0000
  {
    InHeap(s.blk, 4 * s.w, s.lo, s.hi, b);
    assert Read(s.mem, b) == SizeWord(s.blk[b]);
    SizeWordFields(s.blk[b]);
  }

  /** The bucket of a block of the heap. */
  function BucketOf(s: State, b: int): Bucket {
    if b in s.blk && 0 <= s.blk[b].size then Calc(4 * s.w, s.blk[b].size) else Bucket(0, 0)
  }

  lemma BucketInTable(s: State, b: int)
    requires Shape(s) && b in s.blk
    ensures InTable(BucketOf(s, b))
    ensures var h := Head(s.heads, BucketOf(s, b)); h != NULL ==> h in s.blk && s.blk[h].free && h in s.tag
  {
    ReadHeader(s, b);
    CalcInTable(4 * s.w, s.blk[b].size);
    assert HeadLink(s.mem, s.w, s.heads, s.tag, BucketOf(s, b));
    var h := Head(s.heads, BucketOf(s, b));
    assert h != NULL ==> TagOf(s.blk, s.tag, 4 * s.w, s.clock, h);
  }

  /** `block_insert` on the state. */
  function Inserted(s: State, b: int): State {
    var k := BucketOf(s, b);
    s.(mem := InsertMem(s.mem, s.w, s.heads, k, b), heads := s.heads[k := b],
       fl := SetBit(s.fl, k.fl, true), sl := SetSl(s.sl, k, true),
       tag := s.tag[b := Tag(k, s.clock)], clock := s.clock + 1)
  }

  lemma InsertShape(s: State, b: int)
    requires Shape(s) && b in s.blk && s.blk[b].free && b !in s.tag
    ensures Shape(Inserted(s, b))
    ensures SamePayloads(s.mem, Inserted(s, b).mem, s.w, s.blk, s.lo, s.hi)
  {
    ReadHeader(s, b);
    BucketInTable(s, b);
    var k := BucketOf(s, b);
    SpacedTags(s.blk, s.tag, s.w, s.lo, s.hi, |s.mem|, 4 * s.w, s.clock, b);
    forall c | c in s.tag
      ensures s.tag[c].stamp < s.clock
    {
      assert TagOf(s.blk, s.tag, 4 * s.w, s.clock, c);
    }
    InsertKeepsLinks(s.mem, s.w, s.heads, s.tag, k, b, s.clock);
    InsertFrame(s.mem, s.w, s.blk, s.lo, s.hi, s.heads, k, b);
    HeadersFrame(s.mem, InsertMem(s.mem, s.w, s.heads, k, b), s.w, s.blk, s.lo);
    SetKeepsIndex(s.heads, s.fl, s.sl, k, b);
    var t := Inserted(s, b);
    forall c | c in t.tag
      ensures TagOf(t.blk, t.tag, 4 * t.w, t.clock, c)
    {
      assert c != b ==> TagOf(s.blk, s.tag, 4 * s.w, s.clock, c);
    }
  }

  predicate Addressable(s: State, b: int) {
    0 < b && b + 4 * s.w <= |s.mem|
  }

  /** The header of `b` carries its size, and the tables have the row and column of its bucket. */
  predicate Sized(s: State, b: int) {
    var k := BucketOf(s, b);
    && 0 < s.w && b in s.blk && Addressable(s, b) && GetSize(s.mem[b]) == s.blk[b].size >= 0
    && InTable(k) && |s.fl| == 32
    && |s.sl| == FL_INDEX_MAX && |s.sl[k.fl]| == SL_INDEX_COUNT
  }

  /** Everything `block_insert` reads and writes is in range. */
  predicate CanInsert(s: State, b: int) {
    Sized(s, b) && (var h := Head(s.heads, BucketOf(s, b)); h != NULL ==> Addressable(s, h))
  }

  /** Everything `block_remove` reads and writes is in range. */
  predicate CanRemove(s: State, b: int) {
    && Sized(s, b)
    && (var n := NextFree(s.mem, s.w, b); n != NULL ==> Addressable(s, n))
    && (var p := PrevFree(s.mem, s.w, b); p != NULL ==> Addressable(s, p))
  }

  lemma InsertReady(s: State, b: int)
    requires Shape(s) && b in s.blk
    ensures CanInsert(s, b)
  {
    ReadHeader(s, b);
    BucketInTable(s, b);
    var h := Head(s.heads, BucketOf(s, b));
    if h != NULL { ReadHeader(s, h); }
    assert |s.sl[BucketOf(s, b).fl]| == SL_INDEX_COUNT;
  }

  /** `block_remove` on the state. */
  function Removed(s: State, b: int): State {
    var k := BucketOf(s, b);
    var hs := RemoveHeads(s.mem, s.w, s.heads, k, b);
    s.(mem := RemoveMem(s.mem, s.w, b), heads := hs,
       fl := ClearedFl(hs, s.fl, s.sl, k), sl := ClearedSl(hs, s.sl, k), tag := s.tag - {b})
  }

  lemma HeadOfBucket(s: State, b: int)
    requires Shape(s) && b in s.tag
    ensures b in s.blk && s.tag[b].bucket == BucketOf(s, b)
    ensures InTable(BucketOf(s, b)) && Head(s.heads, BucketOf(s, b)) != NULL
  {
    assert TagOf(s.blk, s.tag, 4 * s.w, s.clock, b);
    forall c | c in s.tag
      ensures s.tag[c].stamp < s.clock
    {
      assert TagOf(s.blk, s.tag, 4 * s.w, s.clock, c);
    }
    assert InTable(s.tag[b].bucket);
    ListIsBucket(s.mem, s.w, s.heads, s.tag, s.clock, s.tag[b].bucket);
  }

  /** A listed block's neighbours in its list are listed free blocks too. */
  lemma ReadLinks(s: State, b: int)
    requires Shape(s) && b in s.tag
    ensures b in s.blk && s.blk[b].free && 0 < b && b + 4 * s.w <= |s.mem|
    ensures var n := NextFree(s.mem, s.w, b);
      n != NULL ==> n in s.tag && n in s.blk && s.blk[n].free && 0 < n && n + 4 * s.w <= |s.mem|
    ensures var p := PrevFree(s.mem, s.w, b);
      p != NULL ==> p in s.tag && p in s.blk && s.blk[p].free && 0 < p && p + 4 * s.w <= |s.mem|
  {
    assert TagOf(s.blk, s.tag, 4 * s.w, s.clock, b);
    ReadHeader(s, b);
    assert ForwardLink(s.mem, s.w, s.tag, b) && BackwardLink(s.mem, s.w, s.heads, s.tag, b);
    var n, p := NextFree(s.mem, s.w, b), PrevFree(s.mem, s.w, b);
    if n != NULL {
      assert TagOf(s.blk, s.tag, 4 * s.w, s.clock, n);
      ReadHeader(s, n);
    }
    if p != NULL {
      assert TagOf(s.blk, s.tag, 4 * s.w, s.clock, p);
      ReadHeader(s, p);
    }
  }

  lemma RemoveReady(s: State, b: int)
    requires Shape(s) && b in s.tag
    ensures CanRemove(s, b)
  {
    ReadLinks(s, b);
    InsertReady(s, b);
  }

  lemma RemoveShape(s: State, b: int)
    requires Shape(s) && b in s.tag
    ensures b in s.blk && s.blk[b].free && Shape(Removed(s, b))
    ensures SamePayloads(s.mem, Removed(s, b).mem, s.w, s.blk, s.lo, s.hi)
    ensures SameHeaders(s.mem, Removed(s, b).mem, s.w, s.blk)
  {
    assert TagOf(s.blk, s.tag, 4 * s.w, s.clock, b);
    HeadOfBucket(s, b);
    SpacedTags(s.blk, s.tag, s.w, s.lo, s.hi, |s.mem|, 4 * s.w, s.clock, b);
    assert s.tag.Keys + {b} == s.tag.Keys;
    RemoveKeepsLinks(s.mem, s.w, s.heads, s.tag, b);
    ReadLinks(s, b);
    var k := BucketOf(s, b);
    RemoveFrame(s.mem, s.w, s.blk, s.lo, s.hi, b);
    HeadersFrame(s.mem, RemoveMem(s.mem, s.w, b), s.w, s.blk, s.lo);
    ClearKeepsIndex(s.heads, RemoveHeads(s.mem, s.w, s.heads, k, b), s.fl, s.sl, k);
    var t := Removed(s, b);
    forall c | c in t.tag
      ensures TagOf(t.blk, t.tag, 4 * t.w, t.clock, c)
    {
      assert TagOf(s.blk, s.tag, 4 * s.w, s.clock, c);
    }
  }

  /** Setting or clearing the free bit of a block that is in no list. */
  function Flagged(s: State, b: int, free: bool): State
    requires b in s.blk
  {
    var x := Block(s.blk[b].size, free);
    s.(mem := Write(s.mem, b, SizeWord(x)), blk := s.blk[b := x])
  }

  lemma FlagHeaders(mem: Memory, w: int, blk: Blocks, lo: int, hi: int, b: int, free: bool)
    requires 0 < w && 0 < lo && hi <= |mem| && Tiling(blk, 4 * w, lo, hi)
    requires Headers(mem, blk) && PhysLinks(mem, w, blk, lo) && b in blk
    ensures var x := Block(blk[b].size, free);
      Headers(Write(mem, b, SizeWord(x)), blk[b := x]) && PhysLinks(Write(mem, b, SizeWord(x)), w, blk[b := x], lo)
  {
    InHeap(blk, 4 * w, lo, hi, b);
    var m := blk[b := Block(blk[b].size, free)];
    var mem' := Write(mem, b, SizeWord(m[b]));
    forall x | x in m
      ensures Read(mem', x) == SizeWord(m[x]) && PhysLink(mem', w, m, lo, x)
    {
      assert PhysLink(mem, w, blk, lo, x);
      assert x != b ==> Read(mem, x) == SizeWord(blk[x]);
      InHeap(blk, 4 * w, lo, hi, x);
      if x != b { Apart(blk, 4 * w, lo, hi, x, b); }
      assert PrevPhys(mem', w, x) == PrevPhys(mem, w, x);
    }
  }

  lemma FlagShape(s: State, b: int, free: bool)
    requires Shape(s) && b in s.blk && b !in s.tag
    ensures Shape(Flagged(s, b, free))
    ensures SamePayloads(s.mem, Flagged(s, b, free).mem, s.w, s.blk, s.lo, s.hi)
  {
    FlagHeaders(s.mem, s.w, s.blk, s.lo, s.hi, b, free);
    var t := Flagged(s, b, free);
    HeaderWrite(s.mem, s.w, s.blk, s.lo, s.hi, b, b, SizeWord(t.blk[b]));
    FlagTiles(s.blk, 4 * s.w, s.lo, s.hi, b, free);
    KeepLinks(s, t);
  }

  lemma FlagTiles(blk: Blocks, min: int, lo: int, hi: int, b: int, free: bool)
    requires Tiling(blk, min, lo, hi) && Aligned(blk) && b in blk
    ensures Tiling(blk[b := Block(blk[b].size, free)], min, lo, hi) && Aligned(blk[b := Block(blk[b].size, free)])
  {
    var m := blk[b := Block(blk[b].size, free)];
    forall x | x in m
      ensures Tile(m, min, lo, hi, x)
    {
      assert Tile(blk, min, lo, hi, x);
    }
    forall x, y | x in m && y in m
      ensures InOrder(m, x, y)
    {
      assert InOrder(blk, x, y);
    }
  }

  /** A change that moves no link word and no listed block keeps the lists. */
  lemma KeepLinks(s: State, t: State)
    requires Shape(s) && t.tag == s.tag && t.heads == s.heads && t.w == s.w && t.clock == s.clock
    requires SameLinks(s.mem, t.mem, s.w, t.blk)
    requires forall b {:trigger b in s.tag} :: b in s.tag && b in s.blk ==> b in t.blk && t.blk[b] == s.blk[b]
    ensures Linked(t.mem, t.w, t.heads, t.tag) && Tagged(t.blk, t.tag, 4 * t.w, t.clock)
  {
    forall c | c in t.tag
      ensures TagOf(t.blk, t.tag, 4 * t.w, t.clock, c)
    {
      assert TagOf(s.blk, s.tag, 4 * s.w, s.clock, c);
    }
    forall c | c in s.tag
      ensures NextFree(t.mem, s.w, c) == NextFree(s.mem, s.w, c) && PrevFree(t.mem, s.w, c) == PrevFree(s.mem, s.w, c)
    {
      assert TagOf(t.blk, t.tag, 4 * t.w, t.clock, c);
    }
    LinksFrame(s.mem, t.mem, s.w, s.heads, s.tag);
  }

  /** Block `b` swallows its successor; neither is in a list. */
  function Joined(s: State, b: int, free: bool): State
    requires b in s.blk && End(s.blk, b) in s.blk
  {
    var m := Merged(s.blk, b, free);
    s.(mem := ResizeMem(s.mem, s.w, s.hi, b, m[b]), blk := m)
  }

  lemma JoinShape(s: State, b: int, free: bool)
    requires Shape(s) && b in s.blk && End(s.blk, b) in s.blk && b !in s.tag && End(s.blk, b) !in s.tag
    ensures Shape(Joined(s, b, free))
    ensures SamePayloads(s.mem, Joined(s, b, free).mem, s.w, Joined(s, b, free).blk, s.lo, s.hi)
  {
    MergeTiles(s.blk, 4 * s.w, s.lo, s.hi, b, free);
    MergeHeaders(s.mem, s.w, s.blk, s.lo, s.hi, b, free);
    var t := Joined(s, b, free);
    ResizeWords(s.mem, s.w, t.blk, s.lo, s.hi, b);
    MergeAligned(s.blk, b, free);
    KeepLinks(s, t);
  }

  lemma MergeAligned(blk: Blocks, b: int, free: bool)
    requires Aligned(blk) && b in blk && End(blk, b) in blk
    ensures Aligned(Merged(blk, b, free))
  {
    var c := End(blk, b);
    assert IsAligned(blk[b].size) && IsAligned(blk[c].size);
    LowBitsSum(blk[b].size, blk[c].size, 8);
  }

  /** Block `b` is cut; the rest becomes a free block in no list. */
  function Cut(s: State, b: int, size: int): State
    requires b in s.blk
  {
    s.(mem := SplitMem(s.mem, s.w, s.hi, s.blk, b, size), blk := Split(s.blk, b, size))
  }

  lemma CutShape(s: State, b: int, size: int)
    requires Shape(s) && b in s.blk && b !in s.tag
    requires 4 * s.w <= size && size + 4 * s.w <= s.blk[b].size && IsAligned(size)
    ensures b + size !in s.blk && b + size !in s.tag && Shape(Cut(s, b, size))
    ensures SamePayloads(s.mem, Cut(s, b, size).mem, s.w, Cut(s, b, size).blk, s.lo, s.hi)
  {
    InHeap(s.blk, 4 * s.w, s.lo, s.hi, b);
    SplitTiles(s.blk, 4 * s.w, s.lo, s.hi, b, size);
    SplitHeaders(s.mem, s.w, s.blk, s.lo, s.hi, b, size);
    SplitFrame(s.mem, s.w, s.blk, s.lo, s.hi, b, size);
    SplitAligned(s.blk, b, size);
    KeepLinks(s, Cut(s, b, size));
    assert b + size in s.tag ==> TagOf(s.blk, s.tag, 4 * s.w, s.clock, b + size);
  }

  lemma SplitAligned(blk: Blocks, b: int, size: int)
    requires Aligned(blk) && b in blk && IsAligned(size)
    ensures Aligned(Split(blk, b, size))
  {
    assert IsAligned(b) && IsAligned(blk[b].size);
    LowBitsSum(b, size, 8);
    LowBitsSum(size, blk[b].size - size, 8);
  }

  // ---------------------------------------------------------------------------
  // What a step keeps for everybody else

  /** How far a counter is from what the blocks add up to. */
  function Drift(s: State, k: Counter): int {
    Count(s.n, k) - Tally(s.blk, 2 * s.w, k, s.hi)
  }

  /** No live block, live payload, or counter error changed. */
  ghost predicate Quiet(s: State, t: State) {
    && t.w == s.w && t.lo == s.lo && t.hi == s.hi
    && SameLive(s.blk, t.blk)
    && SamePayloads(s.mem, t.mem, s.w, s.blk, s.lo, s.hi)
    && (forall k {:trigger Drift(t, k)} :: Drift(t, k) == Drift(s, k))
  }

  lemma QuietCompose(s: State, t: State, u: State)
    requires Quiet(s, t) && Quiet(t, u)
    ensures Quiet(s, u)
  {
    forall v, a | 0 <= a < |s.mem| && InPayload(s.blk, s.w, v, a) && !s.blk[v].free
      ensures u.mem[a] == s.mem[a]
    {
      assert InPayload(t.blk, s.w, v, a);
    }
  }

  /** A free block that is in no list, with everything else in order around it. */
  ghost predicate Loose(s: State, b: int, right: bool) {
    b in s.blk && s.blk[b].free && b !in s.tag && Complete(s.blk, s.tag, b) && CoalescedExcept(s.blk, b, right)
  }

  /** The counter adjustment of both merge functions. */
  function Reclaimed(s: State): State {
    s.(n := s.n.(freeMem := s.n.freeMem + 2 * s.w, freeBlocks := s.n.freeBlocks - 1))
  }

  lemma JoinFreeQuiet(s: State, b: int)
    requires Shape(s) && b in s.blk && End(s.blk, b) in s.blk && b !in s.tag && End(s.blk, b) !in s.tag
    requires s.blk[b].free && s.blk[End(s.blk, b)].free
    ensures Shape(Joined(Reclaimed(s), b, true)) && Quiet(s, Joined(Reclaimed(s), b, true))
  {
    var r := Reclaimed(s);
    JoinShape(r, b, true);
    var t := Joined(r, b, true);
    forall v, a | 0 <= a < |s.mem| && InPayload(s.blk, s.w, v, a) && !s.blk[v].free
      ensures t.mem[a] == s.mem[a]
    {
      assert InPayload(t.blk, s.w, v, a);
    }
    ReadHeader(s, b);
    ReadHeader(s, End(s.blk, b));
    forall k: Counter
      ensures Drift(t, k) == Drift(s, k)
    {
      MergeTally(s.blk, 2 * s.w, k, b, true, s.hi);
    }
  }

  lemma RemoveQuiet(s: State, b: int)
    requires Shape(s) && b in s.tag
    ensures b in s.blk && Shape(Removed(s, b)) && Quiet(s, Removed(s, b))
  {
    RemoveShape(s, b);
  }

  lemma InsertQuiet(s: State, b: int)
    requires Shape(s) && b in s.blk && s.blk[b].free && b !in s.tag
    ensures Shape(Inserted(s, b)) && Quiet(s, Inserted(s, b))
  {
    InsertShape(s, b);
  }

  /** The predecessor a block's header names, if any, ends where the block begins. */
  lemma ReadPrev(s: State, b: int)
    requires Shape(s) && b in s.blk
    ensures 0 <= b + s.w < |s.mem|
    ensures var p := s.mem[b + s.w]; if b == s.lo then p == NULL else p in s.blk && 0 < p && End(s.blk, p) == b
  {
    ReadHeader(s, b);
    assert PhysLink(s.mem, s.w, s.blk, s.lo, b);
    if b != s.lo { ReadHeader(s, PrevPhys(s.mem, s.w, b)); }
  }

  /** At most one block ends at a given address. */
  lemma UniqueEnd(s: State, x: int, y: int)
    requires Shape(s) && x in s.blk && y in s.blk && End(s.blk, x) == End(s.blk, y)
    ensures x == y
  {
    ReadHeader(s, x);
    ReadHeader(s, y);
    if x != y { Apart(s.blk, 4 * s.w, s.lo, s.hi, x, y); }
  }

  /** With a used (or no) predecessor, the only free pair left can start at `b`. */
  lemma NoMergePrev(s: State, b: int)
    requires Shape(s) && Loose(s, b, false)
    requires var p := Read(s.mem, b + s.w); p != NULL && p in s.blk ==> !s.blk[p].free
    ensures Loose(s, b, true)
  {
    ReadPrev(s, b);
    forall x | x in s.blk && x != b
      ensures NotBothFree(s.blk, x)
    {
      if End(s.blk, x) == b {
        ReadHeader(s, x);
        UniqueEnd(s, x, s.mem[b + s.w]);
      }
    }
  }

  /** Merging two free blocks creates no new pair of free neighbours. */
  lemma MergePairs(blk: Blocks, b: int, x: int)
    requires b in blk && End(blk, b) in blk && b < End(blk, b) && blk[b].free && blk[End(blk, b)].free
    requires x in Merged(blk, b, true) && b < End(blk, End(blk, b))
    requires x != b && End(blk, x) != End(blk, b) ==> NotBothFree(blk, x)
    requires x == b ==> NotBothFree(blk, End(blk, b))
    ensures NotBothFree(Merged(blk, b, true), x)
  {
  }

  /** `block_merge_prev` when it merges: `p`, a listed free block, swallows `b`. */
  lemma MergePrevQuiet(s: State, b: int, p: int)
    requires Shape(s) && Loose(s, b, false) && p in s.tag && p in s.blk && End(s.blk, p) == b
    ensures var t := Joined(Reclaimed(Removed(s, p)), p, true);
      Shape(t) && Quiet(s, t) && Loose(t, p, true)
  {
    assert TagOf(s.blk, s.tag, 4 * s.w, s.clock, p);
    ReadHeader(s, b);
    ReadHeader(s, p);
    RemoveQuiet(s, p);
    var r := Removed(s, p);
    JoinFreeQuiet(r, p);
    var t := Joined(Reclaimed(r), p, true);
    QuietCompose(s, r, t);
    forall x | x in t.blk && x != p
      ensures NotBothFree(t.blk, x)
    {
      assert End(s.blk, x) != b ==> NotBothFree(s.blk, x);
      MergePairs(s.blk, p, x);
    }
  }

  /** `block_merge_next` when it merges: `b` swallows the listed free block `c`. */
  lemma MergeNextQuiet(s: State, b: int, c: int)
    requires Shape(s) && Loose(s, b, true) && c in s.tag && c in s.blk && End(s.blk, b) == c
    ensures var t := Joined(Reclaimed(Removed(s, c)), b, true);
      Shape(t) && Quiet(s, t) && Loose(t, b, true) && Coalesced(t.blk)
  {
    assert TagOf(s.blk, s.tag, 4 * s.w, s.clock, c);
    RemoveQuiet(s, c);
    var r := Removed(s, c);
    JoinFreeQuiet(r, b);
    var t := Joined(Reclaimed(r), b, true);
    QuietCompose(s, r, t);
    ReadHeader(s, c);
    ReadHeader(s, b);
    assert NotBothFree(s.blk, c);
    forall x | x in t.blk
      ensures NotBothFree(t.blk, x)
    {
      assert x != b ==> NotBothFree(s.blk, x);
      MergePairs(s.blk, b, x);
    }
  }

  /** With a used (or no) successor, nothing is left to merge. */
  lemma NoMergeNext(s: State, b: int)
    requires Shape(s) && Loose(s, b, true)
    requires End(s.blk, b) in s.blk ==> !s.blk[End(s.blk, b)].free
    ensures Coalesced(s.blk)
  {
    forall x | x in s.blk
      ensures NotBothFree(s.blk, x)
    {
    }
  }

  // ---------------------------------------------------------------------------
  // The invariant, and steps that change one live block

  /** The heap invariant: layout, lists and bitmaps agree, every free block is listed, no
      two free blocks touch, and all four counters are exact. */
  ghost predicate Valid(s: State) {
    && Shape(s)
    && Complete(s.blk, s.tag, NULL)
    && Coalesced(s.blk)
    && (forall k {:trigger Drift(s, k)} :: Drift(s, k) == 0)
  }

  /** A counter without the share of block `b`. */
  function DriftBut(s: State, b: int, k: Counter): int
    requires b in s.blk
  {
    Drift(s, k) + Weight(s.blk[b], 2 * s.w, k)
  }

  /** No live block other than `b` changed, nor its payload, nor the counters apart from
      the share of `b`; the payload `b` has afterwards is what it was. */
  ghost predicate QuietBut(s: State, t: State, b: int) {
    && t.w == s.w && t.lo == s.lo && t.hi == s.hi
    && b in s.blk && b in t.blk && !t.blk[b].free
    && SameLive(s.blk - {b}, t.blk - {b})
    && SamePayloads(s.mem, t.mem, s.w, t.blk, s.lo, s.hi)
    && (forall k {:trigger DriftBut(t, b, k)} :: DriftBut(t, b, k) == DriftBut(s, b, k))
  }

  /** `block_trim` after the two headers are written: the rest is a loose free block. */
  lemma CutLoose(s: State, b: int, size: int)
    requires Shape(s) && b in s.blk && b !in s.tag && Complete(s.blk, s.tag, b) && CoalescedExcept(s.blk, b, false)
    requires 4 * s.w <= size && size + 4 * s.w <= s.blk[b].size && IsAligned(size)
    ensures Shape(Cut(s, b, size)) && Loose(Cut(s, b, size), b + size, true)
    ensures SameLive(s.blk - {b}, Cut(s, b, size).blk - {b})
    ensures SamePayloads(s.mem, Cut(s, b, size).mem, s.w, Cut(s, b, size).blk, s.lo, s.hi)
    ensures forall k {:trigger Drift(s, k)} ::
      DriftBut(Cut(s, b, size), b, k) + Weight(Cut(s, b, size).blk[b + size], 2 * s.w, k) == DriftBut(s, b, k)
  {
    CutShape(s, b, size);
    ReadHeader(s, b);
    var c, r := Cut(s, b, size), b + size;
    forall x | x in c.blk && x != r
      ensures NotBothFree(c.blk, x)
    {
      assert x != b && End(s.blk, x) != b ==> NotBothFree(s.blk, x);
      if x != b {
        ReadHeader(s, x);
        Apart(s.blk, 4 * s.w, s.lo, s.hi, x, b);
      }
    }
    forall k: Counter
      ensures DriftBut(c, b, k) + Weight(c.blk[r], 2 * s.w, k) == DriftBut(s, b, k)
    {
      SplitTally(s.blk, 2 * s.w, k, b, size, s.hi);
    }
  }

  /** Adding the rest of a cut block to the free counters. */
  function Released(s: State, size: int): State {
    s.(n := s.n.(freeMem := s.n.freeMem + size - 2 * s.w, freeBlocks := s.n.freeBlocks + 1))
  }

  /** Composing the cut with the quiet steps that list the rest. */
  lemma TrimQuietBut(s: State, b: int, size: int, t: State)
    requires Shape(s) && b in s.blk && b !in s.tag && Complete(s.blk, s.tag, b) && CoalescedExcept(s.blk, b, false)
    requires 4 * s.w <= size && size + 4 * s.w <= s.blk[b].size && IsAligned(size)
    requires Quiet(Cut(s, b, size), t)
    ensures QuietBut(s, Released(t, s.blk[b].size - size), b) && t.blk[b] == Block(size, false)
  {
    CutLoose(s, b, size);
    var c := Cut(s, b, size);
    var u := Released(t, s.blk[b].size - size);
    assert b in c.blk && !c.blk[b].free;
    forall v, a | 0 <= a < |s.mem| && InPayload(u.blk, s.w, v, a) && !u.blk[v].free
      ensures u.mem[a] == s.mem[a]
    {
      assert v in c.blk && InPayload(c.blk, s.w, v, a);
    }
    forall k: Counter
      ensures DriftBut(u, b, k) == DriftBut(s, b, k)
    {
      assert Drift(t, k) == Drift(c, k);
      assert Drift(s, k) == Drift(s, k);
    }
  }
}
