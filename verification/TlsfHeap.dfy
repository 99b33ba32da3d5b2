/** The allocator: block headers, free lists, bitmaps and counters rewritten in place. */
module TlsfHeap {
  import opened TlsfMapping
  import opened TlsfLists
  import opened TlsfBitmaps
  import opened TlsfBlocks
  import opened TlsfState
  import opened TlsfSteps
  import opened TlsfOps

  /** `ALIGN`: round up to a multiple of 8. */
  function AlignUp(x: nat): (r: nat)
    ensures x <= r < x + 8 && IsAligned(r)
    decreases x
  {
    if x < 8 then if x == 0 then 0 else 8
    else
      LowBitsSum(8, AlignUp(x - 8), 8);
      8 + AlignUp(x - 8)
  }

  /** One past the largest `size_t`. */
  function WordLimit(w: nat): nat { if w == 4 then 0x1_0000_0000 else 0x1_0000_0000_0000_0000 }

  /** `size_t` addition. */
  function AddWrap(w: nat, x: nat, y: nat): nat {
    if x + y >= WordLimit(w) then x + y - WordLimit(w) else x + y
  }

  /** `ALIGN` in `size_t`, which wraps to zero for the last few values. */
  function AlignWrap(w: nat, x: nat): nat {
    if AlignUp(x) >= WordLimit(w) then 0 else AlignUp(x)
  }

  /** Block size for a request of `n` bytes, when nothing wraps. */
  function BlockSize(w: nat, n: nat): (r: nat)
    requires w == 4 || w == 8
    ensures 4 * w <= r && n + 2 * w <= r && IsAligned(r)
  {
    assert LowBits(16, 8) == 0 && LowBits(32, 8) == 0;
    if n + 2 * w < 4 * w then 4 * w else AlignUp(n + 2 * w)
  }

  lemma {:induction false} AlignUpLeast(x: nat, y: nat)
    requires x <= y && IsAligned(y)
    ensures AlignUp(x) <= y
    decreases x
  {
    if x >= 8 { AlignUpLeast(x - 8, y - 8); }
  }

  /** `allocator_malloc` refuses an empty request, and one that overflows when the header is
      added. */
  predicate RefusedOutright(w: nat, n: nat) { n == 0 || AddWrap(w, n, 2 * w) < n }

  /** The block size it searches for otherwise; the rounding up is not checked for overflow. */
  function MallocSize(w: nat, n: nat): (r: nat) {
    var adjust := AddWrap(w, n, 2 * w);
    if adjust < 4 * w then 4 * w else AlignWrap(w, adjust)
  }

  /** The refused sizes; and of the others, the size searched for covers the request exactly
      when rounding up does not overflow, and is zero when it does. */
  lemma MallocSizeCoversIff(w: nat, n: nat)
    requires (w == 4 || w == 8) && n < WordLimit(w)
    ensures RefusedOutright(w, n) <==> n == 0 || n + 2 * w >= WordLimit(w)
    ensures !RefusedOutright(w, n) ==> (n + 2 * w <= MallocSize(w, n) <==> AlignUp(n + 2 * w) < WordLimit(w))
    ensures !RefusedOutright(w, n) ==> MallocSize(w, n) == if AlignUp(n + 2 * w) < WordLimit(w) then BlockSize(w, n) else 0
  {
  }

  /** The addition passes the check, and the size searched for is zero. */
  lemma MallocSizeWraps()
    ensures !RefusedOutright(4, 0xFFFF_FFF2) && MallocSize(4, 0xFFFF_FFF2) == 0
  {
    AlignedIsMultiple(AlignUp(0xFFFF_FFFA));
  }

  /** It is the least multiple of 8 that a block with that payload can have. */
  lemma BlockSizeLeast(w: nat, n: nat, y: nat)
    requires (w == 4 || w == 8) && 4 * w <= y && n + 2 * w <= y && IsAligned(y)
    ensures BlockSize(w, n) <= y
  {
    AlignUpLeast(n + 2 * w, y);
  }

  /** The block size `allocator_realloc` computes; neither the addition nor the rounding is
      checked for overflow. */
  function ReallocSize(w: nat, n: nat): (r: nat) {
    var a := AlignWrap(w, AddWrap(w, n, 2 * w));
    if a < 4 * w then 4 * w else a
  }

  /** That size covers the request exactly when rounding it up does not overflow, and then
      it is the size an allocation would use. */
  lemma ReallocSizeCoversIff(w: nat, n: nat)
    requires (w == 4 || w == 8) && n < WordLimit(w)
    ensures n + 2 * w <= ReallocSize(w, n) <==> AlignUp(n + 2 * w) < WordLimit(w)
    ensures AlignUp(n + 2 * w) < WordLimit(w) ==> ReallocSize(w, n) == BlockSize(w, n)
    ensures IsAligned(ReallocSize(w, n))
  {
    assert LowBits(16, 8) == 0 && LowBits(32, 8) == 0;
    if n + 2 * w < 4 * w { AlignUpLeast(n + 2 * w, 4 * w); }
  }

  /** A resize to nearly the largest `size_t` is computed as the smallest block. */
  lemma ReallocSizeWraps()
    ensures ReallocSize(4, 0xFFFF_FFFF) == 16
  {
    AlignUpLeast(7, 8);
  }

  /** A request the allocator can serve or refuses outright: nothing, an overflowing size,
      or one whose block size the search tables cover. */
  predicate Servable(w: nat, n: nat)
    requires w == 4 || w == 8
  {
    n < WordLimit(w) && (n == 0 || n + 2 * w >= WordLimit(w) || BlockSize(w, n) <= MAX_SEARCHABLE)
  }

  /** Of the requests that are not refused outright these are exactly the ones whose block size
      covers them and can be searched for. */
  lemma ServableIff(w: nat, n: nat)
    requires (w == 4 || w == 8) && n < WordLimit(w) && !RefusedOutright(w, n)
    ensures Servable(w, n) <==> n + 2 * w <= MallocSize(w, n) <= MAX_SEARCHABLE
  {
    MallocSizeCoversIff(w, n);
  }

  /** `ptr` is what an earlier allocation returned and has not been released since. */
  ghost predicate IsLive(s: State, ptr: int) {
    ptr - 2 * s.w in s.blk && !s.blk[ptr - 2 * s.w].free
  }

  /** `control_t`: the list heads and the two bitmap levels. */
  datatype Control = Control(blocks: Heads, flBitmap: Word, slBitmap: seq<Word>)

  /** What the words in memory stand for. */
  datatype Meaning = Meaning(blk: Blocks, tag: map<int, Tag>, clock: nat)

  /** No free block reaches 33/32 of the block size for `n` bytes, unless the request is empty
      or overflows. */
  ghost predicate Refuses(s: State, n: nat)
    requires s.w == 4 || s.w == 8
  {
    0 < n && n + 2 * s.w < WordLimit(s.w) ==>
      forall f {:trigger s.blk[f]} :: f in s.blk && s.blk[f].free ==> 32 * s.blk[f].size < 33 * BlockSize(s.w, n)
  }

  /** What an allocation request of `n` bytes does. Either nothing at all, and then it had to
      be refused; or one new block of the right size becomes live, cut from the start of a free
      block that is a good fit, and nobody else notices. */
  ghost predicate Allocated(s: State, t: State, n: nat, ptr: int)
    requires s.w == 4 || s.w == 8
  {
    if ptr == NULL then t == s && Refuses(s, n)
    else
      && 0 < n && n + 2 * s.w < WordLimit(s.w) && t.w == s.w
      && !IsLive(s, ptr) && IsLive(t, ptr) && OthersKept(s, t, ptr - 2 * s.w)
      && GoodFit(s, BlockSize(s.w, n), ptr - 2 * s.w)
      && BlockSize(s.w, n) <= t.blk[ptr - 2 * s.w].size < BlockSize(s.w, n) + 4 * s.w
  }

  /** The block, alone or with a free successor, has room for `req` bytes. */
  predicate FitsInPlace(blk: Blocks, b: int, req: int)
    requires b in blk
  {
    blk[b].size >= req || (End(blk, b) in blk && blk[End(blk, b)].free && blk[b].size + blk[End(blk, b)].size >= req)
  }

  /** What resizing the live block at `ptr` to `n` bytes does, for `n` not zero: it stays where
      it is exactly when it fits there, and its size is the computed one plus less than a
      minimal block; else it moves with its whole payload; else nothing changes at all. */
  ghost predicate Resized(s: State, t: State, ptr: int, n: nat, r: int)
    requires (s.w == 4 || s.w == 8) && t.w == s.w && IsLive(s, ptr)
  {
    var b, req := ptr - 2 * s.w, ReallocSize(s.w, n);
    && (r == ptr <==> FitsInPlace(s.blk, b, req))
    && if r == ptr then
         && IsLive(t, ptr) && OthersKept(s, t, b) && OwnKept(s, t, b)
         && req <= t.blk[b].size < req + 4 * s.w
       else if r == NULL then t == s && Refuses(s, n)
       else Relocated(s, t, ptr, n, r)
  }

  /** The block at `ptr` is gone, the one at `r` is new and holds its whole payload, and nobody
      else is affected. */
  ghost predicate Relocated(s: State, t: State, ptr: int, n: nat, r: int)
    requires (s.w == 4 || s.w == 8) && t.w == s.w && IsLive(s, ptr)
  {
    && !IsLive(s, r) && IsLive(t, r) && !IsLive(t, ptr) && KeptBut(s, t, ptr - 2 * s.w, r - 2 * s.w)
    && GoodFit(s, BlockSize(s.w, n), r - 2 * s.w)
    && BlockSize(s.w, n) <= t.blk[r - 2 * s.w].size < BlockSize(s.w, n) + 4 * s.w
    && (var m := s.blk[ptr - 2 * s.w].size - 2 * s.w;
        && 0 < r && 0 < ptr && 0 <= m && r + m <= |t.mem| && ptr + m <= |s.mem|
        && m <= t.blk[r - 2 * s.w].size - 2 * s.w && t.mem[r..r + m] == s.mem[ptr..ptr + m])
  }

  /** After the allocation both blocks are live, and the new one can hold the old payload. */
  lemma MoveReady(s: State, t: State, ptr: int, newSize: nat, n: nat, r: int)
    requires Valid(s) && Valid(t) && IsLive(s, ptr) && n == s.blk[ptr - 2 * s.w].size - 2 * s.w
    requires r != NULL && Allocated(s, t, newSize, r)
    requires newSize + 2 * s.w < WordLimit(s.w) ==> s.blk[ptr - 2 * s.w].size <= BlockSize(s.w, newSize)
    ensures r != ptr && IsLive(t, ptr) && IsLive(t, r) && t.w == s.w
    ensures n <= t.blk[r - 2 * s.w].size - 2 * s.w && t.blk[ptr - 2 * s.w] == s.blk[ptr - 2 * s.w]
    ensures 0 <= n && 0 < ptr - 2 * s.w && ptr + n <= |s.mem| && 0 < r - 2 * s.w && r + n <= |s.mem|
  {
    assert ptr - 2 * s.w in s.blk - {r - 2 * s.w};
    ReadHeader(s, ptr - 2 * s.w);
    ReadHeader(t, r - 2 * s.w);
  }

  lemma MoveDone(s: State, t: State, u: State, v: State, ptr: int, newSize: nat, n: nat, r: int)
    requires Valid(s) && Valid(t) && IsLive(s, ptr) && n == s.blk[ptr - 2 * s.w].size - 2 * s.w
    requires r != NULL && Allocated(s, t, newSize, r)
    requires newSize + 2 * s.w < WordLimit(s.w) ==> s.blk[ptr - 2 * s.w].size <= BlockSize(s.w, newSize)
    requires OthersKept(t, u, r - 2 * s.w) && u.blk == t.blk && 0 < r && 0 < ptr && ptr + n <= |t.mem| && r + n <= |u.mem|
    requires u.mem[r..r + n] == t.mem[ptr..ptr + n]
    requires OthersKept(u, v, ptr - 2 * s.w) && !IsLive(v, ptr)
    ensures v.w == s.w && r != ptr && Relocated(s, v, ptr, newSize, r)
  {
    MoveReady(s, t, ptr, newSize, n, r);
    var b, c := ptr - 2 * s.w, r - 2 * s.w;
    assert b + 2 * s.w == ptr && c + 2 * s.w == r;
    MoveKeeps(s, t, u, v, b, c, n);
  }

  lemma InPlace(s: State, t: State, ptr: int, n: nat)
    requires (s.w == 4 || s.w == 8) && t.w == s.w && IsLive(s, ptr) && IsLive(t, ptr)
    requires FitsInPlace(s.blk, ptr - 2 * s.w, ReallocSize(s.w, n))
    requires OthersKept(s, t, ptr - 2 * s.w) && OwnKept(s, t, ptr - 2 * s.w)
    requires ReallocSize(s.w, n) <= t.blk[ptr - 2 * s.w].size < ReallocSize(s.w, n) + 4 * s.w
    ensures Resized(s, t, ptr, n, ptr)
  {
  }

  /** A block that is too small for the computed size is no bigger than what an allocation
      would use. */
  lemma TooBig(w: nat, n: nat, size: int, req: nat)
    requires (w == 4 || w == 8) && Servable(w, n) && req == ReallocSize(w, n) && size < req
    ensures n + 2 * w < WordLimit(w) ==> size <= BlockSize(w, n)
  {
    ReallocSizeCoversIff(w, n);
  }

  /** The block after a block, if any, starts inside the heap. */
  lemma EndInHeap(s: State, b: int)
    requires Shape(s) && b in s.blk && End(s.blk, b) in s.blk
    ensures End(s.blk, b) < s.hi
  {
    ReadHeader(s, End(s.blk, b));
  }

  class Heap {
    const w: nat   // bytes in a machine word: 4 or 8
    const lo: nat  // heap_start_ptr
    const hi: nat  // heap_end_ptr
    var mem: Memory
    var control: Control
    var stats: Counts
    ghost var g: Meaning

    ghost function View(): State
      reads this
    {
      State(w, lo, hi, mem, control.blocks, control.flBitmap, control.slBitmap, stats, g.blk, g.tag, g.clock)
    }

    /** BLOCK_OVERHEAD and BLOCK_MIN_SIZE. */
    function Overhead(): nat { 2 * w }

    function MinSize(): nat { 4 * w }

    /** `allocator_init` on a pool of `size` bytes at address `pool`: align the start up and
        the size down, and make everything one free block. A pool too small for a block
        makes the source panic. */
    constructor (w: nat, pool: nat, size: nat, memory: Memory)
      requires w == 4 || w == 8
      requires 0 < pool && pool + size <= |memory| && size < 0x4000_0000
      requires AlignUp(pool) - pool + 4 * w <= size - LowBits(size - (AlignUp(pool) - pool), 8)
      ensures Valid(View()) && this.w == w && lo == AlignUp(pool) && hi <= pool + size < hi + 8
      ensures g.blk.Keys == {lo} && g.blk[lo] == Block(hi - lo, true)
    {
      var start := AlignUp(pool);
      var bytes := size - (start - pool);
      bytes := bytes - LowBits(bytes, 8);
      this.w, this.lo, this.hi := w, start, start + bytes;
      mem := memory[start := bytes + 1][start + w := NULL];
      control := Control(map[], seq(32, _ => false), seq(FL_INDEX_MAX, _ => seq(SL_INDEX_COUNT, _ => false)));
      stats := Counts(bytes - 2 * w, 0, 1, 0);
      g := Meaning(map[start := Block(bytes, true)], map[], 0);
      AlignedDown(size - (start - pool));
      new;
      ghost var s := View();
      InitLoose(s);
      SettleKeeps(s, lo);
      BlockInsert(lo);
    }

    /** Insert a free block into the list of its bucket. */
    method BlockInsert(b: int)
      requires CanInsert(View(), b)
      modifies this`mem, this`control, this`g
      ensures View() == Inserted(old(View()), b)
    {
      var k := Calc(MinSize(), GetSize(mem[b]));
      var h := Head(control.blocks, k);

      var m := mem[b + 2 * w := h][b + 3 * w := NULL];
      if h != NULL {
        m := m[h + 3 * w := b];
      }
      mem := m;
      control := Control(control.blocks[k := b], control.flBitmap[k.fl := true],
                         control.slBitmap[k.fl := control.slBitmap[k.fl][k.sl := true]]);

      g := g.(tag := g.tag[b := Tag(k, g.clock)], clock := g.clock + 1);
    }

    /** Remove a free block from its list; clear its bits if the list became empty. */
    method BlockRemove(b: int)
      requires CanRemove(View(), b)
      modifies this`mem, this`control, this`g
      ensures View() == Removed(old(View()), b)
    {
      var k := Calc(MinSize(), GetSize(mem[b]));
      var next, prev := mem[b + 2 * w], mem[b + 3 * w];

      var m, blocks, fl, sl := mem, control.blocks, control.flBitmap, control.slBitmap;
      if prev != NULL {
        m := m[prev + 2 * w := next];
      } else {
        blocks := blocks[k := next];
      }
      if next != NULL {
        m := m[next + 3 * w := prev];
      }
      if Head(blocks, k) == NULL {
        sl := sl[k.fl := sl[k.fl][k.sl := false]];
        if IsZero(sl[k.fl]) {
          fl := fl[k.fl := false];
        }
      }
      mem, control := m, Control(blocks, fl, sl);

      g := g.(tag := g.tag - {b});
    }

    /** Write the header word of a block that takes over its successor, and point the block
        after that back to it. */
    method BlockAbsorb(b: int, word: int, ghost free: bool)
      requires CanAbsorb(View(), b, word, free)
      modifies this`mem, this`g
      ensures View() == Joined(old(View()), b, free)
    {
      var m := mem[b := word];
      var next := b + GetSize(word);
      if next < hi {
        m := m[next + w := b];
      }
      mem := m;
      g := g.(blk := Merged(g.blk, b, free));
    }

    /** Merge a free block into its physical predecessor if that is free. */
    method BlockMergePrev(b: int) returns (r: int)
      requires CanMergePrev(View(), b)
      modifies this
      ensures View() == PrevState(old(View()), b) && r == PrevBlock(old(View()), b)
    {
      var prev := mem[b + w];
      if prev != NULL && IsFree(mem[prev]) {
        BlockRemove(prev);
        stats := stats.(freeMem := stats.freeMem + Overhead(), freeBlocks := stats.freeBlocks - 1);
        BlockAbsorb(prev, mem[prev] + GetSize(mem[b]), true);
        return prev;
      }
      return b;
    }

    /** Merge a free block with its physical successor if that is free. */
    method BlockMergeNext(b: int)
      requires CanMergeNext(View(), b)
      modifies this
      ensures View() == NextState(old(View()), b)
    {
      var next := b + GetSize(mem[b]);
      if next < hi && IsFree(mem[next]) {
        BlockRemove(next);
        stats := stats.(freeMem := stats.freeMem + Overhead(), freeBlocks := stats.freeBlocks - 1);
        BlockAbsorb(b, mem[b] + GetSize(mem[next]), true);
      }
    }

    /** Write the headers of both halves of a split block. */
    method BlockSplit(b: int, size: int, rest: int)
      requires CanSplit(View(), b, size) && rest == g.blk[b].size - size
      modifies this`mem, this`g
      ensures View() == Cut(old(View()), b, size)
    {
      var r := b + size;
      var m := mem[r := rest + 1][r + w := b][b := size];
      var next := r + GetSize(m[r]);
      if next < hi {
        m := m[next + w := r];
      }
      mem := m;
      g := g.(blk := Split(g.blk, b, size));
    }

    /** Merge a free block with what follows it, then list it. */
    method BlockSettle(b: int)
      requires CanSettle(View(), b)
      modifies this
      ensures View() == SettleState(old(View()), b)
    {
      BlockMergeNext(b);
      BlockInsert(b);
    }

    /** Split a block if what is left over can hold a block of its own. */
    method BlockTrim(b: int, size: int)
      requires CanTrim(View(), b, size)
      modifies this
      ensures View() == TrimState(old(View()), b, size)
    {
      var rest := GetSize(mem[b]) - size;
      if rest >= MinSize() {
        BlockSplit(b, size, rest);
        BlockSettle(b + size);
        stats := stats.(freeMem := stats.freeMem + rest - Overhead(), freeBlocks := stats.freeBlocks + 1);
      }
    }

    /** Find the first non-empty list whose blocks are all large enough. */
    method LocateFree(size: nat) returns (b: int)
      requires Shape(View()) && MinSize() <= size <= MAX_SEARCHABLE && IsAligned(size)
      ensures b != NULL ==> 0 < b && b in g.tag && b in g.blk && g.blk[b].free && g.blk[b].size >= size
      ensures b != NULL ==> Head(control.blocks, g.tag[b].bucket) == b && !Before(g.tag[b].bucket, Search(MinSize(), size))
      ensures b != NULL ==> forall j ::
        InTable(j) && !Before(j, Search(MinSize(), size)) && Before(j, g.tag[b].bucket) ==> Head(control.blocks, j) == NULL
      ensures b != NULL ==> forall c ::
        c in g.tag && g.tag[c].bucket == g.tag[b].bucket && c != b ==> g.tag[c].stamp < g.tag[b].stamp
      ensures b == NULL ==> forall j :: InTable(j) && !Before(j, Search(MinSize(), size)) ==> Head(control.blocks, j) == NULL
    {
      var k := Search(MinSize(), size);
      SearchInTableIff(MinSize(), size);
      ghost var s := View();
      LocateFirst(s, k);
      var fl, sl := k.fl, k.sl;
      var slMap := MaskFrom(control.slBitmap[fl], sl);
      if IsZero(slMap) {
        var flMap := MaskFrom(control.flBitmap, fl + 1);
        if IsZero(flMap) {
          return NULL;
        }
        fl := Lsb(flMap);
        assert flMap[fl] == control.flBitmap[fl];
        slMap := control.slBitmap[fl];
      }
      sl := Lsb(slMap);
      LocateFits(s, size, Bucket(fl, sl));
      b := Head(control.blocks, Bucket(fl, sl));
      assert HeadLink(s.mem, s.w, s.heads, s.tag, Bucket(fl, sl));
      forall c | c in g.tag && g.tag[c].bucket == g.tag[b].bucket && c != b
        ensures g.tag[c].stamp < g.tag[b].stamp
      {
        HeadIsNewest(s, b, c);
      }
    }

    /** `allocator_malloc`. */
    method Malloc(size: nat) returns (ptr: int)
      requires Valid(View()) && Servable(w, size)
      modifies this
      ensures Valid(View()) && Allocated(old(View()), View(), size, ptr)
    {
      MallocSizeCoversIff(w, size);
      if RefusedOutright(w, size) {
        return NULL;
      }
      var req := MallocSize(w, size);
      var b := LocateFree(req);
      ghost var s := View();
      if b == NULL {
        forall f | f in g.blk && g.blk[f].free
          ensures 32 * g.blk[f].size < 33 * req
        {
          LocateComplete(s, req, f);
        }
        return NULL;
      }
      LocateGoodFit(s, req, b);
      Allocate(b, req);
      return b + Overhead();
    }

    /** The part of `allocator_malloc` after a block has been found. */
    method Allocate(b: int, req: nat)
      requires Valid(View()) && b in g.tag && b in g.blk && MinSize() <= req <= g.blk[b].size && IsAligned(req)
      modifies this
      ensures Valid(View()) && OthersKept(old(View()), View(), b)
      ensures old(g.blk)[b].free && b in g.blk && !g.blk[b].free && req <= g.blk[b].size < req + 4 * w
    {
      MallocReady(View(), b, req);
      MallocKeeps(View(), b, req);
      BlockTake(b);
      BlockTrim(b, req);
      BlockOccupy(b);
    }

    /** Take a free block out of its list and out of the free counters. */
    method BlockTake(b: int)
      requires CanTake(View(), b)
      modifies this
      ensures View() == Taken(old(View()), b)
    {
      BlockRemove(b);
      stats := stats.(freeMem := stats.freeMem - (GetSize(mem[b]) - Overhead()), freeBlocks := stats.freeBlocks - 1);
    }

    /** Clear the free bit and enter the block in the used counters. */
    method BlockOccupy(b: int)
      requires CanOccupy(View(), b)
      modifies this
      ensures View() == Occupied(old(View()), b)
    {
      if IsFree(mem[b]) {
        mem := mem[b := mem[b] - 1];
      }
      stats := stats.(usedMem := stats.usedMem + GetSize(mem[b]) - Overhead(), usedBlocks := stats.usedBlocks + 1);
      g := g.(blk := g.blk[b := Block(g.blk[b].size, false)]);
    }

    /** `allocator_free`. */
    method Free(ptr: int)
      requires Valid(View()) && (ptr == NULL || IsLive(View(), ptr))
      modifies this
      ensures Valid(View())
      ensures ptr == NULL ==> View() == old(View())
      ensures ptr != NULL ==> !IsLive(View(), ptr) && OthersKept(old(View()), View(), ptr - 2 * w)
    {
      if ptr == NULL {
        return;
      }
      Release(ptr - Overhead());
    }

    /** The part of `allocator_free` on the block itself. */
    method Release(b: int)
      requires Valid(View()) && b in g.blk && !g.blk[b].free
      modifies this
      ensures Valid(View()) && OthersKept(old(View()), View(), b)
      ensures b in g.blk ==> g.blk[b].free
    {
      FreeReady(View(), b);
      FreeKeeps(View(), b);
      BlockVacate(b);
      var r := BlockMergePrev(b);
      BlockSettle(r);
    }

    /** Move the block from the used to the free counters and set its free bit. */
    method BlockVacate(b: int)
      requires b in g.blk && CanVacate(View(), b)
      modifies this
      ensures View() == Freed(old(View()), b)
    {
      var size := GetSize(mem[b]);
      stats := Counts(stats.freeMem + size - Overhead(), stats.usedMem - (size - Overhead()),
                      stats.freeBlocks + 1, stats.usedBlocks - 1);
      mem := mem[b := mem[b] + 1];
      g := g.(blk := g.blk[b := Block(g.blk[b].size, true)]);
    }

    /** What is left over becomes a free block, and leaves the used accounts. */
    method CutOff(b: int, size: int, req: int)
      requires CanTrim(View(), b, req) && b in g.blk && size == g.blk[b].size
      modifies this
      ensures View() == ShrinkState(old(View()), b, req)
    {
      BlockTrim(b, req);
      stats := stats.(usedMem := stats.usedMem - (size - req));
    }

    /** `allocator_realloc`, first case: the block is large enough already. */
    method Shrink(b: int, req: nat)
      requires Valid(View()) && b in g.blk && !g.blk[b].free && MinSize() <= req <= g.blk[b].size && IsAligned(req)
      modifies this
      ensures Valid(View()) && OthersKept(old(View()), View(), b) && OwnKept(old(View()), View(), b)
      ensures b in g.blk && g.blk[b] == Block(if old(g.blk)[b].size - req >= MinSize() then req else old(g.blk)[b].size, false)
    {
      ReadHeader(View(), b);
      var size := GetSize(mem[b]);
      if size - req >= MinSize() {
        GiveBack(b, size, req);
      }
    }

    /** The rest is worth a block of its own. */
    method GiveBack(b: int, size: int, req: nat)
      requires Valid(View()) && b in g.blk && !g.blk[b].free && size == g.blk[b].size && IsAligned(req)
      requires MinSize() <= req && MinSize() <= size - req
      modifies this
      ensures Valid(View()) && OthersKept(old(View()), View(), b) && OwnKept(old(View()), View(), b)
      ensures b in g.blk && g.blk[b] == Block(req, false)
    {
      ghost var u := ShrinkKeeps(View(), b, req);
      CutOff(b, size, req);
      assert View() == u;
    }

    /** `allocator_realloc`, second case: take over the free block that follows. */
    method Grow(b: int, next: int, combined: int)
      requires CanGrow(View(), b) && next == End(g.blk, b) && combined == g.blk[b].size + g.blk[next].size
      modifies this
      ensures View() == GrowState(old(View()), b)
    {
      BlockTake(next);
      BlockAbsorb(b, combined, false);
      stats := stats.(usedMem := stats.usedMem + GetSize(mem[next]));
    }

    /** `allocator_realloc`, second case: grow into the free block that follows, then give
        back what is too much. */
    method Extend(b: int, next: int, combined: int, req: nat)
      requires Valid(View()) && b in g.blk && !g.blk[b].free && next == End(g.blk, b) && next in g.blk && g.blk[next].free
      requires combined == g.blk[b].size + g.blk[next].size && MinSize() <= req <= combined && IsAligned(req)
      modifies this
      ensures Valid(View()) && OthersKept(old(View()), View(), b)
      ensures b in g.blk && g.blk[b] == Block(if combined - req >= MinSize() then req else combined, false)
      ensures OwnKept(old(View()), View(), b)
    {
      ghost var s := View();
      assert next in g.tag by { ReadHeader(s, next); }
      GrowReady(s, b, next);
      GrowKeeps(s, b, next);
      Grow(b, next, combined);
      ghost var t := View();
      Shrink(b, req);
      OthersKeptCompose(s, t, View(), b);
      OwnKeptThrough(s, t, View(), b);
    }

    /** A store by the owner of a live block. */
    method Store(ptr: int, offset: nat, v: int)
      requires Valid(View()) && IsLive(View(), ptr) && offset < g.blk[ptr - 2 * w].size - 2 * w
      modifies this`mem
      ensures Valid(View()) && OthersKept(old(View()), View(), ptr - 2 * w)
      ensures 0 <= ptr + offset < |old(mem)| && mem == old(mem)[ptr + offset := v]
    {
      StoreKeeps(View(), ptr - 2 * w, ptr + offset, v);
      mem := mem[ptr + offset := v];
    }

    /** `utils_memcpy` of the first `n` payload bytes of one live block to another. */
    method CopyPayload(dst: int, src: int, n: nat)
      requires Valid(View()) && IsLive(View(), dst) && IsLive(View(), src) && dst != src
      requires n <= g.blk[dst - 2 * w].size - 2 * w && n <= g.blk[src - 2 * w].size - 2 * w
      modifies this`mem
      ensures Valid(View()) && OthersKept(old(View()), View(), dst - 2 * w)
      ensures 0 < dst && dst + n <= |mem| == |old(mem)| && 0 < src && src + n <= |mem|
      ensures mem[dst..dst + n] == old(mem)[src..src + n]
    {
      CopyRange(View(), dst, src);
      CopyKeeps(View(), dst, src, n);
      CopyMemRange(mem, dst, src, n);
      CopyWords(dst, src, n);
    }

    /** `utils_memcpy` between ranges of which the target does not reach the source. */
    method CopyWords(dst: int, src: int, n: nat)
      requires 0 < dst && dst + n <= |mem| && 0 < src && src + n <= |mem| && (dst + n <= src || src + n <= dst)
      modifies this`mem
      ensures mem == CopyMem(old(mem), dst, src, n)
    {
      ghost var m := mem;
      var i := 0;
      while i < n
        invariant i <= n && mem == CopyMem(m, dst, src, i)
      {
        CopyMemAt(m, dst, src, i, src + i);
        mem := mem[dst + i := mem[src + i]];
        i := i + 1;
      }
    }

    /** `allocator_realloc`, third case: allocate, copy, release. */
    method Move(ptr: int, newSize: nat, n: nat) returns (r: int)
      requires Valid(View()) && IsLive(View(), ptr) && Servable(w, newSize) && 0 < newSize
      requires n == g.blk[ptr - 2 * w].size - 2 * w
      requires newSize + 2 * w < WordLimit(w) ==> g.blk[ptr - 2 * w].size <= BlockSize(w, newSize)
      requires !FitsInPlace(g.blk, ptr - 2 * w, ReallocSize(w, newSize))
      modifies this
      ensures Valid(View()) && Resized(old(View()), View(), ptr, newSize, r)
    {
      ghost var s := View();
      r := Malloc(newSize);
      if r != NULL {
        CopyOver(s, ptr, newSize, n, r);
      } else {
        ReadHeader(s, ptr - 2 * w);
      }
    }

    /** The new block has been allocated: copy, release the old one. */
    method CopyOver(ghost s: State, ptr: int, ghost newSize: nat, n: nat, r: int)
      requires Valid(View()) && Valid(s) && IsLive(s, ptr) && n == s.blk[ptr - 2 * s.w].size - 2 * s.w
      requires r != NULL && Allocated(s, View(), newSize, r)
      requires newSize + 2 * s.w < WordLimit(s.w) ==> s.blk[ptr - 2 * s.w].size <= BlockSize(s.w, newSize)
      modifies this
      ensures Valid(View()) && s.w == w && r != ptr && Relocated(s, View(), ptr, newSize, r)
    {
      ghost var t := View();
      MoveReady(s, t, ptr, newSize, n, r);
      CopyPayload(r, ptr, n);
      ghost var u := View();
      Free(ptr);
      MoveDone(s, t, u, View(), ptr, newSize, n, r);
    }

    /** `allocator_realloc`. */
    method Realloc(ptr: int, newSize: nat) returns (r: int)
      requires Valid(View()) && (ptr == NULL || IsLive(View(), ptr)) && newSize < WordLimit(w)
      requires ptr == NULL || !FitsInPlace(g.blk, ptr - 2 * w, ReallocSize(w, newSize)) ==> Servable(w, newSize)
      modifies this
      ensures Valid(View())
      ensures ptr == NULL ==> Allocated(old(View()), View(), newSize, r)
      ensures ptr != NULL && newSize == 0 ==> r == NULL && !IsLive(View(), ptr) && OthersKept(old(View()), View(), ptr - 2 * w)
      ensures ptr != NULL && newSize != 0 ==> Resized(old(View()), View(), ptr, newSize, r)
    {
      if ptr == NULL {
        r := Malloc(newSize);
        return;
      }
      if newSize == 0 {
        Free(ptr);
        return NULL;
      }
      r := Resize(ptr, newSize);
    }

    /** `allocator_realloc` of a live block to a size that is not zero. */
    method Resize(ptr: int, newSize: nat) returns (r: int)
      requires Valid(View()) && IsLive(View(), ptr) && 0 < newSize < WordLimit(w)
      requires !FitsInPlace(g.blk, ptr - 2 * w, ReallocSize(w, newSize)) ==> Servable(w, newSize)
      modifies this
      ensures Valid(View()) && Resized(old(View()), View(), ptr, newSize, r)
    {
      var done, size := Stay(ptr, newSize);
      if done {
        return ptr;
      }
      TooBig(w, newSize, size, ReallocSize(w, newSize));
      r := Move(ptr, newSize, size - Overhead());
    }

    /** The first two cases, with the size the block has. */
    method Stay(ptr: int, newSize: nat) returns (done: bool, size: int)
      requires Valid(View()) && IsLive(View(), ptr) && 0 < newSize < WordLimit(w)
      modifies this
      ensures Valid(View()) && done == FitsInPlace(old(g.blk), ptr - 2 * w, ReallocSize(w, newSize))
      ensures size == old(g.blk)[ptr - 2 * w].size && (!done ==> View() == old(View()) && size < ReallocSize(w, newSize))
      ensures 2 * w <= size && (done ==> Resized(old(View()), View(), ptr, newSize, ptr))
    {
      var b := ptr - Overhead();
      ReadHeader(View(), b);
      size := GetSize(mem[b]);
      ReallocSizeCoversIff(w, newSize);
      ghost var s := View();
      done := ResizeInPlace(b, ReallocSize(w, newSize));
      if done { InPlace(s, View(), ptr, newSize); }
    }

    /** `allocator_realloc`, first and second case, if either applies. */
    method ResizeInPlace(b: int, req: nat) returns (done: bool)
      requires Valid(View()) && b in g.blk && !g.blk[b].free && MinSize() <= req && IsAligned(req)
      modifies this
      ensures Valid(View()) && done == FitsInPlace(old(g.blk), b, req)
      ensures if !done then View() == old(View())
              else OthersKept(old(View()), View(), b) && OwnKept(old(View()), View(), b)
                   && b in g.blk && !g.blk[b].free && req <= g.blk[b].size < req + MinSize()
    {
      ghost var s := View();
      ReadHeader(s, b);
      var size := GetSize(mem[b]);
      if size >= req {
        Shrink(b, req);
        return true;
      }
      var next := b + size;
      if next < hi {
        ReadHeader(s, next);
        if IsFree(mem[next]) {
          var combined := size + GetSize(mem[next]);
          if combined >= req {
            Extend(b, next, combined, req);
            return true;
          }
        }
      }
      if next in g.blk { EndInHeap(s, b); }
      return false;
    }
  }
}
