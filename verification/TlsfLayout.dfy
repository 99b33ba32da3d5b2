/** The first half of `allocator_check_integrity`, on any heap: it accepts exactly the memories
    whose headers spell a layout. */
module TlsfLayout {
  import opened TlsfMapping
  import opened TlsfLists
  import opened TlsfBlocks
  import opened TlsfState
  import opened TlsfHeap

  /** The headers in memory spell the blocks `blk`: they tile the heap, are aligned, point back to
      their predecessors, and no two neighbours are free. */
  ghost predicate Laid(s: State, blk: Blocks) {
    && Tiling(blk, 4 * s.w, s.lo, s.hi) && Aligned(blk)
    && Headers(s.mem, blk) && PhysLinks(s.mem, s.w, blk, s.lo) && Coalesced(blk)
  }

  ghost predicate HasLayout(s: State) { exists blk: Blocks :: Laid(s, blk) }

  // ---------------------------------------------------------------------------
  // A layout passes every test

  ghost predicate Precedes(s: State, blk: Blocks, prev: int, curr: int) {
    if curr == s.lo then prev == NULL else prev in blk && End(blk, prev) == curr
  }

  lemma SameEnd(s: State, blk: Blocks, x: int, y: int)
    requires Geometry(s) && Laid(s, blk) && x in blk && y in blk && End(blk, x) == End(blk, y)
    ensures x == y
  {
    InHeap(blk, 4 * s.w, s.lo, s.hi, x);
    InHeap(blk, 4 * s.w, s.lo, s.hi, y);
    if x != y { Apart(blk, 4 * s.w, s.lo, s.hi, x, y); }
  }

  /** What the walk reads at a block of the layout. */
  lemma LaidStep(s: State, blk: Blocks, curr: int, prev: int)
    requires Geometry(s) && Laid(s, blk) && curr in blk && Precedes(s, blk, prev, curr)
    ensures 0 < curr && curr + s.w < |s.mem| && LowBits(curr, 8) == 0
    ensures GetSize(s.mem[curr]) == blk[curr].size && 4 * s.w <= blk[curr].size && End(blk, curr) <= s.hi
    ensures LowBits(s.mem[curr], 8) == LowBits(s.mem[curr], 2) && (IsFree(s.mem[curr]) <==> blk[curr].free)
    ensures s.mem[curr + s.w] == prev
    ensures prev != NULL ==> 0 <= prev < |s.mem| && !(IsFree(s.mem[curr]) && IsFree(s.mem[prev]))
    ensures End(blk, curr) == s.hi || End(blk, curr) in blk
  {
    InHeap(blk, 4 * s.w, s.lo, s.hi, curr);
    assert Read(s.mem, curr) == SizeWord(blk[curr]);
    SizeWordFields(blk[curr]);
    assert PhysLink(s.mem, s.w, blk, s.lo, curr);
    LowBitsSum(blk[curr].size, if blk[curr].free then 1 else 0, 8);
    AlignedNarrow(blk[curr].size);
    LowBitsSum(blk[curr].size, if blk[curr].free then 1 else 0, 2);
    if curr != s.lo {
      SameEnd(s, blk, prev, PrevPhys(s.mem, s.w, curr));
      InHeap(blk, 4 * s.w, s.lo, s.hi, prev);
      assert Read(s.mem, prev) == SizeWord(blk[prev]);
      SizeWordFields(blk[prev]);
      assert NotBothFree(blk, prev);
    }
  }

  /** Memory has one layout at most. */
  lemma {:induction false} SameFrom(s: State, m: Blocks, m': Blocks, b: int)
    requires Geometry(s) && Laid(s, m) && Laid(s, m') && ((b in m && b in m') || b == s.hi)
    ensures forall c :: c >= b ==> (c in m <==> c in m') && (c in m ==> m[c] == m'[c])
    decreases s.hi - b
  {
    if b in m && b in m' {
      InHeap(m, 4 * s.w, s.lo, s.hi, b);
      InHeap(m', 4 * s.w, s.lo, s.hi, b);
      assert Read(s.mem, b) == SizeWord(m[b]) == SizeWord(m'[b]);
      SizeWordFields(m[b]);
      SizeWordFields(m'[b]);
      SameFrom(s, m, m', End(m, b));
      forall c | b < c < End(m, b)
        ensures c !in m && c !in m'
      {
        if c in m { Apart(m, 4 * s.w, s.lo, s.hi, b, c); InHeap(m, 4 * s.w, s.lo, s.hi, c); }
        if c in m' { Apart(m', 4 * s.w, s.lo, s.hi, b, c); InHeap(m', 4 * s.w, s.lo, s.hi, c); }
      }
    } else {
      forall c | c >= b
        ensures c !in m && c !in m'
      {
        if c in m { InHeap(m, 4 * s.w, s.lo, s.hi, c); }
        if c in m' { InHeap(m', 4 * s.w, s.lo, s.hi, c); }
      }
    }
  }

  lemma OneLayout(s: State, m: Blocks, m': Blocks)
    requires Geometry(s) && Laid(s, m) && Laid(s, m')
    ensures m == m'
  {
    SameFrom(s, m, m', s.lo);
    forall c
      ensures c in m <==> c in m'
      ensures c in m ==> m[c] == m'[c]
    {
      if c in m { InHeap(m, 4 * s.w, s.lo, s.hi, c); }
      if c in m' { InHeap(m', 4 * s.w, s.lo, s.hi, c); }
    }
    assert m.Keys == m'.Keys;
  }

  // ---------------------------------------------------------------------------
  // Passing every test builds a layout

  /** The blocks from `lo` up to `curr`, of which `prev` is the last. */
  ghost predicate Part(s: State, blk: Blocks, curr: int, prev: int) {
    && Aligned(blk) && Headers(s.mem, blk) && Coalesced(blk)
    && s.lo <= curr <= s.hi && curr !in blk && Precedes(s, blk, prev, curr) && (s.lo < curr ==> s.lo in blk)
    && (forall b {:trigger Tile(blk, 4 * s.w, s.lo, curr, b)} :: b in blk ==> Tile(blk, 4 * s.w, s.lo, curr, b))
    && (forall b, c {:trigger InOrder(blk, b, c)} :: b in blk && c in blk ==> InOrder(blk, b, c))
    && PhysLinks(s.mem, s.w, blk, s.lo)
  }

  lemma WordFields(word: int)
    requires LowBits(word, 8) == LowBits(word, 2)
    ensures word == SizeWord(Block(GetSize(word), IsFree(word))) && IsAligned(GetSize(word))
  {
    var r := LowBits(word, 8);
    LowBitsRest(word);
    AlignedNarrow(word - r);
    LowBitsSum(word - r, r, 4);
  }

  lemma {:induction false} LowBitsRest(x: int)
    ensures IsAligned(x - LowBits(x, 8))
    decreases if x < 0 then 8 - x else x
  {
    if x < 0 {
      LowBitsRest(x + 8);
      LowBitsSum(-8, x + 8 - LowBits(x, 8), 8);
    } else {
      AlignedDown(x);
    }
  }

  /** An old block beside a new one. */
  lemma PartOld(s: State, blk: Blocks, curr: int, prev: int, x: Block, b: int)
    requires Geometry(s) && Part(s, blk, curr, prev) && b in blk && 0 < x.size
    requires prev != NULL && prev in blk ==> !(x.free && blk[prev].free)
    ensures b < curr && Tile(blk[curr := x], 4 * s.w, s.lo, curr + x.size, b) && NotBothFree(blk[curr := x], b)
    ensures End(blk, b) <= curr && PhysLink(s.mem, s.w, blk[curr := x], s.lo, b)
  {
    assert Tile(blk, 4 * s.w, s.lo, curr, b) && PhysLink(s.mem, s.w, blk, s.lo, b) && NotBothFree(blk, b);
    if End(blk, b) == curr { PartSameEnd(s, blk, curr, prev, b); }
    if b != s.lo { assert PrevPhys(s.mem, s.w, b) != curr; }
  }

  /** The new block. */
  lemma PartNew(s: State, blk: Blocks, curr: int, prev: int, x: Block)
    requires Geometry(s) && Part(s, blk, curr, prev) && 4 * s.w <= x.size && PrevPhys(s.mem, s.w, curr) == prev
    ensures var m := blk[curr := x];
      Tile(m, 4 * s.w, s.lo, curr + x.size, curr) && PhysLink(s.mem, s.w, m, s.lo, curr) && NotBothFree(m, curr)
  {
    forall b | b in blk
      ensures b < curr
    {
      assert Tile(blk, 4 * s.w, s.lo, curr, b);
    }
  }

  lemma PartOrder(s: State, blk: Blocks, curr: int, prev: int, x: Block, b: int, c: int)
    requires Geometry(s) && Part(s, blk, curr, prev) && b in blk[curr := x] && c in blk[curr := x]
    ensures InOrder(blk[curr := x], b, c)
  {
    if b != curr { assert Tile(blk, 4 * s.w, s.lo, curr, b); }
    if c != curr { assert Tile(blk, 4 * s.w, s.lo, curr, c); }
    if b != curr && c != curr { assert InOrder(blk, b, c); }
  }

  lemma PartStep(s: State, blk: Blocks, curr: int, prev: int, x: Block)
    requires Geometry(s) && Part(s, blk, curr, prev) && curr < s.hi && IsAligned(curr)
    requires Read(s.mem, curr) == SizeWord(x) && IsAligned(x.size) && 4 * s.w <= x.size && curr + x.size <= s.hi
    requires PrevPhys(s.mem, s.w, curr) == prev && (prev != NULL && prev in blk ==> !(x.free && blk[prev].free))
    ensures Part(s, blk[curr := x], curr + x.size, curr)
  {
    var m, next := blk[curr := x], curr + x.size;
    forall b | b in m
      ensures Tile(m, 4 * s.w, s.lo, next, b) && PhysLink(s.mem, s.w, m, s.lo, b) && NotBothFree(m, b)
      ensures b < next
    {
      if b == curr { PartNew(s, blk, curr, prev, x); } else { PartOld(s, blk, curr, prev, x, b); }
    }
    forall b, c | b in m && c in m
      ensures InOrder(m, b, c)
    {
      PartOrder(s, blk, curr, prev, x, b, c);
    }
  }

  /** Only the last block ends at `curr`. */
  lemma PartSameEnd(s: State, blk: Blocks, curr: int, prev: int, b: int)
    requires Geometry(s) && Part(s, blk, curr, prev) && b in blk && End(blk, b) == curr
    ensures b == prev && prev != NULL
  {
    assert Tile(blk, 4 * s.w, s.lo, curr, b);
    assert curr != s.lo;
    assert Tile(blk, 4 * s.w, s.lo, curr, prev);
    assert InOrder(blk, b, prev) && InOrder(blk, prev, b);
  }

  lemma PartDone(s: State, blk: Blocks, prev: int)
    requires Geometry(s) && Part(s, blk, s.hi, prev)
    ensures Laid(s, blk)
  {
  }

  /** A block added at the end adds its share to each tally. */
  lemma TallyExtend(blk: Blocks, overhead: int, k: Counter, curr: nat, x: Block)
    requires (forall b :: b in blk ==> b < curr) && 0 < x.size
    ensures Tally(blk[curr := x], overhead, k, curr + x.size) == Tally(blk, overhead, k, curr) + Weight(x, overhead, k)
  {
    TallyChange(blk, blk[curr := x], overhead, k, curr, curr + x.size);
    TallyGap(blk, overhead, k, curr, curr + x.size);
  }

  // ---------------------------------------------------------------------------
  // The walk

  ghost predicate Tallied(s: State, blk: Blocks, n: Counts, upTo: nat) {
    forall k {:trigger Count(n, k)} :: Count(n, k) == Tally(blk, 2 * s.w, k, upTo)
  }

  /** First half: walk the blocks in address order and recompute the counters. It stops with 0
      exactly when the headers spell a layout, and the counters are then those of the layout. */
  method PhysicalWalk(h: Heap) returns (code: int, n: Counts)
    requires Geometry(h.View())
    ensures code == 0 || -7 <= code <= -2
    ensures code == 0 <==> HasLayout(h.View())
    ensures code == 0 ==> forall blk {:trigger Laid(h.View(), blk)} :: Laid(h.View(), blk) ==> Tallied(h.View(), blk, n, h.hi)
  {
    ghost var s := h.View();
    ghost var some, full := false, map[];
    if HasLayout(s) {
      full :| Laid(s, full);
      some := true;
    }
    ghost var blk: Blocks := map[];
    var curr, prev := h.lo, NULL;
    code, n := 0, Counts(0, 0, 0, 0);
    EmptyTally(s);
    while curr < h.hi
      invariant h.View() == s && Part(s, blk, curr, prev) && Tallied(s, blk, n, curr)
      invariant some ==> Laid(s, full) && Precedes(s, full, prev, curr) && (curr == s.hi || curr in full)
      invariant some <==> HasLayout(s)
      decreases h.hi - curr
    {
      if some { LaidStep(s, full, curr, prev); }
      var word := h.mem[curr];
      var size := GetSize(word);
      if LowBits(curr, 8) != 0 { return -2, n; }
      if LowBits(word, 8) != LowBits(word, 2) { return -2, n; }
      if size < h.MinSize() { return -3, n; }
      if curr + size > h.hi { return -4, n; }
      if h.mem[curr + h.w] != prev { return -5, n; }
      WordFields(word);
      LastFree(s, blk, curr, prev);
      if IsFree(word) && prev != NULL && IsFree(h.mem[prev]) { return -6, n; }
      Advance(s, blk, curr, prev, n, word);
      n := Added(n, Block(size, IsFree(word)), h.Overhead());
      blk := blk[curr := Block(size, IsFree(word))];
      prev := curr;
      curr := curr + size;
    }
    if curr != h.hi { return -7, n; }
    PartDone(s, blk, prev);
    forall m | Laid(s, m)
      ensures Tallied(s, m, n, s.hi)
    {
      OneLayout(s, blk, m);
    }
  }

  /** A block enters the counters. */
  function Added(n: Counts, x: Block, overhead: int): Counts {
    if x.free then n.(freeMem := n.freeMem + x.size - overhead, freeBlocks := n.freeBlocks + 1)
    else n.(usedMem := n.usedMem + x.size - overhead, usedBlocks := n.usedBlocks + 1)
  }

  lemma EmptyTally(s: State)
    requires Geometry(s)
    ensures Part(s, map[], s.lo, NULL) && Tallied(s, map[], Counts(0, 0, 0, 0), s.lo)
  {
    forall k: Counter
      ensures Count(Counts(0, 0, 0, 0), k) == Tally(map[], 2 * s.w, k, s.lo)
    {
      TallyGap(map[], 2 * s.w, k, 0, s.lo);
    }
  }

  lemma LastFree(s: State, blk: Blocks, curr: int, prev: int)
    requires Geometry(s) && Part(s, blk, curr, prev)
    ensures prev != NULL ==> prev in blk && 0 <= prev < |s.mem| && (IsFree(s.mem[prev]) <==> blk[prev].free)
  {
    if prev != NULL {
      assert Tile(blk, 4 * s.w, s.lo, curr, prev);
      assert Read(s.mem, prev) == SizeWord(blk[prev]);
      SizeWordFields(blk[prev]);
    }
  }

  lemma Advance(s: State, blk: Blocks, curr: int, prev: int, n: Counts, word: int)
    requires Geometry(s) && Part(s, blk, curr, prev) && Tallied(s, blk, n, curr) && curr < s.hi && IsAligned(curr)
    requires Read(s.mem, curr) == word == SizeWord(Block(GetSize(word), IsFree(word))) && IsAligned(GetSize(word))
    requires 4 * s.w <= GetSize(word) && curr + GetSize(word) <= s.hi && PrevPhys(s.mem, s.w, curr) == prev
    requires prev != NULL && prev in blk ==> !(IsFree(word) && blk[prev].free)
    ensures var x := Block(GetSize(word), IsFree(word));
      Part(s, blk[curr := x], curr + x.size, curr) && Tallied(s, blk[curr := x], Added(n, x, 2 * s.w), curr + x.size)
  {
    var x := Block(GetSize(word), IsFree(word));
    PartStep(s, blk, curr, prev, x);
    forall b | b in blk
      ensures b < curr
    {
      assert Tile(blk, 4 * s.w, s.lo, curr, b);
    }
    forall k: Counter
      ensures Count(Added(n, x, 2 * s.w), k) == Tally(blk[curr := x], 2 * s.w, k, curr + x.size)
    {
      assert Count(n, k) == Tally(blk, 2 * s.w, k, curr);
      TallyExtend(blk, 2 * s.w, k, curr, x);
    }
  }
}
