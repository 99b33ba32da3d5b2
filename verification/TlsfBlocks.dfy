/** The two bitmap levels that mirror which free lists are non-empty. */
module TlsfBitmaps {
  import opened TlsfMapping
  import opened TlsfLists

  /** A 32-bit word as its bits, least significant first. */
  type Word = seq<bool>

  predicate IsZero(w: Word) {
    forall i :: 0 <= i < |w| ==> !w[i]
  }

  /** `w & (~0U << n)`. */
  function MaskFrom(w: Word, n: nat): (r: Word) {
    seq(|w|, i requires 0 <= i < |w| => i >= n && w[i])
  }

  /** `find_lsb_index`: the number of trailing zeros. */
  function Lsb(w: Word): (i: nat)
    requires !IsZero(w)
    ensures i < |w| && w[i] && forall j :: 0 <= j < i ==> !w[j]
  {
    LsbFrom(w, 0)
  }

  function LsbFrom(w: Word, n: nat): (i: nat)
    requires n <= |w| && !IsZero(w) && forall j :: 0 <= j < n ==> !w[j]
    ensures i < |w| && w[i] && forall j :: 0 <= j < i ==> !w[j]
    decreases |w| - n
  {
    assert n == |w| ==> IsZero(w);
    if w[n] then n else LsbFrom(w, n + 1)
  }

  function SetBit(w: Word, i: nat, v: bool): Word {
    if i < |w| then w[i := v] else w
  }

  function SetSl(sl: seq<Word>, k: Bucket, v: bool): seq<Word> {
    if k.fl < |sl| then sl[k.fl := SetBit(sl[k.fl], k.sl, v)] else sl
  }

  /** A bit of the second level is set exactly when its list is non-empty; a bit of the
      first level is set exactly when the second-level word is non-zero. */
  ghost predicate Indexed(heads: Heads, fl: Word, sl: seq<Word>) {
    && |fl| == 32 && |sl| == FL_INDEX_MAX
    && (forall f {:trigger sl[f]} :: 0 <= f < FL_INDEX_MAX ==> |sl[f]| == SL_INDEX_COUNT)
    && (forall k {:trigger Head(heads, k)} :: InTable(k) ==> (sl[k.fl][k.sl] <==> Head(heads, k) != NULL))
    && (forall f {:trigger fl[f]} {:trigger sl[f]} :: 0 <= f < FL_INDEX_MAX ==> (fl[f] <==> !IsZero(sl[f])))
    && !fl[30] && !fl[31]
  }

  lemma SetKeepsIndex(heads: Heads, fl: Word, sl: seq<Word>, k: Bucket, b: int)
    requires Indexed(heads, fl, sl) && InTable(k) && b != NULL
    ensures Indexed(heads[k := b], SetBit(fl, k.fl, true), SetSl(sl, k, true))
  {
    var word := SetBit(sl[k.fl], k.sl, true);
    assert word[k.sl];
    assert !IsZero(word);
    forall j | InTable(j)
      ensures SetSl(sl, k, true)[j.fl][j.sl] <==> Head(heads[k := b], j) != NULL
    {
      assert Head(heads, j) == Head(heads, j);
      if j == k {
        assert SetSl(sl, k, true)[j.fl] == word;
      } else {
        assert !(j.fl == k.fl && j.sl == k.sl);
        assert Head(heads[k := b], j) == Head(heads, j);
      }
    }
  }

  /** The bitmaps after `block_remove`: when the list became empty its bit goes, and the
      first-level bit goes with the last second-level bit. */
  function ClearedSl(heads: Heads, sl: seq<Word>, k: Bucket): seq<Word> {
    if Head(heads, k) == NULL then SetSl(sl, k, false) else sl
  }

  function ClearedFl(heads: Heads, fl: Word, sl: seq<Word>, k: Bucket): Word {
    if Head(heads, k) == NULL && k.fl < |sl| && IsZero(SetSl(sl, k, false)[k.fl]) then SetBit(fl, k.fl, false) else fl
  }

  lemma ClearKeepsIndex(heads: Heads, heads': Heads, fl: Word, sl: seq<Word>, k: Bucket)
    requires Indexed(heads, fl, sl) && InTable(k) && Head(heads, k) != NULL
    requires forall j {:trigger Head(heads', j)} :: InTable(j) && j != k ==> Head(heads', j) == Head(heads, j)
    ensures Indexed(heads', ClearedFl(heads', fl, sl, k), ClearedSl(heads', sl, k))
  {
    assert sl[k.fl][k.sl] && fl[k.fl];
    forall j | InTable(j)
      ensures ClearedSl(heads', sl, k)[j.fl][j.sl] <==> Head(heads', j) != NULL
    {
      assert Head(heads, j) == Head(heads, j);
    }
  }
}

/** The physical layout of the heap: blocks that tile it, their headers in memory, and
    the statistics they add up to. */
module TlsfBlocks {
  import opened TlsfLists

  /** `x & (m - 1)` for a power of two `m`. */
  function LowBits(x: int, m: nat): (r: int)
    requires 0 < m
    ensures 0 <= r < m
    decreases if x < 0 then m - x else x
  {
    if x < 0 then LowBits(x + m, m) else if x < m then x else LowBits(x - m, m)
  }

  predicate IsAligned(x: int) { LowBits(x, 8) == 0 }

  lemma {:induction false} LowBitsSum(x: int, y: int, m: nat)
    requires 0 < m && LowBits(x, m) == 0
    ensures LowBits(x + y, m) == LowBits(y, m)
    decreases if x < 0 then m - x else x
  {
    if x < 0 {
      LowBitsSum(x + m, y, m);
      assert LowBits(x + y, m) == LowBits(x + y + m, m);
    } else if x >= m {
      LowBitsSum(x - m, y, m);
      assert LowBits(x + y - m, m) == LowBits(x + y, m);
    }
  }

  /** A multiple of 8 has no low bits, whatever the narrower mask. */
  lemma {:induction false} AlignedNarrow(x: int)
    requires IsAligned(x)
    ensures LowBits(x, 4) == 0 && LowBits(x, 2) == 0
    decreases if x < 0 then 8 - x else x
  {
    if x < 0 {
      AlignedNarrow(x + 8);
      LowBitsSum(-8, x + 8, 4);
      LowBitsSum(-8, x + 8, 2);
    } else if x >= 8 {
      AlignedNarrow(x - 8);
      LowBitsSum(8, x - 8, 4);
      LowBitsSum(8, x - 8, 2);
    }
  }

  /** Clearing the low bits rounds down to a multiple of 8. */
  lemma {:induction false} AlignedDown(x: nat)
    ensures IsAligned(x - LowBits(x, 8))
  {
    if x >= 8 { AlignedDown(x - 8); }
  }

  lemma {:induction false} AlignedIsMultiple(x: int)
    ensures IsAligned(x) <==> x % 8 == 0
    decreases if x < 0 then 8 - x else x
  {
    if x < 0 { AlignedIsMultiple(x + 8); } else if x >= 8 { AlignedIsMultiple(x - 8); }
  }

  datatype Block = Block(size: int, free: bool)

  type Blocks = map<int, Block>

  /** The word stored in a block's first field: its size with the free flag in bit 0. */
  function SizeWord(x: Block): int { x.size + if x.free then 1 else 0 }

  /** `GET_SIZE` and `IS_FREE` on that word. */
  function GetSize(word: int): int { word - LowBits(word, 4) }

  predicate IsFree(word: int) { LowBits(word, 2) == 1 }

  function PrevPhys(mem: Memory, w: int, b: int): int { Read(mem, b + w) }

  function End(blk: Blocks, b: int): int
    requires b in blk
  {
    b + blk[b].size
  }

  ghost predicate Tile(blk: Blocks, min: int, lo: int, hi: int, b: int)
    requires b in blk
  {
    lo <= b && min <= blk[b].size && End(blk, b) <= hi && (End(blk, b) == hi || End(blk, b) in blk)
  }

  ghost predicate InOrder(blk: Blocks, b: int, c: int)
    requires b in blk && c in blk
  {
    b < c ==> End(blk, b) <= c
  }

  /** The blocks tile the heap from lo to hi: large enough, disjoint, and each ends where the next begins
      or at the end of the heap. */
  ghost predicate Tiling(blk: Blocks, min: int, lo: int, hi: int) {
    && lo in blk
    && (forall b {:trigger Tile(blk, min, lo, hi, b)} :: b in blk ==> Tile(blk, min, lo, hi, b))
    && (forall b, c {:trigger InOrder(blk, b, c)} :: b in blk && c in blk ==> InOrder(blk, b, c))
  }

  ghost predicate Aligned(blk: Blocks) {
    forall b {:trigger blk[b]} :: b in blk ==> IsAligned(b) && IsAligned(blk[b].size)
  }

  /** `b` and its successor are not both free. */
  ghost predicate NotBothFree(blk: Blocks, b: int)
    requires b in blk
  {
    blk[b].free && End(blk, b) in blk ==> !blk[End(blk, b)].free
  }

  /** No two neighbouring blocks are both free. */
  ghost predicate Coalesced(blk: Blocks) {
    forall b {:trigger NotBothFree(blk, b)} :: b in blk ==> NotBothFree(blk, b)
  }

  ghost predicate Headers(mem: Memory, blk: Blocks) {
    forall b {:trigger Read(mem, b)} :: b in blk ==> Read(mem, b) == SizeWord(blk[b])
  }

  ghost predicate PhysLink(mem: Memory, w: int, blk: Blocks, lo: int, b: int)
    requires b in blk
  {
    var p := PrevPhys(mem, w, b);
    if b == lo then p == NULL else p in blk && End(blk, p) == b
  }

  /** Each block's back pointer names the block just before it. */
  ghost predicate PhysLinks(mem: Memory, w: int, blk: Blocks, lo: int) {
    forall b {:trigger PhysLink(mem, w, blk, lo, b)} :: b in blk ==> PhysLink(mem, w, blk, lo, b)
  }

  /** `mem'` has the same header words as `mem` for every block. */
  ghost predicate SameHeaders(mem: Memory, mem': Memory, w: int, blk: Blocks) {
    && |mem'| == |mem|
    && forall b {:trigger Read(mem', b)} {:trigger PrevPhys(mem', w, b)} :: b in blk ==>
         Read(mem', b) == Read(mem, b) && PrevPhys(mem', w, b) == PrevPhys(mem, w, b)
  }

  /** The payload of block `u`: everything after its two header words. */
  predicate InPayload(blk: Blocks, w: int, u: int, a: int) {
    u in blk && u + 2 * w <= a < u + blk[u].size
  }

  /** Only header words and words inside free blocks may differ between `mem` and `mem'`. */
  ghost predicate SamePayloads(mem: Memory, mem': Memory, w: int, blk: Blocks, lo: int, hi: int) {
    && |mem'| == |mem|
    && (forall a {:trigger mem'[a]} :: 0 <= a < |mem| && (a < lo || hi <= a) ==> mem'[a] == mem[a])
    && (forall u, a {:trigger InPayload(blk, w, u, a)} ::
          0 <= a < |mem| && InPayload(blk, w, u, a) && !blk[u].free ==> mem'[a] == mem[a])
  }

  lemma Apart(blk: Blocks, min: int, lo: int, hi: int, b: int, c: int)
    requires Tiling(blk, min, lo, hi) && b in blk && c in blk && b != c
    ensures End(blk, b) <= c || End(blk, c) <= b
  {
    assert InOrder(blk, b, c) && InOrder(blk, c, b);
  }

  lemma InHeap(blk: Blocks, min: int, lo: int, hi: int, b: int)
    requires Tiling(blk, min, lo, hi) && b in blk
    ensures lo <= b && min <= blk[b].size && End(blk, b) <= hi && (End(blk, b) == hi || End(blk, b) in blk)
  {
    assert Tile(blk, min, lo, hi, b);
  }

  /** Blocks of a tiling never overlap in their headers. */
  lemma TilingSpaces(blk: Blocks, w: int, lo: int, hi: int, limit: int)
    requires 0 < w && 0 < lo && hi <= limit && Tiling(blk, 4 * w, lo, hi)
    ensures Spaced(blk.Keys, w, limit)
  {
    forall x | x in blk.Keys
      ensures 0 < x && x + 4 * w <= limit
    {
      InHeap(blk, 4 * w, lo, hi, x);
    }
    forall x, y | x in blk.Keys && y in blk.Keys && x < y
      ensures x + 4 * w <= y
    {
      InHeap(blk, 4 * w, lo, hi, x);
      assert InOrder(blk, x, y);
    }
  }

  /** A write inside block `f` past its two header words leaves all headers alone. */
  lemma WriteKeepsHeaders(mem: Memory, w: int, blk: Blocks, lo: int, hi: int, f: int, a: int, v: int)
    requires 0 < w && 0 < lo && hi <= |mem| && Tiling(blk, 4 * w, lo, hi)
    requires InPayload(blk, w, f, a)
    ensures SameHeaders(mem, Write(mem, a, v), w, blk)
  {
    InHeap(blk, 4 * w, lo, hi, f);
    var mem' := Write(mem, a, v);
    forall b | b in blk
      ensures Read(mem', b) == Read(mem, b) && PrevPhys(mem', w, b) == PrevPhys(mem, w, b)
    {
      InHeap(blk, 4 * w, lo, hi, b);
      if b != f { Apart(blk, 4 * w, lo, hi, b, f); }
      assert b != a && b + w != a;
    }
  }

  /** A write inside a free block leaves all live payloads alone. */
  lemma WriteKeepsPayloads(mem: Memory, w: int, blk: Blocks, lo: int, hi: int, f: int, a: int, v: int)
    requires 0 < w && 0 < lo && hi <= |mem| && Tiling(blk, 4 * w, lo, hi)
    requires f in blk && blk[f].free && f <= a < End(blk, f)
    ensures SamePayloads(mem, Write(mem, a, v), w, blk, lo, hi)
  {
    InHeap(blk, 4 * w, lo, hi, f);
    forall u | u in blk && !blk[u].free
      ensures !InPayload(blk, w, u, a)
    {
      Apart(blk, 4 * w, lo, hi, u, f);
    }
  }

  lemma FramesCompose(m0: Memory, m1: Memory, m2: Memory, w: int, blk: Blocks, lo: int, hi: int)
    requires SameHeaders(m0, m1, w, blk) && SamePayloads(m0, m1, w, blk, lo, hi)
    requires SameHeaders(m1, m2, w, blk) && SamePayloads(m1, m2, w, blk, lo, hi)
    ensures SameHeaders(m0, m2, w, blk) && SamePayloads(m0, m2, w, blk, lo, hi)
  {
  }

  lemma HeadersFrame(mem: Memory, mem': Memory, w: int, blk: Blocks, lo: int)
    requires Headers(mem, blk) && PhysLinks(mem, w, blk, lo) && SameHeaders(mem, mem', w, blk)
    ensures Headers(mem', blk) && PhysLinks(mem', w, blk, lo)
  {
    forall b | b in blk
      ensures PhysLink(mem', w, blk, lo, b)
    {
      assert PhysLink(mem, w, blk, lo, b);
    }
  }

  /** The free-list words of every block are the same in both memories. */
  ghost predicate SameLinks(mem: Memory, mem': Memory, w: int, blk: Blocks) {
    forall b {:trigger NextFree(mem', w, b)} {:trigger PrevFree(mem', w, b)} :: b in blk ==>
      NextFree(mem', w, b) == NextFree(mem, w, b) && PrevFree(mem', w, b) == PrevFree(mem, w, b)
  }

  /** A write to one header word changes that header and nothing else of any block. */
  lemma HeaderWrite(mem: Memory, w: int, blk: Blocks, lo: int, hi: int, b: int, a: int, v: int)
    requires 0 < w && 0 < lo && hi <= |mem| && Tiling(blk, 4 * w, lo, hi)
    requires b in blk && (a == b || a == b + w)
    ensures SameLinks(mem, Write(mem, a, v), w, blk) && SamePayloads(mem, Write(mem, a, v), w, blk, lo, hi)
    ensures forall c {:trigger Read(Write(mem, a, v), c)} :: Read(Write(mem, a, v), c) == if c == a then v else Read(mem, c)
  {
    InHeap(blk, 4 * w, lo, hi, b);
    forall c | c in blk
      ensures a != c + 2 * w && a != c + 3 * w && !InPayload(blk, w, c, a)
    {
      InHeap(blk, 4 * w, lo, hi, c);
      if c != b { Apart(blk, 4 * w, lo, hi, b, c); }
    }
  }

  lemma HeaderWrites(mem: Memory, w: int, blk: Blocks, lo: int, hi: int, b: int, a: int, v: int, b': int, a': int, v': int)
    requires 0 < w && 0 < lo && hi <= |mem| && Tiling(blk, 4 * w, lo, hi)
    requires b in blk && (a == b || a == b + w) && b' in blk && (a' == b' || a' == b' + w)
    ensures var mem' := Write(Write(mem, a, v), a', v'); SameLinks(mem, mem', w, blk) && SamePayloads(mem, mem', w, blk, lo, hi)
  {
    HeaderWrite(mem, w, blk, lo, hi, b, a, v);
    HeaderWrite(Write(mem, a, v), w, blk, lo, hi, b', a', v');
  }

  lemma HeaderOnlyCompose(m0: Memory, m1: Memory, m2: Memory, w: int, blk: Blocks, lo: int, hi: int)
    requires SameLinks(m0, m1, w, blk) && SamePayloads(m0, m1, w, blk, lo, hi)
    requires SameLinks(m1, m2, w, blk) && SamePayloads(m1, m2, w, blk, lo, hi)
    ensures SameLinks(m0, m2, w, blk) && SamePayloads(m0, m2, w, blk, lo, hi)
  {
  }

  // ---------------------------------------------------------------------------
  // Splitting a block and merging a block with its successor

  /** Block `b` swallows the block that follows it. */
  function Merged(blk: Blocks, b: int, free: bool): Blocks
    requires b in blk && End(blk, b) in blk
  {
    (blk - {End(blk, b)})[b := Block(blk[b].size + blk[End(blk, b)].size, free)]
  }

  lemma MergeTiles(blk: Blocks, min: int, lo: int, hi: int, b: int, free: bool)
    requires 0 < min && Tiling(blk, min, lo, hi) && b in blk && End(blk, b) in blk
    ensures Tiling(Merged(blk, b, free), min, lo, hi)
  {
    var c := End(blk, b);
    var m := Merged(blk, b, free);
    InHeap(blk, min, lo, hi, b);
    InHeap(blk, min, lo, hi, c);
    forall x | x in m
      ensures Tile(m, min, lo, hi, x)
    {
      InHeap(blk, min, lo, hi, x);
      if x != b { Apart(blk, min, lo, hi, x, b); }
      if End(blk, c) != hi { InHeap(blk, min, lo, hi, End(blk, c)); }
    }
    forall x, y | x in m && y in m
      ensures InOrder(m, x, y)
    {
      if x != y {
        InHeap(blk, min, lo, hi, x);
        InHeap(blk, min, lo, hi, y);
        Apart(blk, min, lo, hi, x, y);
        Apart(blk, min, lo, hi, c, y);
      }
    }
  }

  /** Block `b` keeps `size` bytes; the rest becomes a free block. */
  function Split(blk: Blocks, b: int, size: int): Blocks
    requires b in blk
  {
    blk[b := Block(size, false)][b + size := Block(blk[b].size - size, true)]
  }

  lemma SplitTiles(blk: Blocks, min: int, lo: int, hi: int, b: int, size: int)
    requires 0 < min && Tiling(blk, min, lo, hi) && b in blk && min <= size && min <= blk[b].size - size
    ensures b + size !in blk && Tiling(Split(blk, b, size), min, lo, hi)
  {
    var m := Split(blk, b, size);
    InHeap(blk, min, lo, hi, b);
    if b + size in blk {
      Apart(blk, min, lo, hi, b, b + size);
      InHeap(blk, min, lo, hi, b + size);
    }
    forall x | x in m
      ensures Tile(m, min, lo, hi, x)
    {
      if x in blk {
        InHeap(blk, min, lo, hi, x);
        if x != b { Apart(blk, min, lo, hi, x, b); }
      }
    }
    forall x, y | x in m && y in m
      ensures InOrder(m, x, y)
    {
      if x in blk && y in blk && x != y { Apart(blk, min, lo, hi, x, y); }
      if x in blk && x != b { Apart(blk, min, lo, hi, x, b); InHeap(blk, min, lo, hi, x); }
      if y in blk && y != b { Apart(blk, min, lo, hi, b, y); InHeap(blk, min, lo, hi, y); }
    }
  }

  /** Memory after the header of `b` is rewritten and its successor points back to it. */
  function ResizeMem(mem: Memory, w: int, hi: int, b: int, x: Block): (m: Memory) {
    var m := Write(mem, b, SizeWord(x));
    if b + x.size < hi then Write(m, b + x.size + w, b) else m
  }

  lemma MergePhysLink(mem: Memory, mem': Memory, w: int, blk: Blocks, lo: int, hi: int, b: int, free: bool, x: int)
    requires 0 < w && Tiling(blk, 4 * w, lo, hi) && PhysLinks(mem, w, blk, lo) && b in blk && End(blk, b) in blk
    requires x in Merged(blk, b, free)
    requires PrevPhys(mem', w, x) == if x == End(Merged(blk, b, free), b) then b else PrevPhys(mem, w, x)
    ensures PhysLink(mem', w, Merged(blk, b, free), lo, x)
  {
    var c := End(blk, b);
    assert PhysLink(mem, w, blk, lo, x);
    InHeap(blk, 4 * w, lo, hi, b);
    InHeap(blk, 4 * w, lo, hi, c);
  }

  /** The header words after `ResizeMem`, for the tiling `m` in which `b` already has its new size. */
  lemma ResizeWords(mem: Memory, w: int, m: Blocks, lo: int, hi: int, b: int)
    requires 0 < w && 0 < lo && hi <= |mem| && Tiling(m, 4 * w, lo, hi) && b in m
    ensures var mem' := ResizeMem(mem, w, hi, b, m[b]);
      && SameLinks(mem, mem', w, m) && SamePayloads(mem, mem', w, m, lo, hi)
      && (forall x {:trigger Read(mem', x)} :: x in m ==> Read(mem', x) == if x == b then SizeWord(m[b]) else Read(mem, x))
      && (forall x {:trigger PrevPhys(mem', w, x)} :: x in m ==>
            PrevPhys(mem', w, x) == if x == End(m, b) then b else PrevPhys(mem, w, x))
  {
    InHeap(m, 4 * w, lo, hi, b);
    var e := End(m, b);
    if e < hi { InHeap(m, 4 * w, lo, hi, e); }
    HeaderWrite(mem, w, m, lo, hi, b, b, SizeWord(m[b]));
    var m1 := Write(mem, b, SizeWord(m[b]));
    if e < hi { HeaderWrite(m1, w, m, lo, hi, e, e + w, b); }
    forall x | x in m
      ensures x + w != b && x != e + w && (x + w == e + w <==> x == e) && (x == e ==> e < hi)
    {
      InHeap(m, 4 * w, lo, hi, x);
      if x != b { Apart(m, 4 * w, lo, hi, x, b); }
      if e < hi && x != e { Apart(m, 4 * w, lo, hi, x, e); }
    }
  }

  lemma MergeHeaders(mem: Memory, w: int, blk: Blocks, lo: int, hi: int, b: int, free: bool)
    requires 0 < w && 0 < lo && hi <= |mem| && Tiling(blk, 4 * w, lo, hi)
    requires Headers(mem, blk) && PhysLinks(mem, w, blk, lo) && b in blk && End(blk, b) in blk
    requires Tiling(Merged(blk, b, free), 4 * w, lo, hi)
    ensures var m, mem' := Merged(blk, b, free), ResizeMem(mem, w, hi, b, Merged(blk, b, free)[b]);
      Headers(mem', m) && PhysLinks(mem', w, m, lo)
  {
    var m := Merged(blk, b, free);
    ResizeWords(mem, w, m, lo, hi, b);
    var mem' := ResizeMem(mem, w, hi, b, m[b]);
    forall x | x in m
      ensures Read(mem', x) == SizeWord(m[x]) && PhysLink(mem', w, m, lo, x)
    {
      assert x != b ==> Read(mem, x) == SizeWord(blk[x]);
      MergePhysLink(mem, mem', w, blk, lo, hi, b, free, x);
    }
  }

  /** `block_trim` first writes the header of the rest, at `r`, ... */
  function RestMem(mem: Memory, w: int, b: int, r: int, x: Block): (m: Memory) {
    Write(Write(mem, r, SizeWord(x)), r + w, b)
  }

  /** ... then the new size of the block and the back pointer of the block after the rest. */
  function KeptMem(mem: Memory, w: int, hi: int, b: int, size: int, e: int): (m: Memory) {
    var m := Write(mem, b, size);
    if e < hi then Write(m, e + w, b + size) else m
  }

  function SplitMem(mem: Memory, w: int, hi: int, blk: Blocks, b: int, size: int): (m: Memory)
    requires b in blk
  {
    KeptMem(RestMem(mem, w, b, b + size, Block(blk[b].size - size, true)), w, hi, b, size, End(blk, b))
  }

  lemma SplitPhysLink(mem: Memory, mem': Memory, w: int, blk: Blocks, lo: int, hi: int, b: int, size: int, x: int)
    requires 0 < w && 0 < size && Tiling(blk, 4 * w, lo, hi) && PhysLinks(mem, w, blk, lo) && b in blk && b + size !in blk
    requires x in Split(blk, b, size)
    requires PrevPhys(mem', w, x) == if x == End(blk, b) then b + size else if x == b + size then b else PrevPhys(mem, w, x)
    ensures PhysLink(mem', w, Split(blk, b, size), lo, x)
  {
    InHeap(blk, 4 * w, lo, hi, b);
    if x in blk { assert PhysLink(mem, w, blk, lo, x); }
  }

  lemma KeptFrame(mem: Memory, w: int, m: Blocks, lo: int, hi: int, b: int, size: int, e: int)
    requires 0 < w && 0 < lo && hi <= |mem| && Tiling(m, 4 * w, lo, hi) && b in m && (e < hi ==> e in m)
    ensures var mem' := KeptMem(mem, w, hi, b, size, e); SameLinks(mem, mem', w, m) && SamePayloads(mem, mem', w, m, lo, hi)
  {
    if e < hi {
      HeaderWrites(mem, w, m, lo, hi, b, b, size, e, e + w, b + size);
    } else {
      HeaderWrite(mem, w, m, lo, hi, b, b, size);
    }
  }

  lemma RestFrame(mem: Memory, w: int, m: Blocks, lo: int, hi: int, b: int, r: int, x: Block)
    requires 0 < w && 0 < lo && hi <= |mem| && Tiling(m, 4 * w, lo, hi) && r in m
    ensures var mem' := RestMem(mem, w, b, r, x); SameLinks(mem, mem', w, m) && SamePayloads(mem, mem', w, m, lo, hi)
  {
    HeaderWrites(mem, w, m, lo, hi, r, r, SizeWord(x), r, r + w, b);
  }

  /** Nothing but header words is written by a split. */
  lemma SplitFrame(mem: Memory, w: int, blk: Blocks, lo: int, hi: int, b: int, size: int)
    requires 0 < w && 0 < lo && hi <= |mem| && b in blk && 4 * w <= size && size + 4 * w <= blk[b].size
    requires Tiling(Split(blk, b, size), 4 * w, lo, hi) && End(blk, b) <= hi
    ensures var m, mem' := Split(blk, b, size), SplitMem(mem, w, hi, blk, b, size);
      SameLinks(mem, mem', w, m) && SamePayloads(mem, mem', w, m, lo, hi)
  {
    var m, r, x := Split(blk, b, size), b + size, Block(blk[b].size - size, true);
    InHeap(m, 4 * w, lo, hi, r);
    RestFrame(mem, w, m, lo, hi, b, r, x);
    KeptFrame(RestMem(mem, w, b, r, x), w, m, lo, hi, b, size, End(blk, b));
    HeaderOnlyCompose(mem, RestMem(mem, w, b, r, x), SplitMem(mem, w, hi, blk, b, size), w, m, lo, hi);
  }

  lemma SplitWords(mem: Memory, w: int, blk: Blocks, lo: int, hi: int, b: int, size: int, x: int)
    requires 0 < w && 0 < lo && hi <= |mem| && b in blk && 4 * w <= size && size + 4 * w <= blk[b].size
    requires Tiling(Split(blk, b, size), 4 * w, lo, hi) && End(blk, b) <= hi
    requires x in Split(blk, b, size)
    ensures var m, mem', r := Split(blk, b, size), SplitMem(mem, w, hi, blk, b, size), b + size;
      && Read(mem', x) == (if x == b || x == r then SizeWord(m[x]) else Read(mem, x))
      && PrevPhys(mem', w, x) == (if x == End(blk, b) then r else if x == r then b else PrevPhys(mem, w, x))
  {
    var m, r, e := Split(blk, b, size), b + size, End(blk, b);
    InHeap(m, 4 * w, lo, hi, x);
    if x != b { Apart(m, 4 * w, lo, hi, x, b); }
    if x != r { Apart(m, 4 * w, lo, hi, x, r); }
    if e < hi {
      InHeap(m, 4 * w, lo, hi, r);
      InHeap(m, 4 * w, lo, hi, e);
      if x != e { Apart(m, 4 * w, lo, hi, x, e); }
    }
  }

  lemma SplitHeaders(mem: Memory, w: int, blk: Blocks, lo: int, hi: int, b: int, size: int)
    requires 0 < w && 0 < lo && hi <= |mem| && Tiling(blk, 4 * w, lo, hi)
    requires Headers(mem, blk) && PhysLinks(mem, w, blk, lo) && b in blk && 4 * w <= size && size + 4 * w <= blk[b].size
    requires Tiling(Split(blk, b, size), 4 * w, lo, hi) && b + size !in blk
    ensures var m, mem' := Split(blk, b, size), SplitMem(mem, w, hi, blk, b, size);
      Headers(mem', m) && PhysLinks(mem', w, m, lo)
  {
    InHeap(blk, 4 * w, lo, hi, b);
    if End(blk, b) < hi { InHeap(blk, 4 * w, lo, hi, End(blk, b)); }
    var m, mem' := Split(blk, b, size), SplitMem(mem, w, hi, blk, b, size);
    forall x | x in m
      ensures Read(mem', x) == SizeWord(m[x]) && PhysLink(mem', w, m, lo, x)
    {
      SplitWords(mem, w, blk, lo, hi, b, size, x);
      assert x != b && x != b + size ==> Read(mem, x) == SizeWord(blk[x]);
      SplitPhysLink(mem, mem', w, blk, lo, hi, b, size, x);
    }
  }

  // ---------------------------------------------------------------------------
  // Statistics

  /** The four running counters of the allocator. */
  datatype Counter = FreeMem | UsedMem | FreeBlocks | UsedBlocks

  /** What a block with this header adds to a counter. */
  function Weight(x: Block, overhead: int, k: Counter): int {
    match k
    case FreeMem => if x.free then x.size - overhead else 0
    case UsedMem => if x.free then 0 else x.size - overhead
    case FreeBlocks => if x.free then 1 else 0
    case UsedBlocks => if x.free then 0 else 1
  }

  function Share(blk: Blocks, overhead: int, k: Counter, b: int): int {
    if b in blk then Weight(blk[b], overhead, k) else 0
  }

  /** A counter recomputed from the blocks that start below address `n`. */
  function Tally(blk: Blocks, overhead: int, k: Counter, n: nat): int {
    if n == 0 then 0 else Tally(blk, overhead, k, n - 1) + Share(blk, overhead, k, n - 1)
  }

  /** Changing one block changes each counter by the difference of its shares. */
  lemma {:induction false} TallyChange(m: Blocks, m': Blocks, overhead: int, k: Counter, b: int, n: nat)
    requires forall c :: c != b ==> Share(m, overhead, k, c) == Share(m', overhead, k, c)
    ensures Tally(m', overhead, k, n) - Tally(m, overhead, k, n) ==
      if 0 <= b < n then Share(m', overhead, k, b) - Share(m, overhead, k, b) else 0
  {
    if n > 0 { TallyChange(m, m', overhead, k, b, n - 1); }
  }

  /** Addresses with no block contribute nothing. */
  lemma {:induction false} TallyGap(blk: Blocks, overhead: int, k: Counter, a: nat, n: nat)
    requires a <= n && forall c :: a <= c < n ==> Share(blk, overhead, k, c) == 0
    ensures Tally(blk, overhead, k, n) == Tally(blk, overhead, k, a)
  {
    if a < n { TallyGap(blk, overhead, k, a, n - 1); }
  }

  lemma MergeTally(blk: Blocks, overhead: int, k: Counter, b: int, free: bool, n: nat)
    requires b in blk && End(blk, b) in blk && 0 <= b < End(blk, b) < n
    ensures Tally(Merged(blk, b, free), overhead, k, n) ==
      Tally(blk, overhead, k, n) - Weight(blk[b], overhead, k) - Weight(blk[End(blk, b)], overhead, k)
      + Weight(Merged(blk, b, free)[b], overhead, k)
  {
    var m := blk - {End(blk, b)};
    TallyChange(blk, m, overhead, k, End(blk, b), n);
    TallyChange(m, Merged(blk, b, free), overhead, k, b, n);
  }

  lemma SplitTally(blk: Blocks, overhead: int, k: Counter, b: int, size: int, n: nat)
    requires b in blk && b + size !in blk && 0 <= b < b + size < n
    ensures Tally(Split(blk, b, size), overhead, k, n) ==
      Tally(blk, overhead, k, n) - Weight(blk[b], overhead, k)
      + Weight(Split(blk, b, size)[b], overhead, k) + Weight(Split(blk, b, size)[b + size], overhead, k)
  {
    var m := blk[b := Block(size, false)];
    TallyChange(blk, m, overhead, k, b, n);
    TallyChange(m, Split(blk, b, size), overhead, k, b + size, n);
  }

  /** One step of a physical walk: from the start of a block to its end. */
  lemma TallyStep(blk: Blocks, min: int, lo: int, hi: int, overhead: int, k: Counter, b: int)
    requires 0 <= lo && 0 < min && Tiling(blk, min, lo, hi) && b in blk
    ensures 0 <= b < End(blk, b)
    ensures Tally(blk, overhead, k, End(blk, b)) == Tally(blk, overhead, k, b) + Weight(blk[b], overhead, k)
  {
    InHeap(blk, min, lo, hi, b);
    forall c | b + 1 <= c < End(blk, b)
      ensures Share(blk, overhead, k, c) == 0
    {
      if c in blk { Apart(blk, min, lo, hi, b, c); InHeap(blk, min, lo, hi, c); }
    }
    TallyGap(blk, overhead, k, b + 1, End(blk, b));
  }

  /** Nothing lies below the first block. */
  lemma TallyStart(blk: Blocks, min: int, lo: nat, hi: int, overhead: int, k: Counter)
    requires Tiling(blk, min, lo, hi)
    ensures Tally(blk, overhead, k, lo) == 0
  {
    forall c | 0 <= c < lo
      ensures Share(blk, overhead, k, c) == 0
    {
      if c in blk { InHeap(blk, min, lo, hi, c); }
    }
    TallyGap(blk, overhead, k, 0, lo);
  }

  /** Heap bytes accounted for by the blocks below `n`: payloads and one header per block. */
  function Bytes(blk: Blocks, overhead: int, n: nat): int {
    Tally(blk, overhead, FreeMem, n) + Tally(blk, overhead, UsedMem, n)
    + overhead * (Tally(blk, overhead, FreeBlocks, n) + Tally(blk, overhead, UsedBlocks, n))
  }

  lemma BytesStep(blk: Blocks, min: int, lo: int, hi: int, overhead: int, b: int)
    requires 0 <= lo && 0 < min && Tiling(blk, min, lo, hi) && b in blk
    ensures 0 <= b < End(blk, b)
    ensures Bytes(blk, overhead, End(blk, b)) == Bytes(blk, overhead, b) + blk[b].size
  {
    InHeap(blk, min, lo, hi, b);
    forall k: Counter
      ensures Tally(blk, overhead, k, End(blk, b)) == Tally(blk, overhead, k, b) + Weight(blk[b], overhead, k)
    {
      TallyStep(blk, min, lo, hi, overhead, k, b);
    }
    var x := Tally(blk, overhead, FreeBlocks, b) + Tally(blk, overhead, UsedBlocks, b);
    assert overhead * (x + 1) == overhead * x + overhead;
  }

  /** From one boundary on to a later one. */
  lemma {:induction false} BytesBetween(blk: Blocks, min: int, lo: nat, hi: nat, overhead: int, b: nat, n: nat)
    requires 0 < min && Tiling(blk, min, lo, hi) && (b in blk || b == hi) && (n in blk || n == hi) && b <= n <= hi
    ensures Bytes(blk, overhead, n) - Bytes(blk, overhead, b) == n - b
    decreases n - b
  {
    if b < n {
      InHeap(blk, min, lo, hi, b);
      if n in blk { InHeap(blk, min, lo, hi, n); Apart(blk, min, lo, hi, b, n); }
      BytesStep(blk, min, lo, hi, overhead, b);
      BytesBetween(blk, min, lo, hi, overhead, End(blk, b), n);
    }
  }

  /** Conservation: up to any boundary, free memory, used memory and one header per block add
      up to the distance from the start of the heap. */
  lemma BytesConserved(blk: Blocks, min: int, lo: nat, hi: nat, overhead: int, n: nat)
    requires 0 < min && Tiling(blk, min, lo, hi) && (n in blk || n == hi)
    ensures Bytes(blk, overhead, n) == n - lo
  {
    InHeap(blk, min, lo, hi, lo);
    if n in blk { InHeap(blk, min, lo, hi, n); }
    TallyStart(blk, min, lo, hi, overhead, FreeMem);
    TallyStart(blk, min, lo, hi, overhead, UsedMem);
    TallyStart(blk, min, lo, hi, overhead, FreeBlocks);
    TallyStart(blk, min, lo, hi, overhead, UsedBlocks);
    BytesBetween(blk, min, lo, hi, overhead, lo, n);
  }
}
