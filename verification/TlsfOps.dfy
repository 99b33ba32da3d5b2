/** Allocation, release and resizing as functions on the allocator's state: each keeps the
    heap invariant and leaves every other live block alone. */
module TlsfOps {
  import opened TlsfMapping
  import opened TlsfLists
  import opened TlsfBitmaps
  import opened TlsfBlocks
  import opened TlsfState
  import opened TlsfSteps

  /** Apart from block `b`, the same blocks are live with the same payloads, and memory
      outside the heap is the same. */
  ghost predicate OthersKept(s: State, t: State, b: int) {
    && t.w == s.w && t.lo == s.lo && t.hi == s.hi && |t.mem| == |s.mem|
    && SameLive(s.blk - {b}, t.blk - {b})
    && (forall a {:trigger t.mem[a]} :: 0 <= a < |s.mem| && (a < s.lo || s.hi <= a) ==> t.mem[a] == s.mem[a])
    && (forall u, a {:trigger InPayload(s.blk, s.w, u, a)} ::
          0 <= a < |s.mem| && InPayload(s.blk, s.w, u, a) && !s.blk[u].free && u != b ==> t.mem[a] == s.mem[a])
  }

  lemma OthersKeptCompose(s: State, t: State, u: State, b: int)
    requires OthersKept(s, t, b) && OthersKept(t, u, b)
    ensures OthersKept(s, u, b)
  {
    forall v, a | 0 <= a < |s.mem| && InPayload(s.blk, s.w, v, a) && !s.blk[v].free && v != b
      ensures u.mem[a] == s.mem[a]
    {
      assert v in s.blk - {b};
      assert InPayload(t.blk, s.w, v, a);
    }
    forall v | (v in s.blk - {b} && !s.blk[v].free) || (v in u.blk - {b} && !u.blk[v].free)
      ensures v in s.blk - {b} && v in u.blk - {b} && s.blk[v] == u.blk[v]
    {
      assert v in s.blk - {b} || v in u.blk - {b};
      assert v in t.blk - {b};
    }
  }

  /** Changing the free flag moves a block's share between counters. */
  lemma FlagDrift(s: State, b: int, free: bool, k: Counter)
    requires b in s.blk && 0 <= b < s.hi
    ensures Drift(Flagged(s, b, free), k) == DriftBut(s, b, k) - Weight(Block(s.blk[b].size, free), 2 * s.w, k)
  {
    TallyChange(s.blk, Flagged(s, b, free).blk, 2 * s.w, k, b, s.hi);
  }

  /** Counters after a block with this header joins (or leaves) the accounts. */
  function Credit(n: Counts, x: Block, overhead: int): Counts {
    if x.free then n.(freeMem := n.freeMem + x.size - overhead, freeBlocks := n.freeBlocks + 1)
    else n.(usedMem := n.usedMem + x.size - overhead, usedBlocks := n.usedBlocks + 1)
  }

  function Debit(n: Counts, x: Block, overhead: int): Counts {
    if x.free then n.(freeMem := n.freeMem - (x.size - overhead), freeBlocks := n.freeBlocks - 1)
    else n.(usedMem := n.usedMem - (x.size - overhead), usedBlocks := n.usedBlocks - 1)
  }

  lemma DetachedFromTidy(s: State, b: int)
    requires Tidy(s) && b in s.blk && !s.blk[b].free
    ensures Detached(s, b)
  {
    assert b in s.tag ==> TagOf(s.blk, s.tag, 4 * s.w, s.clock, b);
    if NULL in s.blk { ReadHeader(s, NULL); }
  }

  /** Marking a detached block used makes the heap tidy. */
  lemma UsedIsTidy(s: State, b: int)
    requires Detached(s, b)
    ensures Tidy(Flagged(s, b, false))
  {
    FlagShape(s, b, false);
    var t := Flagged(s, b, false);
    forall x | x in t.blk
      ensures NotBothFree(t.blk, x)
    {
      assert x != b && End(s.blk, x) != b ==> NotBothFree(s.blk, x);
    }
    forall x | x in t.blk && t.blk[x].free && x != NULL
      ensures x in t.tag
    {
      assert x in s.tag;
    }
  }

  lemma FlagKeepsOthers(s: State, b: int, free: bool)
    requires Shape(s) && b in s.blk && b !in s.tag
    ensures OthersKept(s, Flagged(s, b, free), b)
  {
    FlagShape(s, b, free);
  }

  // ---------------------------------------------------------------------------
  // Release

  /** `allocator_free` of the block `b`. */
  function FreeState(s: State, b: int): State
    requires b in s.blk
  {
    var x := Freed(s, b);
    SettleState(PrevState(x, b), PrevBlock(x, b))
  }

  /** The block marked free and moved to the free accounts, before any merging. */
  function Freed(s: State, b: int): State
    requires b in s.blk
  {
    Flagged(s.(n := Credit(Debit(s.n, s.blk[b], 2 * s.w), Block(s.blk[b].size, true), 2 * s.w)), b, true)
  }

  predicate CanVacate(s: State, b: int)
    requires b in s.blk
  {
    0 < s.w && Addressable(s, b) && s.mem[b] == SizeWord(s.blk[b]) && !s.blk[b].free && GetSize(s.mem[b]) == s.blk[b].size
  }

  predicate CanFree(s: State, b: int)
    requires b in s.blk
  {
    && CanVacate(s, b)
    && CanMergePrev(Freed(s, b), b) && CanSettle(PrevState(Freed(s, b), b), PrevBlock(Freed(s, b), b))
  }

  lemma FreedLoose(s: State, b: int)
    requires Valid(s) && b in s.blk && !s.blk[b].free
    ensures Shape(Freed(s, b)) && Loose(Freed(s, b), b, false) && OthersKept(s, Freed(s, b), b)
    ensures forall k {:trigger Drift(Freed(s, b), k)} :: Drift(Freed(s, b), k) == 0
  {
    DetachedFromTidy(s, b);
    var x := Freed(s, b);
    var m := s.(n := x.n);
    CountsIrrelevant(s, x.n);
    FlagShape(m, b, true);
    FlagKeepsOthers(m, b, true);
    ReadHeader(s, b);
    forall k: Counter
      ensures Drift(x, k) == 0
    {
      FlagDrift(m, b, true, k);
      assert Drift(s, k) == 0;
    }
    forall c | c in x.blk && c != b && End(x.blk, c) != b
      ensures NotBothFree(x.blk, c)
    {
      assert NotBothFree(s.blk, c);
    }
  }

  lemma FreeReady(s: State, b: int)
    requires Valid(s) && b in s.blk && !s.blk[b].free
    ensures CanFree(s, b)
  {
    ReadHeader(s, b);
    assert Read(s.mem, b) == SizeWord(s.blk[b]);
    FreedLoose(s, b);
    var x := Freed(s, b);
    MergePrevReady(x, b);
    MergePrevKeeps(x, b);
    SettleKeeps(PrevState(x, b), PrevBlock(x, b));
  }

  lemma QuietKeepsOthers(s: State, t: State, b: int)
    requires Quiet(s, t)
    ensures OthersKept(s, t, b)
  {
  }

  /** Releasing a live block keeps the invariant; exactly that block stops being live. */
  lemma FreeKeeps(s: State, b: int)
    requires Valid(s) && b in s.blk && !s.blk[b].free
    ensures Valid(FreeState(s, b)) && OthersKept(s, FreeState(s, b), b)
    ensures b in FreeState(s, b).blk ==> FreeState(s, b).blk[b].free
  {
    FreedLoose(s, b);
    var x := Freed(s, b);
    MergePrevKeeps(x, b);
    var y, r := PrevState(x, b), PrevBlock(x, b);
    SettleKeeps(y, r);
    var t := FreeState(s, b);
    QuietCompose(x, y, t);
    QuietKeepsOthers(x, t, b);
    OthersKeptCompose(s, x, t, b);
    assert b in x.blk && x.blk[b].free;
  }

  // ---------------------------------------------------------------------------
  // Allocation

  /** The block taken out of its list and out of the free accounts. */
  function Taken(s: State, b: int): State
    requires b in s.blk
  {
    Removed(s, b).(n := Debit(s.n, s.blk[b], 2 * s.w))
  }

  /** `allocator_malloc` once a block `b` has been found. */
  function MallocState(s: State, b: int, size: int): State
    requires b in s.blk
  {
    var t := TrimState(Taken(s, b), b, size);
    if b in t.blk then Occupied(t, b) else t
  }

  /** The block marked used and entered in the used accounts. */
  function Occupied(s: State, b: int): State
    requires b in s.blk
  {
    Flagged(s, b, false).(n := Credit(s.n, Block(s.blk[b].size, false), 2 * s.w))
  }

  predicate CanTake(s: State, b: int) {
    CanRemove(s, b) && Read(Removed(s, b).mem, b) == s.mem[b] && s.blk[b].free
  }

  predicate CanOccupy(s: State, b: int) {
    && b in s.blk && 0 <= b < |s.mem| && s.mem[b] == SizeWord(s.blk[b]) && (IsFree(s.mem[b]) <==> s.blk[b].free)
    && GetSize(s.blk[b].size) == s.blk[b].size
  }

  predicate CanMalloc(s: State, b: int, size: int) {
    CanTake(s, b) && CanTrim(Taken(s, b), b, size) && CanOccupy(TrimState(Taken(s, b), b, size), b)
  }

  lemma TakenDetached(s: State, b: int)
    requires Valid(s) && b in s.tag
    ensures b in s.blk && s.blk[b].free && Detached(Taken(s, b), b) && OthersKept(s, Taken(s, b), b)
    ensures forall k {:trigger DriftBut(Taken(s, b), b, k)} :: DriftBut(Taken(s, b), b, k) == 0
  {
    RemoveQuiet(s, b);
    RemoveShape(s, b);
    QuietKeepsOthers(s, Removed(s, b), b);
    var t := Taken(s, b);
    forall k: Counter
      ensures DriftBut(t, b, k) == 0
    {
      assert Drift(s, k) == 0;
    }
    if NULL in s.blk { ReadHeader(s, NULL); }
    forall x | x in t.blk && x != b && End(t.blk, x) != b
      ensures NotBothFree(t.blk, x)
    {
      assert NotBothFree(s.blk, x);
    }
  }

  lemma QuietButKeepsOthers(s: State, t: State, b: int)
    requires QuietBut(s, t, b)
    ensures OthersKept(s, t, b)
  {
    forall u, a | 0 <= a < |s.mem| && InPayload(s.blk, s.w, u, a) && !s.blk[u].free && u != b
      ensures t.mem[a] == s.mem[a]
    {
      assert u in s.blk - {b};
      assert u in t.blk - {b};
      assert InPayload(t.blk, s.w, u, a);
    }
  }

  /** The trimmed (or not) block is still detached, with its share out of the accounts. */
  lemma TrimmedDetached(s: State, b: int, size: int)
    requires Detached(s, b) && 4 * s.w <= size <= s.blk[b].size && IsAligned(size)
    ensures var t := TrimState(s, b, size);
      && Detached(t, b) && OthersKept(s, t, b)
      && size <= t.blk[b].size < size + 4 * s.w
      && (forall k {:trigger DriftBut(t, b, k)} :: DriftBut(t, b, k) == DriftBut(s, b, k))
  {
    if Splits(s, b, size) {
      var t := TrimKeeps(s, b, size);
      DetachedFromTidy(t, b);
      QuietButKeepsOthers(s, t, b);
    }
  }

  lemma TakeReady(s: State, b: int)
    requires Shape(s) && b in s.tag
    ensures CanTake(s, b)
  {
    RemoveReady(s, b);
    RemoveShape(s, b);
  }

  lemma OccupyReady(s: State, b: int)
    requires Shape(s) && b in s.blk
    ensures CanOccupy(s, b)
  {
    ReadHeader(s, b);
    assert Read(s.mem, b) == SizeWord(s.blk[b]);
    SizeWordFields(Block(s.blk[b].size, false));
  }

  lemma MallocReady(s: State, b: int, size: int)
    requires Valid(s) && b in s.tag && b in s.blk && 4 * s.w <= size <= s.blk[b].size && IsAligned(size)
    ensures CanMalloc(s, b, size)
  {
    TakeReady(s, b);
    TakenDetached(s, b);
    TrimReady(Taken(s, b), b, size);
    TrimmedDetached(Taken(s, b), b, size);
    OccupyReady(TrimState(Taken(s, b), b, size), b);
  }

  lemma OccupyValid(s: State, b: int)
    requires Detached(s, b)
    requires forall k {:trigger DriftBut(s, b, k)} :: DriftBut(s, b, k) == 0
    ensures Valid(Occupied(s, b)) && OthersKept(s, Occupied(s, b), b)
  {
    UsedIsTidy(s, b);
    var t := Occupied(s, b);
    CountsIrrelevant(Flagged(s, b, false), t.n);
    ReadHeader(s, b);
    forall k: Counter
      ensures Drift(t, k) == 0
    {
      FlagDrift(s, b, false, k);
      assert DriftBut(s, b, k) == 0;
    }
    FlagKeepsOthers(s, b, false);
  }

  /** Allocating from a listed block keeps the invariant; exactly that block becomes live,
      with the requested size plus less than one minimal block. */
  lemma MallocKeeps(s: State, b: int, size: int)
    requires Valid(s) && b in s.tag && b in s.blk && 4 * s.w <= size <= s.blk[b].size && IsAligned(size)
    ensures Valid(MallocState(s, b, size)) && OthersKept(s, MallocState(s, b, size), b)
    ensures s.blk[b].free && b in MallocState(s, b, size).blk
    ensures var x := MallocState(s, b, size).blk[b]; !x.free && size <= x.size < size + 4 * s.w
  {
    TakenDetached(s, b);
    var r := Taken(s, b);
    TrimmedDetached(r, b, size);
    var t := TrimState(r, b, size);
    OccupyValid(t, b);
    OthersKeptCompose(s, r, t, b);
    OthersKeptCompose(s, t, Occupied(t, b), b);
  }

  // ---------------------------------------------------------------------------
  // Resizing in place

  /** The payload that block `b` has in both states is the same. */
  ghost predicate OwnKept(s: State, t: State, b: int) {
    forall a {:trigger InPayload(s.blk, s.w, b, a)} ::
      0 <= a < |s.mem| && |t.mem| == |s.mem| && InPayload(s.blk, s.w, b, a) && InPayload(t.blk, s.w, b, a) ==>
        t.mem[a] == s.mem[a]
  }

  /** `allocator_realloc` to a smaller size, when the rest is worth a block of its own. */
  function ShrinkState(s: State, b: int, size: int): State
    requires b in s.blk
  {
    Charged(TrimState(s, b, size), s.blk[b].size - size)
  }

  function Charged(t: State, bytes: int): State {
    t.(n := t.n.(usedMem := t.n.usedMem - bytes))
  }

  /** Charging the difference of sizes to the used accounts makes them exact again. */
  lemma ShrinkCharged(s: State, b: int, size: int, t: State)
    requires Valid(s) && b in s.blk && !s.blk[b].free
    requires Tidy(t) && QuietBut(s, t, b) && t.blk[b] == Block(size, false)
    ensures Valid(Charged(t, s.blk[b].size - size))
  {
    var u := Charged(t, s.blk[b].size - size);
    CountsIrrelevant(t, u.n);
    forall k: Counter
      ensures Drift(u, k) == 0
    {
      assert Drift(s, k) == 0;
      assert DriftBut(t, b, k) == DriftBut(s, b, k);
    }
  }

  /** Shrinking keeps the invariant, the block's remaining payload, and everybody else. */
  lemma ShrinkKeeps(s: State, b: int, size: int) returns (u: State)
    requires Valid(s) && b in s.blk && !s.blk[b].free && 4 * s.w <= size && IsAligned(size) && Splits(s, b, size)
    ensures u == ShrinkState(s, b, size) && Valid(u) && CanTrim(s, b, size)
    ensures OthersKept(s, u, b) && OwnKept(s, u, b) && u.blk[b] == Block(size, false)
  {
    DetachedFromTidy(s, b);
    TrimReady(s, b, size);
    var t := TrimKeeps(s, b, size);
    ShrinkCharged(s, b, size, t);
    QuietButKeepsOthers(s, t, b);
    u := Charged(t, s.blk[b].size - size);
  }

  /** `allocator_realloc` taking over the free block that follows. */
  function GrowState(s: State, b: int): State
    requires b in s.blk && End(s.blk, b) in s.blk
  {
    var c := End(s.blk, b);
    var t := Removed(s, c).(n := Debit(s.n, s.blk[c], 2 * s.w));
    Joined(t.(n := t.n.(usedMem := t.n.usedMem + s.blk[c].size)), b, false)
  }

  /** Joining a live block with its successor, once that is off its list (state `r`). */
  lemma GrowTidyFrom(s: State, r: State, b: int, c: int)
    requires Valid(s) && b in s.blk && !s.blk[b].free && c == End(s.blk, b) && c in s.blk && b !in s.tag
    requires Shape(r) && r.blk == s.blk && r.tag == s.tag - {c} && r.w == s.w && r.lo == s.lo && r.hi == s.hi
    requires SamePayloads(s.mem, r.mem, s.w, s.blk, s.lo, s.hi)
    ensures var t := Joined(r, b, false);
      Tidy(t) && SamePayloads(s.mem, t.mem, s.w, t.blk - {b}, s.lo, s.hi) && OwnKept(s, t, b)
  {
    JoinShape(r, b, false);
    var t := Joined(r, b, false);
    ReadHeader(s, b);
    ReadHeader(s, c);
    forall x | x in t.blk
      ensures NotBothFree(t.blk, x)
    {
      assert NotBothFree(s.blk, x);
    }
    forall u, a | 0 <= a < |s.mem| && InPayload(t.blk - {b}, s.w, u, a) && !t.blk[u].free
      ensures t.mem[a] == s.mem[a]
    {
      assert InPayload(s.blk, s.w, u, a) && InPayload(t.blk, s.w, u, a);
    }
    forall a | 0 <= a < |s.mem| && InPayload(s.blk, s.w, b, a)
      ensures t.mem[a] == s.mem[a]
    {
      assert InPayload(t.blk, s.w, b, a);
    }
  }

  lemma GrowTidy(s: State, b: int, c: int)
    requires Valid(s) && b in s.blk && !s.blk[b].free && c == End(s.blk, b) && c in s.tag && c in s.blk
    ensures Tidy(GrowState(s, b))
    ensures SamePayloads(s.mem, GrowState(s, b).mem, s.w, GrowState(s, b).blk - {b}, s.lo, s.hi)
    ensures OwnKept(s, GrowState(s, b), b)
  {
    DetachedFromTidy(s, b);
    RemoveShape(s, c);
    GrowTidyFrom(s, Removed(s, c).(n := GrowState(s, b).n), b, c);
  }

  /** Growing keeps the invariant, the block's whole payload, and everybody else. */
  lemma GrowKeeps(s: State, b: int, c: int)
    requires Valid(s) && b in s.blk && !s.blk[b].free && c == End(s.blk, b) && c in s.tag && c in s.blk
    ensures Valid(GrowState(s, b)) && OthersKept(s, GrowState(s, b), b) && OwnKept(s, GrowState(s, b), b)
    ensures GrowState(s, b).blk[b] == Block(s.blk[b].size + s.blk[c].size, false)
  {
    GrowTidy(s, b, c);
    assert TagOf(s.blk, s.tag, 4 * s.w, s.clock, c);
    ReadHeader(s, b);
    ReadHeader(s, c);
    var t := GrowState(s, b);
    forall k: Counter
      ensures Drift(t, k) == 0
    {
      assert Drift(s, k) == 0;
      MergeTally(s.blk, 2 * s.w, k, b, false, s.hi);
    }
    forall u, a | 0 <= a < |s.mem| && InPayload(s.blk, s.w, u, a) && !s.blk[u].free && u != b
      ensures t.mem[a] == s.mem[a]
    {
      assert InPayload(t.blk - {b}, s.w, u, a);
    }
  }

  /** A block that grew and then shrank kept what it had both before and after. */
  lemma OwnKeptThrough(s: State, t: State, u: State, b: int)
    requires OwnKept(s, t, b) && OwnKept(t, u, b) && t.w == s.w && |s.mem| == |t.mem| == |u.mem|
    requires b in s.blk && b in t.blk && s.blk[b].size <= t.blk[b].size
    ensures OwnKept(s, u, b)
  {
    forall a | 0 <= a < |s.mem| && InPayload(s.blk, s.w, b, a) && InPayload(u.blk, s.w, b, a)
      ensures u.mem[a] == s.mem[a]
    {
      assert InPayload(t.blk, s.w, b, a);
    }
  }

  predicate CanGrow(s: State, b: int) {
    && b in s.blk && 0 < s.w && Addressable(s, b)
    && (var c := End(s.blk, b);
        && c in s.blk && s.blk[c].free && Addressable(s, c) && CanRemove(s, c)
        && Read(Removed(s, c).mem, c) == s.mem[c] && GetSize(s.mem[c]) == s.blk[c].size
        && CanAbsorb(s, b, s.blk[b].size + s.blk[c].size, false))
  }

  lemma GrowReady(s: State, b: int, c: int)
    requires Shape(s) && b in s.blk && c == End(s.blk, b) && c in s.tag
    ensures CanGrow(s, b)
  {
    assert TagOf(s.blk, s.tag, 4 * s.w, s.clock, c);
    ReadHeader(s, b);
    ReadHeader(s, c);
    RemoveReady(s, c);
    RemoveShape(s, c);
    AbsorbReady(s, b, false);
  }

  // ---------------------------------------------------------------------------
  // Stores by the owner of a block

  function StoreState(s: State, a: int, v: int): State { s.(mem := Write(s.mem, a, v)) }

  /** A store inside a live payload keeps the invariant and changes that word only. */
  lemma StoreKeeps(s: State, b: int, a: int, v: int)
    requires Valid(s) && InPayload(s.blk, s.w, b, a) && !s.blk[b].free
    ensures 0 <= a < |s.mem| && Valid(StoreState(s, a, v)) && OthersKept(s, StoreState(s, a, v), b)
  {
    InHeap(s.blk, 4 * s.w, s.lo, s.hi, b);
    WriteKeepsHeaders(s.mem, s.w, s.blk, s.lo, s.hi, b, a, v);
    var t := StoreState(s, a, v);
    HeadersFrame(s.mem, t.mem, s.w, s.blk, s.lo);
    forall c | c in s.tag
      ensures NextFree(t.mem, s.w, c) == NextFree(s.mem, s.w, c) && PrevFree(t.mem, s.w, c) == PrevFree(s.mem, s.w, c)
    {
      assert TagOf(s.blk, s.tag, 4 * s.w, s.clock, c);
      InHeap(s.blk, 4 * s.w, s.lo, s.hi, c);
      Apart(s.blk, 4 * s.w, s.lo, s.hi, b, c);
    }
    LinksFrame(s.mem, t.mem, s.w, s.heads, s.tag);
    forall u, x | 0 <= x < |s.mem| && InPayload(s.blk, s.w, u, x) && u != b
      ensures t.mem[x] == s.mem[x]
    {
      Apart(s.blk, 4 * s.w, s.lo, s.hi, b, u);
    }
    forall k: Counter
      ensures Drift(t, k) == 0
    {
      assert Drift(s, k) == 0;
    }
  }

  /** The memory after copying `n` words from `src` to `dst`, one by one. */
  ghost function CopyMem(m: Memory, dst: int, src: int, n: nat): (r: Memory)
    requires 0 < dst && dst + n <= |m| && 0 < src && src + n <= |m|
    ensures |r| == |m|
  {
    if n == 0 then m else CopyMem(m, dst, src, n - 1)[dst + n - 1 := m[src + n - 1]]
  }

  /** Each target word holds its source word; all others are as before. */
  lemma {:induction false} CopyMemAt(m: Memory, dst: int, src: int, n: nat, a: int)
    requires 0 < dst && dst + n <= |m| && 0 < src && src + n <= |m| && 0 <= a < |m|
    ensures CopyMem(m, dst, src, n)[a] == if dst <= a < dst + n then m[src + (a - dst)] else m[a]
  {
    if n > 0 { CopyMemAt(m, dst, src, n - 1, a); }
  }

  lemma CopyMemRange(m: Memory, dst: int, src: int, n: nat)
    requires 0 < dst && dst + n <= |m| && 0 < src && src + n <= |m|
    ensures CopyMem(m, dst, src, n)[dst..dst + n] == m[src..src + n]
  {
    var x, y := CopyMem(m, dst, src, n)[dst..dst + n], m[src..src + n];
    forall i {:trigger x[i]} | 0 <= i < n
      ensures x[i] == y[i]
    {
      CopyMemAt(m, dst, src, n, dst + i);
    }
  }

  /** Two live blocks occupy disjoint ranges of memory. */
  lemma CopyRange(s: State, dst: int, src: int)
    requires Shape(s) && dst - 2 * s.w in s.blk && src - 2 * s.w in s.blk && dst != src
    ensures var b, c := dst - 2 * s.w, src - 2 * s.w;
      && 0 < dst && 0 < src && End(s.blk, b) <= |s.mem| && End(s.blk, c) <= |s.mem|
      && (End(s.blk, b) <= src || End(s.blk, c) <= dst)
  {
    ReadHeader(s, dst - 2 * s.w);
    ReadHeader(s, src - 2 * s.w);
    Apart(s.blk, 4 * s.w, s.lo, s.hi, dst - 2 * s.w, src - 2 * s.w);
  }

  /** Copying into a live block, word by word, keeps the invariant and everybody else. */
  lemma {:induction false} CopyKeeps(s: State, dst: int, src: int, n: nat)
    requires Valid(s) && dst - 2 * s.w in s.blk && !s.blk[dst - 2 * s.w].free && src - 2 * s.w in s.blk && dst != src
    requires n <= s.blk[dst - 2 * s.w].size - 2 * s.w && n <= s.blk[src - 2 * s.w].size - 2 * s.w
    ensures 0 < dst && dst + n <= |s.mem| && 0 < src && src + n <= |s.mem|
    ensures var t := s.(mem := CopyMem(s.mem, dst, src, n)); Valid(t) && OthersKept(s, t, dst - 2 * s.w)
    decreases n
  {
    CopyRange(s, dst, src);
    if n > 0 {
      CopyKeeps(s, dst, src, n - 1);
      var t := s.(mem := CopyMem(s.mem, dst, src, n - 1));
      StoreKeeps(t, dst - 2 * s.w, dst + n - 1, s.mem[src + n - 1]);
      OthersKeptCompose(s, t, StoreState(t, dst + n - 1, s.mem[src + n - 1]), dst - 2 * s.w);
    }
  }

  // ---------------------------------------------------------------------------
  // What the invariant says about the heap as a whole

  /** Live payloads are inside the heap and pairwise disjoint. */
  lemma PayloadsDisjoint(s: State, u: int, v: int, a: int)
    requires Shape(s) && InPayload(s.blk, s.w, u, a)
    ensures s.lo <= a < s.hi
    ensures u != v ==> !InPayload(s.blk, s.w, v, a)
  {
    InHeap(s.blk, 4 * s.w, s.lo, s.hi, u);
    if u != v && InPayload(s.blk, s.w, v, a) { Apart(s.blk, 4 * s.w, s.lo, s.hi, u, v); InHeap(s.blk, 4 * s.w, s.lo, s.hi, v); }
  }

  /** All bytes of the header words of a block, and of the link words of a free one, lie inside
      the block and outside every live payload. */
  lemma HeaderBytesApart(s: State, b: int, c: int, a: int)
    requires Valid(s) && b in s.blk && c in s.blk && !s.blk[c].free
    requires b <= a < b + if s.blk[b].free then 4 * s.w else 2 * s.w
    ensures s.lo <= a < End(s.blk, b) <= s.hi && !InPayload(s.blk, s.w, c, a)
  {
    InHeap(s.blk, 4 * s.w, s.lo, s.hi, b);
    InHeap(s.blk, 4 * s.w, s.lo, s.hi, c);
    if b != c { Apart(s.blk, 4 * s.w, s.lo, s.hi, b, c); }
  }

  /** Free memory, used memory and one header per block always add up to the capacity. */
  lemma CapacityConserved(s: State)
    requires Valid(s)
    ensures s.n.freeMem + s.n.usedMem + 2 * s.w * (s.n.freeBlocks + s.n.usedBlocks) == s.hi - s.lo
  {
    forall k: Counter
      ensures Count(s.n, k) == Tally(s.blk, 2 * s.w, k, s.hi)
    {
      assert Drift(s, k) == 0;
    }
    BytesConserved(s.blk, 4 * s.w, s.lo, s.hi, 2 * s.w, s.hi);
    assert Count(s.n, FreeMem) == s.n.freeMem && Count(s.n, UsedMem) == s.n.usedMem;
    assert Count(s.n, FreeBlocks) == s.n.freeBlocks && Count(s.n, UsedBlocks) == s.n.usedBlocks;
  }

  /** With nothing live the heap is one free block spanning it all. */
  lemma AllFreed(s: State)
    requires Valid(s) && forall b :: b in s.blk ==> s.blk[b].free
    ensures s.blk.Keys == {s.lo} && s.blk[s.lo] == Block(s.hi - s.lo, true)
    ensures s.n == Counts(s.hi - s.lo - 2 * s.w, 0, 1, 0)
  {
    ReadHeader(s, s.lo);
    assert NotBothFree(s.blk, s.lo);
    assert End(s.blk, s.lo) == s.hi;
    forall b | b in s.blk
      ensures b == s.lo
    {
      if b != s.lo { ReadHeader(s, b); Apart(s.blk, 4 * s.w, s.lo, s.hi, s.lo, b); }
    }
    forall k: Counter
      ensures Count(s.n, k) == Weight(s.blk[s.lo], 2 * s.w, k)
    {
      assert Drift(s, k) == 0;
      TallyStart(s.blk, 4 * s.w, s.lo, s.hi, 2 * s.w, k);
      TallyStep(s.blk, 4 * s.w, s.lo, s.hi, 2 * s.w, k, s.lo);
    }
    assert Count(s.n, FreeMem) == s.n.freeMem && Count(s.n, UsedMem) == s.n.usedMem;
    assert Count(s.n, FreeBlocks) == s.n.freeBlocks && Count(s.n, UsedBlocks) == s.n.usedBlocks;
  }

  /** Apart from blocks `b` and `c`, nothing live changed. */
  ghost predicate KeptBut(s: State, t: State, b: int, c: int) {
    && t.w == s.w && t.lo == s.lo && t.hi == s.hi && |t.mem| == |s.mem|
    && SameLive(s.blk - {b, c}, t.blk - {b, c})
    && (forall u, a {:trigger InPayload(s.blk, s.w, u, a)} ::
          0 <= a < |s.mem| && InPayload(s.blk, s.w, u, a) && !s.blk[u].free && u != b && u != c ==> t.mem[a] == s.mem[a])
  }

  lemma KeptButCompose(s: State, t: State, u: State, b: int, c: int)
    requires OthersKept(s, t, c) && OthersKept(t, u, b)
    ensures KeptBut(s, u, b, c)
  {
    forall v, a | 0 <= a < |s.mem| && InPayload(s.blk, s.w, v, a) && !s.blk[v].free && v != b && v != c
      ensures u.mem[a] == s.mem[a]
    {
      assert v in s.blk - {c};
      assert InPayload(t.blk, s.w, v, a);
    }
    forall v | (v in s.blk - {b, c} && !s.blk[v].free) || (v in u.blk - {b, c} && !u.blk[v].free)
      ensures v in s.blk - {b, c} && v in u.blk - {b, c} && s.blk[v] == u.blk[v]
    {
      assert v in s.blk - {c} || v in u.blk - {b};
      assert v in t.blk - {c} && v in t.blk - {b};
    }
  }

  // ---------------------------------------------------------------------------
  // Initialisation

  /** What `allocator_init` has written before the first insertion. */
  ghost predicate Initial(s: State) {
    && Geometry(s) && IsAligned(s.lo) && IsAligned(s.hi - s.lo) && 4 * s.w <= s.hi - s.lo
    && s.mem[s.lo] == s.hi - s.lo + 1 && s.mem[s.lo + s.w] == NULL
    && s.blk == map[s.lo := Block(s.hi - s.lo, true)] && s.tag == map[] && s.heads == map[]
    && s.n == Counts(s.hi - s.lo - 2 * s.w, 0, 1, 0)
    && |s.fl| == 32 && |s.sl| == FL_INDEX_MAX
    && (forall i :: 0 <= i < 32 ==> !s.fl[i])
    && (forall f {:trigger s.sl[f]} :: 0 <= f < FL_INDEX_MAX ==> |s.sl[f]| == 32 && forall i :: 0 <= i < 32 ==> !s.sl[f][i])
  }

  lemma InitLoose(s: State)
    requires Initial(s)
    ensures Shape(s) && Loose(s, s.lo, true) && Coalesced(s.blk)
    ensures forall k {:trigger Drift(s, k)} :: Drift(s, k) == 0
  {
    var b := s.lo;
    assert Tile(s.blk, 4 * s.w, s.lo, s.hi, b);
    assert Tiling(s.blk, 4 * s.w, s.lo, s.hi);
    assert PhysLink(s.mem, s.w, s.blk, s.lo, b);
    assert Linked(s.mem, s.w, s.heads, s.tag);
    assert Indexed(s.heads, s.fl, s.sl);
    forall k: Counter
      ensures Drift(s, k) == 0
    {
      TallyStart(s.blk, 4 * s.w, s.lo, s.hi, 2 * s.w, k);
      TallyStep(s.blk, 4 * s.w, s.lo, s.hi, 2 * s.w, k, b);
    }
  }

  /** Allocate (s to t), copy (t to u), release (u to v). */
  lemma MoveKeeps(s: State, t: State, u: State, v: State, b: int, c: int, n: nat)
    requires b in s.blk && !s.blk[b].free && n == s.blk[b].size - 2 * s.w
    requires OthersKept(s, t, c) && OthersKept(t, u, c) && OthersKept(u, v, b) && u.blk == t.blk
    requires b != c && c in t.blk && !t.blk[c].free && n <= t.blk[c].size - 2 * s.w
    requires 0 < c && 0 < b && b + 2 * s.w + n <= |s.mem| && c + 2 * s.w + n <= |s.mem|
    requires u.mem[c + 2 * s.w..c + 2 * s.w + n] == t.mem[b + 2 * s.w..b + 2 * s.w + n]
    ensures KeptBut(s, v, b, c) && c in v.blk && v.blk[c] == t.blk[c]
    ensures |v.mem| == |s.mem| && v.mem[c + 2 * s.w..c + 2 * s.w + n] == s.mem[b + 2 * s.w..b + 2 * s.w + n]
  {
    OthersKeptCompose(s, t, u, c);
    KeptButCompose(s, u, v, b, c);
    assert c in u.blk - {b};
    assert c in v.blk - {b};
    var p, q := c + 2 * s.w, b + 2 * s.w;
    var x, y := v.mem[p..p + n], s.mem[q..q + n];
    forall i {:trigger x[i]} | 0 <= i < n
      ensures x[i] == y[i]
    {
      MovedCell(s, t, u, v, b, c, n, i);
    }
  }

  lemma MovedCell(s: State, t: State, u: State, v: State, b: int, c: int, n: nat, i: nat)
    requires b in s.blk && !s.blk[b].free && n == s.blk[b].size - 2 * s.w
    requires OthersKept(s, t, c) && OthersKept(u, v, b) && |u.mem| == |t.mem| && u.w == t.w
    requires b != c && c in u.blk && !u.blk[c].free && n <= u.blk[c].size - 2 * s.w
    requires 0 < c && 0 < b && b + 2 * s.w + n <= |s.mem| && c + 2 * s.w + n <= |s.mem| && i < n
    requires u.mem[c + 2 * s.w..c + 2 * s.w + n] == t.mem[b + 2 * s.w..b + 2 * s.w + n]
    ensures v.mem[c + 2 * s.w + i] == s.mem[b + 2 * s.w + i]
  {
    var p, q := c + 2 * s.w, b + 2 * s.w;
    assert InPayload(s.blk, s.w, b, q + i);
    assert InPayload(u.blk, u.w, c, p + i);
    assert u.mem[p..p + n][i] == t.mem[q..q + n][i];
  }
}
