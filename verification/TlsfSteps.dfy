/** The allocator's operations as functions on its state, and the invariant they keep. */
module TlsfSteps {
  import opened Common
  import opened TlsfMapping
  import opened TlsfLists
  import opened TlsfBitmaps
  import opened TlsfBlocks
  import opened TlsfState

  /** Adding an aligned size to a header word adds to the size and keeps the flag. */
  lemma GrownWord(x: Block, more: int)
    requires IsAligned(x.size) && IsAligned(more)
    ensures GetSize(SizeWord(x) + more) == x.size + more && (IsFree(SizeWord(x) + more) <==> x.free)
  {
    LowBitsSum(x.size, more, 8);
    SizeWordFields(Block(x.size + more, x.free));
  }

  /** The writes that let `b` take over its successor are in range, and `word` is the header
      the merged block should have. */
  predicate CanAbsorb(s: State, b: int, word: int, free: bool) {
    && 0 < s.w && b in s.blk && Addressable(s, b) && End(s.blk, b) in s.blk
    && (var x := Merged(s.blk, b, free)[b];
        && word == SizeWord(x) && GetSize(word) == x.size
        && (b + x.size < s.hi ==> 0 <= b + x.size && b + x.size + s.w < |s.mem|))
  }

  lemma AbsorbReady(s: State, b: int, free: bool)
    requires Shape(s) && b in s.blk && End(s.blk, b) in s.blk
    ensures CanAbsorb(s, b, SizeWord(Merged(s.blk, b, free)[b]), free)
  {
    ReadHeader(s, b);
    var c := End(s.blk, b);
    ReadHeader(s, c);
    LowBitsSum(s.blk[b].size, s.blk[c].size, 8);
    SizeWordFields(Merged(s.blk, b, free)[b]);
    if End(s.blk, c) < s.hi { ReadHeader(s, End(s.blk, c)); }
  }

  /** `block_merge_prev` merges exactly when the predecessor exists and is free. */
  predicate MergesPrev(s: State, b: int) {
    var p := PrevPhys(s.mem, s.w, b);
    p != NULL && IsFree(Read(s.mem, p)) && p in s.blk && End(s.blk, p) in s.blk
  }

  function PrevState(s: State, b: int): State {
    if MergesPrev(s, b) then Joined(Reclaimed(Removed(s, PrevPhys(s.mem, s.w, b))), PrevPhys(s.mem, s.w, b), true) else s
  }

  function PrevBlock(s: State, b: int): int {
    if MergesPrev(s, b) then PrevPhys(s.mem, s.w, b) else b
  }

  /** All reads and writes of `block_merge_prev` are in range and see the right headers. */
  predicate CanMergePrev(s: State, b: int) {
    && 0 < s.w && b in s.blk && Addressable(s, b) && GetSize(s.mem[b]) == s.blk[b].size
    && (var p := s.mem[b + s.w];
        p != NULL ==>
          && Addressable(s, p)
          && (IsFree(s.mem[p]) ==>
            && p in s.blk && End(s.blk, p) == b && CanRemove(s, p)
            && CanAbsorb(s, p, s.mem[p] + s.blk[b].size, true)
            && Read(Removed(s, p).mem, p) == s.mem[p] && Read(Removed(s, p).mem, b) == s.mem[b]))
  }

  lemma MergePrevReady(s: State, b: int)
    requires Shape(s) && Loose(s, b, false)
    ensures CanMergePrev(s, b)
  {
    ReadHeader(s, b);
    ReadPrev(s, b);
    var p := s.mem[b + s.w];
    if p != NULL {
      ReadHeader(s, p);
      if s.blk[p].free {
        assert p in s.tag;
        assert Read(s.mem, p) == SizeWord(s.blk[p]);
        AbsorbReady(s, p, true);
        RemoveReady(s, p);
        RemoveShape(s, p);
      }
    }
  }

  /** What the predecessor pointer leads to, and that a merge happens exactly when that is free. */
  lemma PrevDecides(s: State, b: int) returns (p: int)
    requires Shape(s) && b in s.blk
    ensures p == PrevPhys(s.mem, s.w, b) == Read(s.mem, b + s.w)
    ensures p != NULL ==> p in s.blk && p != b && End(s.blk, p) == b
    ensures MergesPrev(s, b) <==> p != NULL && s.blk[p].free
  {
    ReadHeader(s, b);
    ReadPrev(s, b);
    p := s.mem[b + s.w];
    if p != NULL { ReadHeader(s, p); }
  }

  /** Whether or not it merges, the result is loose with nothing free before it. */
  lemma MergePrevKeeps(s: State, b: int)
    requires Shape(s) && Loose(s, b, false)
    ensures Shape(PrevState(s, b)) && Quiet(s, PrevState(s, b)) && Loose(PrevState(s, b), PrevBlock(s, b), true)
  {
    var p := PrevDecides(s, b);
    if MergesPrev(s, b) {
      assert p in s.tag;
      MergePrevQuiet(s, b, p);
    } else {
      NoMergePrev(s, b);
    }
  }

  /** `block_merge_next` merges exactly when the successor exists and is free. */
  predicate MergesNext(s: State, b: int) {
    b in s.blk && End(s.blk, b) < s.hi && IsFree(Read(s.mem, End(s.blk, b))) && End(s.blk, b) in s.blk
  }

  function NextState(s: State, b: int): State {
    if MergesNext(s, b) then Joined(Reclaimed(Removed(s, End(s.blk, b))), b, true) else s
  }

  /** All reads and writes of `block_merge_next` are in range and see the right headers. */
  predicate CanMergeNext(s: State, b: int) {
    && 0 < s.w && b in s.blk && Addressable(s, b) && GetSize(s.mem[b]) == s.blk[b].size
    && (var c := End(s.blk, b);
        c < s.hi ==>
          && Addressable(s, c) && c in s.blk
          && (IsFree(s.mem[c]) ==>
            && CanRemove(s, c) && GetSize(s.mem[c]) == s.blk[c].size
            && CanAbsorb(s, b, s.mem[b] + s.blk[c].size, true)
            && Read(Removed(s, c).mem, c) == s.mem[c] && Read(Removed(s, c).mem, b) == s.mem[b]))
  }

  lemma MergeNextReady(s: State, b: int)
    requires Shape(s) && Loose(s, b, true)
    ensures CanMergeNext(s, b)
  {
    ReadHeader(s, b);
    assert Read(s.mem, b) == SizeWord(s.blk[b]);
    var c := End(s.blk, b);
    if c < s.hi {
      ReadHeader(s, c);
      if s.blk[c].free {
        assert c in s.tag;
        AbsorbReady(s, b, true);
        RemoveReady(s, c);
        RemoveShape(s, c);
      }
    }
  }

  /** Afterwards no two free blocks touch, and `b` is still loose. */
  lemma MergeNextKeeps(s: State, b: int)
    requires Shape(s) && Loose(s, b, true)
    ensures Shape(NextState(s, b)) && Quiet(s, NextState(s, b)) && Loose(NextState(s, b), b, true)
    ensures Coalesced(NextState(s, b).blk)
  {
    ReadHeader(s, b);
    var c := End(s.blk, b);
    if c in s.blk { ReadHeader(s, c); }
    if c in s.blk && s.blk[c].free {
      assert c in s.tag;
      assert NextState(s, b) == Joined(Reclaimed(Removed(s, c)), b, true);
      MergeNextQuiet(s, b, c);
    } else {
      NoMergeNext(s, b);
    }
  }

  /** Listing a loose block in an otherwise tidy heap completes it. */
  lemma InsertCompletes(s: State, b: int)
    requires Shape(s) && Loose(s, b, true) && Coalesced(s.blk)
    ensures Shape(Inserted(s, b)) && Quiet(s, Inserted(s, b))
    ensures Complete(Inserted(s, b).blk, Inserted(s, b).tag, NULL) && Coalesced(Inserted(s, b).blk)
  {
    InsertQuiet(s, b);
  }

  /** The steps that list a loose block whose predecessor is not free. */
  function SettleState(s: State, b: int): State { Inserted(NextState(s, b), b) }

  predicate CanSettle(s: State, b: int) { CanMergeNext(s, b) && CanInsert(NextState(s, b), b) }

  lemma SettleKeeps(s: State, b: int)
    requires Shape(s) && Loose(s, b, true)
    ensures CanSettle(s, b)
    ensures var t := SettleState(s, b);
      Quiet(s, t) && Tidy(t)
  {
    MergeNextReady(s, b);
    MergeNextKeeps(s, b);
    var n := NextState(s, b);
    InsertReady(n, b);
    InsertCompletes(n, b);
    QuietCompose(s, n, SettleState(s, b));
  }

  // ---------------------------------------------------------------------------
  // block_locate_free

  /** The first non-empty bucket at or after `k`, as the bitmaps give it. */
  function LocateBucket(fl: Word, sl: seq<Word>, k: Bucket): (r: Option<Bucket>)
    requires InTable(k) && |fl| == 32 && |sl| == FL_INDEX_MAX
    requires forall f :: 0 <= f < FL_INDEX_MAX ==> (fl[f] <==> !IsZero(sl[f]))
    requires !fl[30] && !fl[31]
  {
    var row := MaskFrom(sl[k.fl], k.sl);
    if !IsZero(row) then Some(Bucket(k.fl, Lsb(row)))
    else
      var rows := MaskFrom(fl, k.fl + 1);
      if IsZero(rows) then None
      else
        var f := Lsb(rows);
        assert rows[f] == fl[f];
        Some(Bucket(f, Lsb(sl[f])))
  }

  /** The bitmap search finds the first non-empty list at or after the search bucket. */
  lemma LocateFirst(s: State, k: Bucket)
    requires Shape(s) && InTable(k)
    ensures var r := LocateBucket(s.fl, s.sl, k);
      && (r.Some? ==> InTable(r.value) && !Before(r.value, k) && Head(s.heads, r.value) != NULL)
      && (r.Some? ==> forall j :: InTable(j) && !Before(j, k) && Before(j, r.value) ==> Head(s.heads, j) == NULL)
      && (r.None? ==> forall j :: InTable(j) && !Before(j, k) ==> Head(s.heads, j) == NULL)
  {
    var row := MaskFrom(s.sl[k.fl], k.sl);
    var rows := MaskFrom(s.fl, k.fl + 1);
    var r := LocateBucket(s.fl, s.sl, k);
    if r.Some? {
      assert |s.sl[r.value.fl]| == 32;
      if IsZero(row) {
        assert rows[r.value.fl];
      }
      assert Head(s.heads, r.value) == Head(s.heads, r.value);
    }
    forall j | InTable(j) && !Before(j, k) && (r.None? || Before(j, r.value))
      ensures Head(s.heads, j) == NULL
    {
      assert s.sl[j.fl][j.sl] <==> Head(s.heads, j) != NULL;
      if j.fl == k.fl {
        assert row[j.sl] == s.sl[j.fl][j.sl];
      } else {
        assert rows[j.fl] == s.fl[j.fl];
        assert s.fl[j.fl] <==> !IsZero(s.sl[j.fl]);
      }
    }
  }

  /** A block found by the search is listed, free and large enough. */
  lemma LocateFits(s: State, size: nat, r: Bucket)
    requires Shape(s) && 4 * s.w <= size <= MAX_SEARCHABLE && IsAligned(size)
    requires InTable(r) && !Before(r, Search(4 * s.w, size)) && Head(s.heads, r) != NULL
    ensures var b := Head(s.heads, r); 0 < b && b in s.tag && b in s.blk && s.blk[b].free && s.blk[b].size >= size
  {
    var b := Head(s.heads, r);
    assert HeadLink(s.mem, s.w, s.heads, s.tag, r);
    assert TagOf(s.blk, s.tag, 4 * s.w, s.clock, b);
    ReadHeader(s, b);
    AlignedIsMultiple(s.blk[b].size);
    AlignedIsMultiple(size);
    SearchSound(4 * s.w, s.blk[b].size, size);
  }

  /** The head of a list is the block that was put in last. */
  lemma HeadIsNewest(s: State, b: int, c: int)
    requires Shape(s) && b in s.tag && c in s.tag && b != c
    requires s.tag[c].bucket == s.tag[b].bucket && Head(s.heads, s.tag[b].bucket) == b
    ensures s.tag[c].stamp < s.tag[b].stamp
  {
    forall x | x in s.tag
      ensures s.tag[x].stamp < s.clock
    {
      assert TagOf(s.blk, s.tag, 4 * s.w, s.clock, x);
    }
    var k := s.tag[b].bucket;
    assert InTable(k);
    ListIsBucket(s.mem, s.w, s.heads, s.tag, s.clock, k);
    var list := Chain(s.mem, s.w, s.heads, s.tag, b);
    assert list[0] == b;
    var i :| 0 <= i < |list| && list[i] == c;
    assert Falling(s.tag, k, list);
  }

  /** `b` is at least as good a choice as `f` for a block of `size` bytes: `f` is hardly bigger
      than that or smaller, and was not looked at; or it is in a later list; or it is in the
      same list and has been there for longer. */
  ghost predicate Preferred(s: State, size: nat, b: int, f: int)
    requires b in s.blk && 0 < s.w
  {
    f in s.blk && s.blk[f].free ==>
      || (Before(BucketOf(s, f), Search(4 * s.w, size)) && 32 * s.blk[f].size < 33 * size)
      || (Before(BucketOf(s, b), BucketOf(s, f)) && 32 * s.blk[b].size < 33 * s.blk[f].size)
      || (BucketOf(s, b) == BucketOf(s, f) && 32 * s.blk[b].size < 33 * s.blk[f].size
          && (f != b ==> f in s.tag && b in s.tag && s.tag[f].stamp < s.tag[b].stamp))
  }

  /** Good fit: a free block that is big enough and at least as good a choice as any other. */
  ghost predicate GoodFit(s: State, size: nat, b: int) {
    && 0 < s.w && b in s.blk && s.blk[b].free && s.blk[b].size >= size
    && forall f {:trigger Preferred(s, size, b, f)} :: Preferred(s, size, b, f)
  }

  lemma LocateGoodFit(s: State, size: nat, b: int)
    requires Valid(s) && 4 * s.w <= size <= MAX_SEARCHABLE && IsAligned(size)
    requires b in s.tag && Head(s.heads, s.tag[b].bucket) == b && !Before(s.tag[b].bucket, Search(4 * s.w, size))
    requires forall j :: InTable(j) && !Before(j, Search(4 * s.w, size)) && Before(j, s.tag[b].bucket) ==> Head(s.heads, j) == NULL
    ensures GoodFit(s, size, b)
  {
    HeadOfBucket(s, b);
    LocateFits(s, size, s.tag[b].bucket);
    forall f
      ensures Preferred(s, size, b, f)
    {
      if f in s.blk && s.blk[f].free { LocatePrefers(s, size, b, f); }
    }
  }

  lemma LocatePrefers(s: State, size: nat, b: int, f: int)
    requires Valid(s) && 4 * s.w <= size <= MAX_SEARCHABLE && IsAligned(size)
    requires b in s.tag && Head(s.heads, s.tag[b].bucket) == b && !Before(s.tag[b].bucket, Search(4 * s.w, size))
    requires forall j :: InTable(j) && !Before(j, Search(4 * s.w, size)) && Before(j, s.tag[b].bucket) ==> Head(s.heads, j) == NULL
    requires b in s.blk && f in s.blk && s.blk[f].free
    ensures Preferred(s, size, b, f)
  {
    ReadHeader(s, f);
    ReadHeader(s, b);
    assert f in s.tag;
    HeadOfBucket(s, f);
    HeadOfBucket(s, b);
    if Before(BucketOf(s, f), Search(4 * s.w, size)) {
      SearchComplete(4 * s.w, s.blk[f].size, size);
    } else {
      AlignedIsMultiple(s.blk[b].size);
      AlignedIsMultiple(s.blk[f].size);
      SameOrEarlier(4 * s.w, s.blk[b].size, s.blk[f].size);
      if BucketOf(s, f) == BucketOf(s, b) && f != b { HeadIsNewest(s, b, f); }
    }
  }

  /** When the search finds nothing, every free block is smaller than 33/32 of the request. */
  lemma LocateComplete(s: State, size: nat, f: int)
    requires Valid(s) && 4 * s.w <= size <= MAX_SEARCHABLE
    requires forall j :: InTable(j) && !Before(j, Search(4 * s.w, size)) ==> Head(s.heads, j) == NULL
    requires f in s.blk && s.blk[f].free
    ensures 32 * s.blk[f].size < 33 * size
  {
    ReadHeader(s, f);
    assert f in s.tag;
    HeadOfBucket(s, f);
    SearchComplete(4 * s.w, s.blk[f].size, size);
  }

  // ---------------------------------------------------------------------------
  // block_trim

  predicate Splits(s: State, b: int, size: int) {
    b in s.blk && s.blk[b].size - size >= 4 * s.w
  }

  function TrimState(s: State, b: int, size: int): State {
    if Splits(s, b, size) then Released(SettleState(Cut(s, b, size), b + size), s.blk[b].size - size) else s
  }

  predicate CanSplit(s: State, b: int, size: int) {
    && 0 < s.w && b in s.blk && Addressable(s, b) && 0 < size && Splits(s, b, size)
    && GetSize(s.blk[b].size - size + 1) == s.blk[b].size - size && End(s.blk, b) <= |s.mem|
    && (End(s.blk, b) < s.hi ==> End(s.blk, b) + s.w < |s.mem|)
  }

  predicate CanTrim(s: State, b: int, size: int) {
    && 0 < s.w && b in s.blk && Addressable(s, b) && GetSize(s.mem[b]) == s.blk[b].size
    && (Splits(s, b, size) ==> CanSplit(s, b, size) && CanSettle(Cut(s, b, size), b + size))
  }

  /** A block that is in no list, with everything else in order. */
  ghost predicate Detached(s: State, b: int) {
    Shape(s) && b in s.blk && b !in s.tag && Complete(s.blk, s.tag, b) && CoalescedExcept(s.blk, b, false)
  }

  lemma SplitReady(s: State, b: int, size: int)
    requires Detached(s, b) && 4 * s.w <= size && IsAligned(size) && Splits(s, b, size)
    ensures CanSplit(s, b, size)
  {
    ReadHeader(s, b);
    LowBitsSum(size, s.blk[b].size - size, 8);
    GrownWord(Block(0, true), s.blk[b].size - size);
    if End(s.blk, b) < s.hi { ReadHeader(s, End(s.blk, b)); }
  }

  lemma TrimReady(s: State, b: int, size: int)
    requires Detached(s, b) && 4 * s.w <= size && IsAligned(size)
    ensures CanTrim(s, b, size)
  {
    ReadHeader(s, b);
    if Splits(s, b, size) {
      SplitReady(s, b, size);
      CutLoose(s, b, size);
      SettleKeeps(Cut(s, b, size), b + size);
    }
  }

  /** The invariant's structural part: all of it but the counters. */
  ghost predicate Tidy(s: State) {
    Shape(s) && Complete(s.blk, s.tag, NULL) && Coalesced(s.blk)
  }

  lemma CountsIrrelevant(s: State, n: Counts)
    requires Tidy(s)
    ensures Tidy(s.(n := n))
  {
  }

  /** When it splits, the rest is free and listed, the block has exactly the requested size,
      and nothing else is disturbed. */
  lemma TrimKeeps(s: State, b: int, size: int) returns (t: State)
    requires Detached(s, b) && 4 * s.w <= size && IsAligned(size) && Splits(s, b, size)
    ensures t == TrimState(s, b, size) && Tidy(t) && QuietBut(s, t, b) && t.blk[b] == Block(size, false)
  {
    CutLoose(s, b, size);
    SettleKeeps(Cut(s, b, size), b + size);
    var u := SettleState(Cut(s, b, size), b + size);
    TrimQuietBut(s, b, size, u);
    t := Released(u, s.blk[b].size - size);
    CountsIrrelevant(u, t.n);
  }
}
