/** The segregated free lists of the allocator: doubly linked through the words of the
    free blocks themselves, one list per bucket, indexed by two levels of bitmaps. */
module TlsfLists {
  import opened TlsfMapping

  /** Word-addressed memory: `mem[a]` is the machine word stored at byte address `a`.
      Address 0 is the null pointer. */
  type Memory = seq<int>

  const NULL := 0

  /** The heads of the free lists, `control.blocks[fl][sl]`, as a table over buckets; a
      bucket that is absent has the null head that `allocator_init` stores. */
  type Heads = map<Bucket, int>

  /** What a free block's list membership amounts to: its bucket, and a stamp that orders
      each list (later insertions have larger stamps and come first). */
  datatype Tag = Tag(bucket: Bucket, stamp: nat)

  function Read(mem: Memory, a: int): int {
    if 0 <= a < |mem| then mem[a] else 0
  }

  function Write(mem: Memory, a: int, v: int): (m: Memory)
    ensures |m| == |mem|
  {
    if 0 <= a < |mem| then mem[a := v] else mem
  }

  function Head(heads: Heads, k: Bucket): int {
    if k in heads then heads[k] else NULL
  }

  /** The two free-list words of a block with machine words of `w` bytes. */
  function NextFree(mem: Memory, w: int, b: int): int { Read(mem, b + 2 * w) }

  function PrevFree(mem: Memory, w: int, b: int): int { Read(mem, b + 3 * w) }

  /** Block addresses are non-null and far enough apart that no two headers overlap. */
  ghost predicate Spaced(blocks: set<int>, w: int, limit: int) {
    && (forall x :: x in blocks ==> 0 < x && x + 4 * w <= limit)
    && (forall x, y :: x in blocks && y in blocks && x < y ==> x + 4 * w <= y)
  }

  ghost predicate ForwardLink(mem: Memory, w: int, tag: map<int, Tag>, b: int)
    requires b in tag
  {
    var n := NextFree(mem, w, b);
    n != NULL ==> n in tag && tag[n].bucket == tag[b].bucket && tag[n].stamp < tag[b].stamp && PrevFree(mem, w, n) == b
  }

  ghost predicate BackwardLink(mem: Memory, w: int, heads: Heads, tag: map<int, Tag>, b: int)
    requires b in tag
  {
    var p := PrevFree(mem, w, b);
    if p == NULL then Head(heads, tag[b].bucket) == b else p in tag && NextFree(mem, w, p) == b
  }

  ghost predicate HeadLink(mem: Memory, w: int, heads: Heads, tag: map<int, Tag>, k: Bucket) {
    var h := Head(heads, k);
    h != NULL ==> h in tag && tag[h].bucket == k && PrevFree(mem, w, h) == NULL
  }

  /** Every tagged block is linked into the list of its bucket and nothing else is. */
  ghost predicate Linked(mem: Memory, w: int, heads: Heads, tag: map<int, Tag>) {
    && NULL !in tag
    && (forall b :: b in tag ==> InTable(tag[b].bucket))
    && (forall b {:trigger ForwardLink(mem, w, tag, b)} :: b in tag ==> ForwardLink(mem, w, tag, b))
    && (forall b {:trigger BackwardLink(mem, w, heads, tag, b)} :: b in tag ==> BackwardLink(mem, w, heads, tag, b))
    && (forall k {:trigger HeadLink(mem, w, heads, tag, k)} :: InTable(k) ==> HeadLink(mem, w, heads, tag, k))
  }

  /** Memory after `block_insert` of `b` at the front of list `k`. */
  function InsertMem(mem: Memory, w: int, heads: Heads, k: Bucket, b: int): (m: Memory) {
    var h := Head(heads, k);
    var m := Write(Write(mem, b + 2 * w, h), b + 3 * w, NULL);
    if h != NULL then Write(m, h + 3 * w, b) else m
  }

  lemma InsertKeepsLinks(mem: Memory, w: int, heads: Heads, tag: map<int, Tag>, k: Bucket, b: int, stamp: nat)
    requires 0 < w && InTable(k) && b !in tag
    requires Spaced(tag.Keys + {b}, w, |mem|) && Linked(mem, w, heads, tag)
    requires forall c :: c in tag ==> tag[c].stamp < stamp
    ensures Linked(InsertMem(mem, w, heads, k, b), w, heads[k := b], tag[b := Tag(k, stamp)])
  {
    assert b in tag.Keys + {b};
    assert HeadLink(mem, w, heads, tag, k);
    var h := Head(heads, k);
    assert h != NULL ==> h in tag.Keys + {b};
    var m, hs, t := InsertMem(mem, w, heads, k, b), heads[k := b], tag[b := Tag(k, stamp)];
    assert NextFree(m, w, b) == h && PrevFree(m, w, b) == NULL;
    forall c | c in tag
      ensures NextFree(m, w, c) == NextFree(mem, w, c)
      ensures PrevFree(m, w, c) == if c == h then b else PrevFree(mem, w, c)
    {
      assert c in tag.Keys + {b};
    }
    forall c | c in t
      ensures ForwardLink(m, w, t, c) && BackwardLink(m, w, hs, t, c)
    {
      if c != b {
        assert ForwardLink(mem, w, tag, c) && BackwardLink(mem, w, heads, tag, c);
      }
    }
    forall j | InTable(j)
      ensures HeadLink(m, w, hs, t, j)
    {
      assert HeadLink(mem, w, heads, tag, j);
    }
  }

  /** Memory after `block_remove` of `b`: its neighbours are joined, its own words stay. */
  function RemoveMem(mem: Memory, w: int, b: int): (m: Memory) {
    var n, p := NextFree(mem, w, b), PrevFree(mem, w, b);
    var m := if p != NULL then Write(mem, p + 2 * w, n) else mem;
    if n != NULL then Write(m, n + 3 * w, p) else m
  }

  function RemoveHeads(mem: Memory, w: int, heads: Heads, k: Bucket, b: int): (h: Heads) {
    if PrevFree(mem, w, b) != NULL then heads else heads[k := NextFree(mem, w, b)]
  }

  lemma RemoveWellFormed(mem: Memory, w: int, heads: Heads, tag: map<int, Tag>, b: int)
    requires 0 < w && b in tag && Spaced(tag.Keys, w, |mem|) && Linked(mem, w, heads, tag)
    ensures var n := NextFree(mem, w, b); n != NULL ==> n in tag && 0 < n && n + 4 * w <= |mem|
    ensures var p := PrevFree(mem, w, b); p != NULL ==> p in tag && 0 < p && p + 4 * w <= |mem|
    ensures NextFree(mem, w, b) != b && PrevFree(mem, w, b) != b
    ensures NextFree(mem, w, b) != NULL ==> NextFree(mem, w, b) != PrevFree(mem, w, b)
  {
    assert ForwardLink(mem, w, tag, b) && BackwardLink(mem, w, heads, tag, b);
    var n, p := NextFree(mem, w, b), PrevFree(mem, w, b);
    assert n != NULL ==> n in tag.Keys;
    if p != NULL {
      assert p in tag.Keys && ForwardLink(mem, w, tag, p);
    }
  }

  /** The link words of the other blocks after a removal. */
  lemma RemoveWords(mem: Memory, w: int, heads: Heads, tag: map<int, Tag>, b: int, c: int)
    requires 0 < w && b in tag && Spaced(tag.Keys, w, |mem|) && Linked(mem, w, heads, tag)
    requires c in tag && c != b
    requires var n := NextFree(mem, w, b); n != NULL ==> n in tag && 0 < n && n + 4 * w <= |mem|
    requires var p := PrevFree(mem, w, b); p != NULL ==> p in tag && 0 < p && p + 4 * w <= |mem|
    ensures var m, n, p := RemoveMem(mem, w, b), NextFree(mem, w, b), PrevFree(mem, w, b);
      && NextFree(m, w, c) == (if c == p then n else NextFree(mem, w, c))
      && PrevFree(m, w, c) == (if c == n then p else PrevFree(mem, w, c))
  {
    assert c in tag.Keys;
    var n, p := NextFree(mem, w, b), PrevFree(mem, w, b);
    assert n != NULL ==> n in tag.Keys;
    assert p != NULL ==> p in tag.Keys;
  }

  /** Joining the neighbours of `b` keeps every other block linked, whatever the memory. */
  lemma UnlinkKeepsLinks(mem: Memory, m: Memory, w: int, heads: Heads, hs: Heads, tag: map<int, Tag>, b: int, c: int)
    requires Linked(mem, w, heads, tag) && b in tag && c in tag && c != b
    requires forall d {:trigger NextFree(m, w, d)} :: d in tag && d != b ==>
      NextFree(m, w, d) == if d == PrevFree(mem, w, b) then NextFree(mem, w, b) else NextFree(mem, w, d)
    requires forall d {:trigger PrevFree(m, w, d)} :: d in tag && d != b ==>
      PrevFree(m, w, d) == if d == NextFree(mem, w, b) then PrevFree(mem, w, b) else PrevFree(mem, w, d)
    requires forall j {:trigger Head(hs, j)} :: InTable(j) ==>
      Head(hs, j) == if j == tag[b].bucket && PrevFree(mem, w, b) == NULL then NextFree(mem, w, b) else Head(heads, j)
    ensures ForwardLink(m, w, tag - {b}, c) && BackwardLink(m, w, hs, tag - {b}, c)
  {
    var n, p := NextFree(mem, w, b), PrevFree(mem, w, b);
    assert ForwardLink(mem, w, tag, b) && BackwardLink(mem, w, heads, tag, b);
    assert ForwardLink(mem, w, tag, c) && BackwardLink(mem, w, heads, tag, c);
    if p != NULL { assert ForwardLink(mem, w, tag, p); }
  }

  lemma RemoveKeepsLinks(mem: Memory, w: int, heads: Heads, tag: map<int, Tag>, b: int)
    requires 0 < w && b in tag && Spaced(tag.Keys, w, |mem|) && Linked(mem, w, heads, tag)
    ensures Linked(RemoveMem(mem, w, b), w, RemoveHeads(mem, w, heads, tag[b].bucket, b), tag - {b})
  {
    RemoveWellFormed(mem, w, heads, tag, b);
    var n, p, k := NextFree(mem, w, b), PrevFree(mem, w, b), tag[b].bucket;
    var m, hs, t := RemoveMem(mem, w, b), RemoveHeads(mem, w, heads, k, b), tag - {b};
    forall c | c in tag && c != b
      ensures NextFree(m, w, c) == if c == p then n else NextFree(mem, w, c)
      ensures PrevFree(m, w, c) == if c == n then p else PrevFree(mem, w, c)
    {
      RemoveWords(mem, w, heads, tag, b, c);
    }
    forall c | c in t
      ensures ForwardLink(m, w, t, c) && BackwardLink(m, w, hs, t, c)
    {
      UnlinkKeepsLinks(mem, m, w, heads, hs, tag, b, c);
    }
    forall j | InTable(j)
      ensures HeadLink(m, w, hs, t, j)
    {
      assert HeadLink(mem, w, heads, tag, j) && HeadLink(mem, w, heads, tag, k);
      assert ForwardLink(mem, w, tag, b) && BackwardLink(mem, w, heads, tag, b);
    }
  }

  /** The lists do not depend on any word other than the link words of the tagged blocks. */
  lemma LinksFrame(mem: Memory, mem': Memory, w: int, heads: Heads, tag: map<int, Tag>)
    requires Linked(mem, w, heads, tag)
    requires forall b :: b in tag ==> NextFree(mem', w, b) == NextFree(mem, w, b) && PrevFree(mem', w, b) == PrevFree(mem, w, b)
    ensures Linked(mem', w, heads, tag)
  {
    forall b | b in tag
      ensures ForwardLink(mem', w, tag, b) && BackwardLink(mem', w, heads, tag, b)
    {
      assert ForwardLink(mem, w, tag, b) && BackwardLink(mem, w, heads, tag, b);
    }
    forall k | InTable(k)
      ensures HeadLink(mem', w, heads, tag, k)
    {
      assert HeadLink(mem, w, heads, tag, k);
    }
  }

  // ---------------------------------------------------------------------------
  // What the links mean: the list of a bucket, as a sequence.

  /** The blocks met when following `next_free` from `b`. */
  ghost function Chain(mem: Memory, w: int, heads: Heads, tag: map<int, Tag>, b: int): (s: seq<int>)
    requires Linked(mem, w, heads, tag) && (b == NULL || b in tag)
    decreases if b == NULL then 0 else tag[b].stamp + 1
  {
    if b == NULL then []
    else
      assert ForwardLink(mem, w, tag, b);
      [b] + Chain(mem, w, heads, tag, NextFree(mem, w, b))
  }

  /** All of `s` is tagged with bucket `k`, and stamps strictly fall along it. */
  ghost predicate Falling(tag: map<int, Tag>, k: Bucket, s: seq<int>) {
    && (forall i {:trigger s[i]} :: 0 <= i < |s| ==> s[i] in tag && tag[s[i]].bucket == k)
    && (forall i, j {:trigger s[i], s[j]} :: 0 <= i < j < |s| ==> tag[s[j]].stamp < tag[s[i]].stamp)
  }

  lemma {:induction false} ChainFalls(mem: Memory, w: int, heads: Heads, tag: map<int, Tag>, b: int)
    requires Linked(mem, w, heads, tag) && b in tag
    ensures Falling(tag, tag[b].bucket, Chain(mem, w, heads, tag, b))
    decreases tag[b].stamp
  {
    assert ForwardLink(mem, w, tag, b);
    var n := NextFree(mem, w, b);
    var t := Chain(mem, w, heads, tag, n);
    if n != NULL {
      ChainFalls(mem, w, heads, tag, n);
      assert t[0] == n;
    }
    var s := [b] + t;
    assert forall i :: 0 < i < |s| ==> s[i] == t[i - 1];
    assert Falling(tag, tag[b].bucket, s);
  }

  lemma {:induction false} ChainClosed(mem: Memory, w: int, heads: Heads, tag: map<int, Tag>, b: int, c: int)
    requires Linked(mem, w, heads, tag) && (b == NULL || b in tag)
    requires c in Chain(mem, w, heads, tag, b) && c in tag && NextFree(mem, w, c) != NULL
    ensures NextFree(mem, w, c) in Chain(mem, w, heads, tag, b)
    decreases if b == NULL then 0 else tag[b].stamp + 1
  {
    assert ForwardLink(mem, w, tag, b);
    var n := NextFree(mem, w, b);
    if c != b {
      ChainClosed(mem, w, heads, tag, n, c);
    }
  }

  /** A set that holds the head of a list and is closed under `next_free` holds every
      block of that list's bucket. */
  lemma {:induction false} ClosedHoldsBucket(mem: Memory, w: int, heads: Heads, tag: map<int, Tag>,
                                             clock: nat, k: Bucket, v: set<int>, c: int)
    requires Linked(mem, w, heads, tag) && InTable(k)
    requires forall b :: b in tag ==> tag[b].stamp < clock
    requires Head(heads, k) != NULL ==> Head(heads, k) in v
    requires forall b :: b in v && b in tag && NextFree(mem, w, b) != NULL ==> NextFree(mem, w, b) in v
    requires c in tag && tag[c].bucket == k
    ensures c in v
    decreases clock - tag[c].stamp
  {
    assert BackwardLink(mem, w, heads, tag, c);
    var p := PrevFree(mem, w, c);
    if p != NULL {
      assert ForwardLink(mem, w, tag, p);
      ClosedHoldsBucket(mem, w, heads, tag, clock, k, v, p);
    }
  }

  /** The list of a bucket holds exactly the free blocks of that bucket, each once,
      most recently inserted first. */
  lemma ListIsBucket(mem: Memory, w: int, heads: Heads, tag: map<int, Tag>, clock: nat, k: Bucket)
    requires Linked(mem, w, heads, tag) && InTable(k)
    requires forall b :: b in tag ==> tag[b].stamp < clock
    ensures Head(heads, k) == NULL || Head(heads, k) in tag
    ensures var s := Chain(mem, w, heads, tag, Head(heads, k));
      && (forall c :: c in s <==> c in tag && tag[c].bucket == k)
      && (forall i, j :: 0 <= i < j < |s| ==> s[i] != s[j])
      && Falling(tag, k, s)
  {
    assert HeadLink(mem, w, heads, tag, k);
    var h := Head(heads, k);
    var s := Chain(mem, w, heads, tag, h);
    if h != NULL { ChainFalls(mem, w, heads, tag, h); }
    var v := set c | c in s;
    forall b | b in v && b in tag && NextFree(mem, w, b) != NULL
      ensures NextFree(mem, w, b) in v
    {
      ChainClosed(mem, w, heads, tag, h, b);
    }
    forall c | c in tag && tag[c].bucket == k
      ensures c in s
    {
      ClosedHoldsBucket(mem, w, heads, tag, clock, k, v, c);
    }
  }
}
