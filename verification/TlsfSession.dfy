/** Every run of the allocator, as one client-driven session. */
module TlsfSession {
  import opened TlsfMapping
  import opened TlsfLists
  import opened TlsfBlocks
  import opened TlsfState
  import opened TlsfOps
  import opened TlsfHeap
  import opened TlsfExact

  /** What a client may ask for. */
  datatype Request =
    | Alloc(n: nat)
    | Release(ptr: int)
    | Resize(ptr: int, n: nat)
    | Put(ptr: int, offset: nat, v: int)

  /** The client holds exactly the live pointers. */
  ghost predicate Holds(s: State, held: set<int>) {
    forall p {:trigger p in held} {:trigger IsLive(s, p)} :: p in held <==> IsLive(s, p)
  }

  /** Requests a correct client makes: sizes the allocator serves, pointers it holds. */
  predicate Legal(w: nat, held: set<int>, r: Request)
    requires w == 4 || w == 8
  {
    match r
    case Alloc(n) => Servable(w, n)
    case Release(p) => p == NULL || p in held
    case Resize(p, n) => (p == NULL || p in held) && Servable(w, n)
    case Put(p, _, _) => p in held
  }

  lemma LiveElsewhere(s: State, t: State, b: int, p: int)
    requires OthersKept(s, t, b) && p - 2 * s.w != b
    ensures IsLive(s, p) <==> IsLive(t, p)
  {
    assert p - 2 * s.w in s.blk - {b} <==> p - 2 * s.w in s.blk;
    assert p - 2 * s.w in t.blk - {b} <==> p - 2 * s.w in t.blk;
  }

  /** One block became live, stopped being live, or neither. */
  lemma HoldsOne(s: State, t: State, held: set<int>, ptr: int)
    requires Holds(s, held) && OthersKept(s, t, ptr - 2 * s.w)
    ensures Holds(t, if IsLive(t, ptr) then held + {ptr} else held - {ptr})
  {
    forall p
      ensures p in (if IsLive(t, ptr) then held + {ptr} else held - {ptr}) <==> IsLive(t, p)
    {
      if p != ptr {
        LiveElsewhere(s, t, ptr - 2 * s.w, p);
        assert p in held <==> IsLive(s, p);
      }
    }
  }

  lemma HoldsMoved(s: State, t: State, held: set<int>, ptr: int, r: int)
    requires Holds(s, held) && KeptBut(s, t, ptr - 2 * s.w, r - 2 * s.w) && !IsLive(t, ptr) && IsLive(t, r)
    ensures Holds(t, held - {ptr} + {r})
  {
    forall p
      ensures p in held - {ptr} + {r} <==> IsLive(t, p)
    {
      if p != ptr && p != r {
        var b, c, x := ptr - 2 * s.w, r - 2 * s.w, p - 2 * s.w;
        assert x in s.blk - {b, c} <==> x in s.blk;
        assert x in t.blk - {b, c} <==> x in t.blk;
        assert p in held <==> IsLive(s, p);
      }
    }
  }

  /** The pointers held after a resize. */
  lemma ResizeHolds(s: State, t: State, held: set<int>, p: int, n: nat, q: int)
    requires Valid(s) && Holds(s, held) && (p == NULL || p in held) && t.w == s.w
    requires p == NULL ==> Allocated(s, t, n, q)
    requires p != NULL && n == 0 ==> q == NULL && !IsLive(t, p) && OthersKept(s, t, p - 2 * s.w)
    requires p != NULL && n != 0 ==> IsLive(s, p) && Resized(s, t, p, n, q)
    ensures Holds(t, if p == NULL || q == NULL then (if q != NULL then held + {q} else if n == 0 then held - {p} else held)
                     else held - {p} + {q})
  {
    assert NULL !in held by {
      if NULL in held { assert IsLive(s, NULL); ReadHeader(s, NULL - 2 * s.w); }
    }
    if p == NULL {
      if q != NULL { HoldsOne(s, t, held, q); }
    } else if n == 0 {
      HoldsOne(s, t, held, p);
    } else if q == p {
      HoldsOne(s, t, held, p);
      assert held - {p} + {p} == held + {p};
    } else if q != NULL {
      HoldsMoved(s, t, held, p, q);
    }
  }

  /** Serve one legal request. */
  method Serve(h: Heap, held: set<int>, r: Request) returns (held': set<int>)
    requires Valid(h.View()) && Holds(h.View(), held) && Legal(h.w, held, r)
    modifies h
    ensures Valid(h.View()) && Holds(h.View(), held')
  {
    ghost var s := h.View();
    held' := held;
    match r {
      case Alloc(n) =>
        var p := h.Malloc(n);
        if p != NULL {
          HoldsOne(s, h.View(), held, p);
          held' := held + {p};
        }
      case Release(p) =>
        h.Free(p);
        if p != NULL {
          HoldsOne(s, h.View(), held, p);
          held' := held - {p};
        }
      case Resize(p, n) =>
        var q := h.Realloc(p, n);
        ResizeHolds(s, h.View(), held, p, n, q);
        held' := if p == NULL || q == NULL then
                   (if q != NULL then held + {q} else if n == 0 then held - {p} else held)
                 else held - {p} + {q};
      case Put(p, offset, v) =>
        assert IsLive(s, p);
        ReadHeader(s, p - 2 * s.w);
        var size := GetSize(h.mem[p - h.Overhead()]);
        if offset < size - h.Overhead() {
          h.Store(p, offset, v);
          HoldsOne(s, h.View(), held, p);
          held' := held + {p};
        }
    }
  }

  /** Serve a whole list of requests, skipping the ones a correct client would not make, and
      check integrity after each; then release everything. The checker never complains, and
      the heap ends as the single free block it started as. */
  method Session(h: Heap, requests: seq<Request>) returns (codes: seq<int>)
    requires Valid(h.View()) && Holds(h.View(), {})
    modifies h
    ensures |codes| == |requests| && forall i :: 0 <= i < |codes| ==> codes[i] == 0
    ensures Valid(h.View()) && h.g.blk.Keys == {h.lo} && h.stats == Counts(h.hi - h.lo - h.Overhead(), 0, 1, 0)
  {
    var held: set<int> := {};
    codes := [];
    for i := 0 to |requests|
      invariant Valid(h.View()) && Holds(h.View(), held)
      invariant |codes| == i && forall j :: 0 <= j < i ==> codes[j] == 0
    {
      if Legal(h.w, held, requests[i]) {
        held := Serve(h, held, requests[i]);
      }
      var code := CheckValid(h);
      codes := codes + [code];
    }
    ReleaseAll(h, held);
    NothingHeld(h.View());
  }

  method ReleaseAll(h: Heap, held: set<int>)
    requires Valid(h.View()) && Holds(h.View(), held)
    modifies h
    ensures Valid(h.View()) && Holds(h.View(), {})
    decreases |held|
  {
    if p :| p in held {
      ghost var s := h.View();
      assert IsLive(s, p);
      ReadHeader(s, p - 2 * s.w);
      h.Free(p);
      HoldsOne(s, h.View(), held, p);
      ReleaseAll(h, held - {p});
    } else {
      assert forall p :: p !in held;
    }
  }

  lemma NothingHeld(s: State)
    requires Valid(s) && Holds(s, {})
    ensures s.blk.Keys == {s.lo} && s.n == Counts(s.hi - s.lo - 2 * s.w, 0, 1, 0)
  {
    forall b | b in s.blk
      ensures s.blk[b].free
    {
      assert b + 2 * s.w !in {} <==> !IsLive(s, b + 2 * s.w);
    }
    AllFreed(s);
  }
}
