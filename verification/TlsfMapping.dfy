/** Powers of two and the position of the most significant set bit. */
module Binary {

  function Pow2(n: nat): (r: nat)
    ensures r >= 1
  {
    if n == 0 then 1 else 2 * Pow2(n - 1)
  }

  /** `find_msb_index`: the index of the highest set bit, and 0 for the zero word. */
  function Msb(n: nat): (k: nat)
    ensures n > 0 ==> Pow2(k) <= n < 2 * Pow2(k)
  {
    if n < 2 then 0 else 1 + Msb(n / 2)
  }

  lemma {:induction false} Pow2Monotone(a: nat, b: nat)
    requires a <= b
    ensures Pow2(a) <= Pow2(b)
    decreases b
  {
    if a < b { Pow2Monotone(a, b - 1); }
  }

  lemma Pow2Strict(a: nat, b: nat)
    requires a < b
    ensures 2 * Pow2(a) <= Pow2(b)
  {
    Pow2Monotone(a + 1, b);
  }

  lemma MsbMonotone(x: nat, y: nat)
    requires 0 < x <= y
    ensures Msb(x) <= Msb(y)
  {
    if Msb(y) < Msb(x) { Pow2Strict(Msb(y), Msb(x)); }
  }

  /** Only one exponent brackets a number between two consecutive powers. */
  lemma MsbUnique(x: nat, k: nat)
    requires Pow2(k) <= x < 2 * Pow2(k)
    ensures Msb(x) == k
  {
    if Msb(x) < k { Pow2Strict(Msb(x), k); }
    if k < Msb(x) { Pow2Strict(k, Msb(x)); }
  }

  lemma Pow2Values()
    ensures Pow2(4) == 16 && Pow2(5) == 32 && Pow2(24) == 0x100_0000
    ensures Pow2(29) == 0x2000_0000 && Pow2(30) == 0x4000_0000
  {
    assert Pow2(4) == 16 && Pow2(9) == 512 && Pow2(14) == 0x4000;
    assert Pow2(19) == 32 * Pow2(14);
    assert Pow2(24) == 32 * Pow2(19);
    assert Pow2(29) == 32 * Pow2(24);
  }

  /** `x >> n` on an unsigned word. */
  function ShiftRight(x: nat, n: nat): (r: nat)
    decreases n
  {
    if n == 0 then x else ShiftRight(x / 2, n - 1)
  }

  lemma {:induction false} ShiftMonotone(a: nat, b: nat, n: nat)
    requires a <= b
    ensures ShiftRight(a, n) <= ShiftRight(b, n)
    decreases n
  {
    if n > 0 { ShiftMonotone(a / 2, b / 2, n - 1); }
  }

  /** Adding 2^n - 1 before the shift moves strictly past every smaller number. */
  lemma {:induction false} ShiftRoundUp(a: nat, b: nat, n: nat)
    requires a < b
    ensures ShiftRight(a, n) < ShiftRight(b + Pow2(n) - 1, n)
    decreases n
  {
    if n > 0 {
      ShiftRoundUp(a / 2, (b + 1) / 2, n - 1);
      assert (b + Pow2(n) - 1) / 2 == (b + 1) / 2 + Pow2(n - 1) - 1;
    }
  }

  /** A shift by n maps the range from 32 * 2^n below 64 * 2^n into that from 32 below 64. */
  lemma {:induction false} ShiftRange(x: nat, n: nat)
    requires 32 * Pow2(n) <= x < 64 * Pow2(n)
    ensures 32 <= ShiftRight(x, n) < 64
    decreases n
  {
    if n > 0 { ShiftRange(x / 2, n - 1); }
  }
}

/** The two-level bucket index of the allocator and the search index derived from it. */
module TlsfMapping {
  import opened Binary

  const FL_INDEX_MAX := 30
  const SL_INDEX_COUNT_LOG2 := 5
  const SL_INDEX_COUNT := 32

  /** The largest request whose rounded search index stays inside the index tables. */
  const MAX_SEARCHABLE := 0x4000_0000 - 0x100_0000

  datatype Bucket = Bucket(fl: nat, sl: nat)

  predicate InTable(k: Bucket) {
    k.fl < FL_INDEX_MAX && k.sl < SL_INDEX_COUNT
  }

  /** Buckets in search order: first level first, then second level. */
  predicate Before(a: Bucket, b: Bucket) {
    a.fl < b.fl || (a.fl == b.fl && a.sl < b.sl)
  }

  /** `mapping_indices_calc`; the exclusive-or with 32 removes the leading bit of a
      number from 32 to 63, which is a subtraction. */
  function Calc(minSize: nat, size: nat): (k: Bucket)
  {
    if size < minSize then Bucket(0, 0)
    else
      var fl := Msb(size);
      if fl < SL_INDEX_COUNT_LOG2 then Bucket(fl, size / 2)
      else
        var shifted := ShiftRight(size, fl - SL_INDEX_COUNT_LOG2);
        Bucket(fl, if shifted >= SL_INDEX_COUNT then shifted - SL_INDEX_COUNT else shifted + SL_INDEX_COUNT)
  }

  /** Round up to the next slice boundary minus one, so that the slice found holds only
      sizes at or above the request. */
  function RoundUp(size: nat): (r: nat) {
    var fl := Msb(size);
    if fl >= SL_INDEX_COUNT_LOG2 then size + Pow2(fl - SL_INDEX_COUNT_LOG2) - 1 else size
  }

  function Clamp(size: nat): (r: nat) {
    if size >= 0x4000_0000 then 0x3FFF_FFFF else size
  }

  /** `mapping_indices_search`. */
  function Search(minSize: nat, size: nat): (k: Bucket) {
    Calc(minSize, RoundUp(Clamp(size)))
  }

  /** The width of one second-level slice is a 32nd of the first-level range. */
  lemma SliceWidth(fl: nat)
    requires fl >= SL_INDEX_COUNT_LOG2
    ensures Pow2(fl) == 32 * Pow2(fl - 5)
  {
    assert Pow2(fl) == 2 * Pow2(fl - 1) == 4 * Pow2(fl - 2);
    assert Pow2(fl - 2) == 2 * Pow2(fl - 3) == 4 * Pow2(fl - 4);
  }

  /** Above the small-block branch the exclusive-or is exactly `- 32`, and the index is below 32. */
  lemma CalcLarge(minSize: nat, size: nat)
    requires 0 < size && minSize <= size && Msb(size) >= 5
    ensures 32 <= ShiftRight(size, Msb(size) - 5) < 64
    ensures Calc(minSize, size) == Bucket(Msb(size), ShiftRight(size, Msb(size) - 5) - 32)
  {
    SliceWidth(Msb(size));
    ShiftRange(size, Msb(size) - 5);
  }

  lemma CalcSmall(minSize: nat, size: nat)
    requires 0 < size && minSize <= size && Msb(size) < 5
    ensures size < 32 && Calc(minSize, size) == Bucket(Msb(size), size / 2)
  {
    Pow2Values();
    Pow2Strict(Msb(size), 5);
  }

  /** Every block of a heap below 2^30 bytes has a bucket inside the tables. */
  lemma CalcInTable(minSize: nat, size: nat)
    requires 0 < minSize && size < 0x4000_0000
    ensures InTable(Calc(minSize, size))
  {
    if size >= minSize {
      Pow2Values();
      if Msb(size) >= 30 { Pow2Monotone(30, Msb(size)); }
      if Msb(size) >= 5 { CalcLarge(minSize, size); } else { CalcSmall(minSize, size); }
    }
  }

  /** Bigger blocks never land in an earlier bucket. */
  lemma CalcMonotone(minSize: nat, a: nat, b: nat)
    requires 0 < minSize && a <= b
    ensures !Before(Calc(minSize, b), Calc(minSize, a))
  {
    if minSize <= a {
      MsbMonotone(a, b);
      if Msb(a) == Msb(b) {
        if Msb(a) >= 5 {
          CalcLarge(minSize, a);
          CalcLarge(minSize, b);
          ShiftMonotone(a, b, Msb(a) - 5);
        } else {
          CalcSmall(minSize, a);
          CalcSmall(minSize, b);
        }
      }
    }
  }

  lemma SmallerIsBefore(minSize: nat, block: nat, request: nat, n: nat, r: nat)
    requires 0 < minSize <= block < request
    requires Msb(request) == n + 5 && r == request + Pow2(n) - 1
    ensures Before(Calc(minSize, block), Calc(minSize, r))
  {
    MsbMonotone(block, request);
    MsbMonotone(request, r);
    if Msb(block) == Msb(r) {
      assert Msb(block) - 5 == n;
      ShiftRoundUp(block, request, n);
      CalcLarge(minSize, block);
      CalcLarge(minSize, r);
    }
  }

  lemma SmallerIsBeforeTiny(minSize: nat, block: nat, request: nat)
    requires 0 < minSize <= block && block + 2 <= request && Msb(request) < 5
    ensures Before(Calc(minSize, block), Calc(minSize, request))
  {
    MsbMonotone(block, request);
    CalcSmall(minSize, block);
    CalcSmall(minSize, request);
  }

  /** A smaller block is in a strictly earlier bucket than the search index. */
  lemma SmallerIsBeforeSearch(minSize: nat, block: nat, request: nat)
    requires 0 < minSize <= block && block + 2 <= request < 0x4000_0000
    ensures Before(Calc(minSize, block), Search(minSize, request))
  {
    if Msb(request) >= 5 {
      SmallerIsBefore(minSize, block, request, Msb(request) - 5, RoundUp(request));
    } else {
      SmallerIsBeforeTiny(minSize, block, request);
    }
  }

  lemma AlignedGap(a: nat, b: nat)
    requires a % 8 == 0 && b % 8 == 0 && a < b
    ensures a + 8 <= b
  {
  }

  /** Every block in a bucket at or above the search index is big enough, also when
      rounding carries into the next first level. */
  lemma SearchSound(minSize: nat, block: nat, request: nat)
    requires 0 < minSize <= block && minSize <= request <= MAX_SEARCHABLE
    requires block % 8 == 0 && request % 8 == 0
    requires !Before(Calc(minSize, block), Search(minSize, request))
    ensures block >= request
  {
    if block < request {
      AlignedGap(block, request);
      SmallerIsBeforeSearch(minSize, block, request);
    }
  }

  /** Every block in a bucket below the search index is smaller than 33/32 of the request. */
  lemma SearchComplete(minSize: nat, block: nat, request: nat)
    requires 0 < minSize <= block && minSize <= request < 0x4000_0000
    requires Before(Calc(minSize, block), Search(minSize, request))
    ensures 32 * block < 33 * request
  {
    var r := RoundUp(request);
    if block >= r { CalcMonotone(minSize, r, block); }
    if Msb(request) >= 5 { SliceWidth(Msb(request)); }
  }

  /** A block whose bucket is not after another's is smaller than 33/32 of the other. */
  lemma SameOrEarlier(minSize: nat, block: nat, other: nat)
    requires 0 < minSize <= other && 16 <= other && block < 0x4000_0000 && other < 0x4000_0000
    requires block % 8 == 0 && other % 8 == 0 && !Before(Calc(minSize, other), Calc(minSize, block))
    ensures 32 * block < 33 * other
  {
    if other < block {
      AlignedGap(other, block);
      CalcMonotone(minSize, other, block);
      MsbMonotone(other, block);
      if Msb(other) >= 5 {
        CalcLarge(minSize, other);
        CalcLarge(minSize, block);
        SliceWidth(Msb(other));
        if block >= other + Pow2(Msb(other) - 5) { ShiftRoundUp(other, block - Pow2(Msb(other) - 5) + 1, Msb(other) - 5); }
      } else {
        CalcSmall(minSize, other);
        CalcSmall(minSize, block);
      }
    }
  }

  /** The search index is a legal table index exactly for requests up to 2^30 - 2^24;
      beyond that the clamped and rounded size reaches first level 30. */
  lemma SearchInTableIff(minSize: nat, request: nat)
    requires 0 < minSize <= request && minSize < 0x4000_0000
    ensures InTable(Search(minSize, request)) <==> request <= MAX_SEARCHABLE
  {
    Pow2Values();
    var c := Clamp(request);
    if request <= MAX_SEARCHABLE {
      if Msb(c) >= 30 { Pow2Monotone(30, Msb(c)); }
      if Msb(c) >= 5 { Pow2Monotone(Msb(c) - 5, 24); }
      CalcInTable(minSize, RoundUp(c));
    } else {
      MsbUnique(c, 29);
      var r := RoundUp(c);
      if Msb(r) < 30 { Pow2Monotone(Msb(r), 29); }
    }
  }

  /** A request just past the limit indexes past the end of the tables. */
  lemma SearchPastTable()
    ensures !InTable(Search(16, 0x3F00_0008))
  {
    SearchInTableIff(16, 0x3F00_0008);
  }
}
