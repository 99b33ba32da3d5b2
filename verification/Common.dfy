/** Small notions that several components share. */
module Common {

  datatype Option<T> = None | Some(value: T)

  function Min(a: int, b: int): (r: int)
    ensures r <= a && r <= b && (r == a || r == b)
  {
    if a < b then a else b
  }

  function Max(a: int, b: int): (r: int)
    ensures a <= r && b <= r && (r == a || r == b)
  {
    if a < b then b else a
  }

  /** No element occurs twice. */
  ghost predicate NoDup(q: seq<int>) {
    forall i, j :: 0 <= i < j < |q| ==> q[i] != q[j]
  }

  lemma MulMono(a: int, b: int, w: int)
    requires w > 0
    ensures a <= b ==> a * w <= b * w
  {
  }

  /** The remainder of `d`, given as `r` whole multiples of `word` away. */
  lemma Residue(d: int, r: int, k: int, word: int)
    requires 0 <= r < word && r == d + word * k
    ensures d % word == r
  {
    assert d == word * (-k) + r;
    var q := d / word;
    assert d == word * q + d % word;
    assert word * (q + k) == r - d % word;
    MulMono(q + k, -1, word);
    MulMono(1, q + k, word);
  }

  // ---------------------------------------------------------------------------
  // Sizes of sets

  function Elems(q: seq<int>): set<int> { set x | x in q }

  lemma {:induction false} ElemsSize(q: seq<int>)
    requires NoDup(q)
    ensures |Elems(q)| == |q|
  {
    if q != [] {
      var n := |q| - 1;
      ElemsSize(q[..n]);
      assert Elems(q) == Elems(q[..n]) + {q[n]};
      assert q[n] !in q[..n];
    }
  }

  ghost function Below(n: nat): (r: set<int>)
    ensures |r| == n && forall t :: t in r <==> 0 <= t < n
  {
    if n == 0 then {} else Below(n - 1) + {n - 1}
  }

  lemma Union(a: set<int>, b: set<int>)
    requires forall t :: t in a ==> t !in b
    ensures |a + b| == |a| + |b|
  {
    var both := a * b;
    if x :| x in both {
      assert false;
    } else {
      assert forall x :: x !in both;
      assert both == {};
    }
  }

  lemma SubsetSize(a: set<int>, b: set<int>)
    requires a <= b
    ensures |a| <= |b| && (|a| == |b| ==> a == b)
  {
    var rest := b - a;
    Union(a, rest);
    assert a + rest == b;
    if |rest| == 0 { assert rest == {}; }
  }
}
