/** Permutations of {0, ..., n-1}, represented as in the source by the list of their images:
    v[i] is the image of i. This module holds the mathematical definitions the operations of
    the other modules are proved against, and the facts about them. */
module Permutations {

  /** Every entry of v is a position of v. */
  predicate InRange(v: seq<int>) {
    forall i :: 0 <= i < |v| ==> 0 <= v[i] < |v|
  }

  /** No value occurs twice. */
  predicate Distinct<T(==)>(s: seq<T>) {
    forall i, j :: 0 <= i < j < |s| ==> s[i] != s[j]
  }

  /** Every position is the image of something. */
  predicate Surjective(v: seq<int>) {
    forall x :: 0 <= x < |v| ==> x in v
  }

  /** v is a bijection of {0, ..., |v|-1}: each value in range occurs exactly once. */
  predicate IsPermutation(v: seq<int>) {
    InRange(v) && Distinct(v) && Surjective(v)
  }

  /** A derangement has no fixed point. */
  predicate NoFixedPoint(v: seq<int>) {
    forall i :: 0 <= i < |v| ==> v[i] != i
  }

  /** a and b have the same size and no index has the same image under both. */
  predicate NonColliding(a: seq<int>, b: seq<int>) {
    |a| == |b| && forall k :: 0 <= k < |a| ==> a[k] != b[k]
  }

  /** No index is sent into its own list of forbidden targets. */
  predicate Avoids(v: seq<int>, exclusions: seq<seq<int>>)
    requires |exclusions| == |v|
  {
    forall i :: 0 <= i < |v| ==> v[i] !in exclusions[i]
  }

  /** The identity permutation [0, 1, ..., n-1]. */
  function Identity(n: nat): (r: seq<int>)
    ensures |r| == n && InRange(r)
  {
    seq(n, i => i)
  }

  /** "a after b": the list whose i-th entry is a[b[i]]. */
  function Composed(a: seq<int>, b: seq<int>): (r: seq<int>)
    requires |a| == |b| && InRange(b)
    ensures |r| == |a|
  {
    seq(|a|, i requires 0 <= i < |a| => a[b[i]])
  }

  /** The first position at which x occurs in v (for a permutation, the only one). */
  function IndexOf(v: seq<int>, x: int): (i: nat)
    requires x in v
    ensures i < |v| && v[i] == x && x !in v[..i]
  {
    if v[0] == x then 0 else 1 + IndexOf(v[1..], x)
  }

  /** The inverse permutation: the entry at x is the index that v sends to x. */
  function Inverted(v: seq<int>): (w: seq<int>)
    requires IsPermutation(v)
    ensures |w| == |v| && InRange(w)
  {
    seq(|v|, x requires 0 <= x < |v| => IndexOf(v, x))
  }

  lemma IdentityIsPermutation(n: nat)
    ensures IsPermutation(Identity(n))
  {
    var r := Identity(n);
    forall x | 0 <= x < n ensures x in r {
      assert r[x] == x;
    }
  }

  /** Exchanging two entries of a permutation gives a permutation. */
  lemma {:induction false} SwapIsPermutation(v: seq<int>, i: nat, j: nat)
    requires IsPermutation(v) && i < |v| && j < |v|
    ensures IsPermutation(v[i := v[j]][j := v[i]])
  {
    var w := v[i := v[j]][j := v[i]];
    forall x | 0 <= x < |w| ensures x in w {
      var k := IndexOf(v, x);
      if k == i {
        assert w[j] == x;
      } else if k == j {
        assert w[i] == x;
      } else {
        assert w[k] == x;
      }
    }
  }

  /** The composition of two permutations of the same size is a permutation of that size. */
  lemma {:induction false} ComposedIsPermutation(a: seq<int>, b: seq<int>)
    requires IsPermutation(a) && IsPermutation(b) && |a| == |b|
    ensures IsPermutation(Composed(a, b))
  {
    var r := Composed(a, b);
    forall x | 0 <= x < |r| ensures x in r {
      var i := IndexOf(a, x);
      var k := IndexOf(b, i);
      assert r[k] == x;
    }
  }

  /** Inverted undoes v on both sides, and is itself a permutation. */
  lemma {:induction false} InvertedIsInverse(v: seq<int>)
    requires IsPermutation(v)
    ensures forall i :: 0 <= i < |v| ==> Inverted(v)[v[i]] == i
    ensures forall x :: 0 <= x < |v| ==> v[Inverted(v)[x]] == x
    ensures IsPermutation(Inverted(v))
  {
    var w := Inverted(v);
    forall i | 0 <= i < |v| ensures w[v[i]] == i {
      var k := IndexOf(v, v[i]);
      assert v[k] == v[i];
    }
    forall x | 0 <= x < |v| ensures x in w {
      assert w[v[x]] == x;
    }
  }

  /** p * p.inverse() and p.inverse() * p are both the identity. */
  lemma ComposedWithInverted(v: seq<int>)
    requires IsPermutation(v)
    ensures Composed(v, Inverted(v)) == Identity(|v|)
    ensures Composed(Inverted(v), v) == Identity(|v|)
  {
    InvertedIsInverse(v);
  }

  /** Composition is associative. */
  lemma ComposedAssociative(a: seq<int>, b: seq<int>, c: seq<int>)
    requires IsPermutation(a) && IsPermutation(b) && IsPermutation(c)
    requires |a| == |b| == |c|
    ensures InRange(Composed(b, c)) && InRange(Composed(a, b))
    ensures Composed(Composed(a, b), c) == Composed(a, Composed(b, c))
  {
  }

  /** The collision test of the sampler: a * s^-1 is a derangement exactly when a and s
      send no index to the same target. */
  lemma {:induction false} CollisionTest(a: seq<int>, s: seq<int>)
    requires IsPermutation(s) && |a| == |s|
    ensures NoFixedPoint(Composed(a, Inverted(s))) <==> NonColliding(a, s)
  {
    var c := Composed(a, Inverted(s));
    InvertedIsInverse(s);
    if NoFixedPoint(c) {
      forall k | 0 <= k < |a| ensures a[k] != s[k] {
        assert c[s[k]] == a[k];
      }
    }
    if NonColliding(a, s) {
      forall x | 0 <= x < |c| ensures c[x] != x {
        var k := Inverted(s)[x];
        assert s[k] == x;
      }
    }
  }

  /** A permutation of one element is the identity, so it is never a derangement. */
  lemma NoDerangementOfOne(v: seq<int>)
    requires IsPermutation(v) && |v| == 1
    ensures !NoFixedPoint(v)
  {
    assert 0 in v;
  }

  /** The only derangement of two elements is the swap [1, 0]. */
  lemma OnlyDerangementOfTwo(v: seq<int>)
    requires IsPermutation(v) && |v| == 2 && NoFixedPoint(v)
    ensures v == [1, 0]
  {
  }
}
