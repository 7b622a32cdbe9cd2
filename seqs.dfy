/** Sequence utilities shared by every loader: element-wise map, boolean
    masks (pandas `df[mask]`), occurrence counts and duplicate-freedom. */
module Seqs {

  function Map<T, U>(g: T -> U, s: seq<T>): (r: seq<U>)
    ensures |r| == |s| && forall i | 0 <= i < |s| :: r[i] == g(s[i])
  {
    seq(|s|, i requires 0 <= i < |s| => g(s[i]))
  }

  /** `s[mask]`: the elements that satisfy `keep`, in their original order. */
  function Filter<T>(keep: T -> bool, s: seq<T>): seq<T> {
    if |s| == 0 then []
    else Filter(keep, s[..|s| - 1]) + (if keep(s[|s| - 1]) then [s[|s| - 1]] else [])
  }

  /** The positions of `s` whose element satisfies `keep`, in increasing order. */
  function KeptIndices<T>(keep: T -> bool, s: seq<T>): (ix: seq<nat>)
    ensures forall k | 0 <= k < |ix| :: ix[k] < |s| && keep(s[ix[k]])
    ensures forall k, l | 0 <= k < l < |ix| :: ix[k] < ix[l]
    ensures forall i | 0 <= i < |s| && keep(s[i]) :: i in ix
  {
    if |s| == 0 then []
    else
      var ix := KeptIndices(keep, s[..|s| - 1]);
      if keep(s[|s| - 1]) then ix + [|s| - 1] else ix
  }

  /** A filter keeps exactly the elements that satisfy its predicate, each
      once, in their original order: the k-th element kept is the element at
      the k-th position that satisfies it. */
  lemma {:induction false} FilterExact<T>(keep: T -> bool, s: seq<T>)
    ensures |Filter(keep, s)| == |KeptIndices(keep, s)|
    ensures forall k | 0 <= k < |Filter(keep, s)| :: Filter(keep, s)[k] == s[KeptIndices(keep, s)[k]]
  {
    if |s| > 0 {
      var s' := s[..|s| - 1];
      var f', ix' := Filter(keep, s'), KeptIndices(keep, s');
      FilterExact(keep, s');
      var f, ix := Filter(keep, s), KeptIndices(keep, s);
      forall k | 0 <= k < |f|
        ensures f[k] == s[ix[k]]
      {
        if k < |f'| {
          assert f[k] == f'[k] && ix[k] == ix'[k];
          assert s'[ix'[k]] == s[ix'[k]];
        }
      }
    }
  }

  /** Every element of a filter's result satisfies the predicate, and every
      element of the input that satisfies it is kept. */
  lemma {:induction false} FilterMembers<T>(keep: T -> bool, s: seq<T>)
    ensures forall x :: x in Filter(keep, s) <==> x in s && keep(x)
  {
    if |s| > 0 {
      var s' := s[..|s| - 1];
      FilterMembers(keep, s');
      assert s == s' + [s[|s| - 1]];
    }
  }

  /** Filtering a concatenation filters each part. */
  lemma {:induction false} FilterAppend<T>(keep: T -> bool, a: seq<T>, b: seq<T>)
    ensures Filter(keep, a + b) == Filter(keep, a) + Filter(keep, b)
    decreases |b|
  {
    if |b| > 0 {
      var b' := b[..|b| - 1];
      FilterAppend(keep, a, b');
      assert (a + b)[..|a + b| - 1] == a + b';
    } else {
      assert a + b == a;
    }
  }

  /** A filter never lengthens its input. */
  lemma {:induction false} FilterLength<T>(keep: T -> bool, s: seq<T>)
    ensures |Filter(keep, s)| <= |s|
  {
    if |s| > 0 {
      FilterLength(keep, s[..|s| - 1]);
    }
  }

  function Count<T(==)>(s: seq<T>, x: T): (n: nat)
    ensures n <= |s|
    ensures n > 0 <==> x in s
  {
    if |s| == 0 then 0 else Count(s[..|s| - 1], x) + (if s[|s| - 1] == x then 1 else 0)
  }

  lemma {:induction false} CountAppend<T>(a: seq<T>, b: seq<T>, x: T)
    ensures Count(a + b, x) == Count(a, x) + Count(b, x)
    decreases |b|
  {
    if |b| > 0 {
      CountAppend(a, b[..|b| - 1], x);
      assert (a + b)[..|a + b| - 1] == a + b[..|b| - 1];
    } else {
      assert a + b == a;
    }
  }

  predicate NoDup<T(==)>(s: seq<T>) {
    forall i, j | 0 <= i < j < |s| :: s[i] != s[j]
  }

  /** Two lists without repeats and without common members join into one
      without repeats. */
  lemma NoDupAppend<T>(a: seq<T>, b: seq<T>)
    requires NoDup(a) && NoDup(b)
    requires forall i, j | 0 <= i < |a| && 0 <= j < |b| :: a[i] != b[j]
    ensures NoDup(a + b)
  {
    forall i, j | 0 <= i < j < |a + b| ensures (a + b)[i] != (a + b)[j] {
      if j < |a| {
      } else if i >= |a| {
        assert (a + b)[i] == b[i - |a|] && (a + b)[j] == b[j - |a|];
      } else {
        assert (a + b)[j] == b[j - |a|];
      }
    }
  }

  /** The same, with the common members excluded by membership. */
  lemma NoDupAppendIn<T>(a: seq<T>, b: seq<T>)
    requires NoDup(a) && NoDup(b)
    requires forall x | x in b :: x !in a
    ensures NoDup(a + b)
  {
    forall i, j | 0 <= i < |a| && 0 <= j < |b| ensures a[i] != b[j] {
      assert b[j] in b;
    }
    NoDupAppend(a, b);
  }
}
