/** Surrogate keys. Every loader numbers the distinct sample (or hole, or
    site) tuples of a table with `drop_duplicates().reset_index()` and joins
    the number back onto each row with a left merge; replicate keys are
    `groupby(key).cumcount() + 1`. */
module Keys {
  import opened Seqs

  /** `drop_duplicates()`: the first occurrence of each value, in order. */
  function Distinct<T(==)>(s: seq<T>): (d: seq<T>)
    ensures NoDup(d)
    ensures forall i | 0 <= i < |s| :: s[i] in d
    ensures |d| <= |s|
  {
    if |s| == 0 then []
    else
      var d := Distinct(s[..|s| - 1]);
      var x := s[|s| - 1];
      assert s == s[..|s| - 1] + [x];
      if x in d then d else d + [x]
  }

  /** Every distinct value occurs in the input. */
  lemma {:induction false} DistinctFrom<T>(s: seq<T>)
    ensures forall k | 0 <= k < |Distinct(s)| :: Distinct(s)[k] in s
  {
    if |s| > 0 {
      DistinctFrom(s[..|s| - 1]);
      assert s == s[..|s| - 1] + [s[|s| - 1]];
    }
  }

  /** The position of `x` in `s`, counting from its first occurrence. */
  function IndexOf<T(==)>(s: seq<T>, x: T): (i: nat)
    requires x in s
    ensures i < |s| && s[i] == x && x !in s[..i]
  {
    if s[0] == x then 0
    else
      var j := IndexOf(s[1..], x);
      assert s[..j + 1] == [s[0]] + s[1..][..j];
      j + 1
  }

  lemma IndexOfNoDup<T>(s: seq<T>, i: nat)
    requires NoDup(s) && i < |s|
    ensures IndexOf(s, s[i]) == i
  {
  }

  /** The key column: each row gets the row number, in the table of distinct
      tuples, of its own tuple (what the left merge onto that table joins). */
  function SampleKeys<T(==)>(s: seq<T>): (keys: seq<nat>)
    ensures |keys| == |s|
    ensures forall i | 0 <= i < |s| :: keys[i] < |Distinct(s)| && Distinct(s)[keys[i]] == s[i]
  {
    var d := Distinct(s);
    seq(|s|, i requires 0 <= i < |s| => IndexOf(d, s[i]))
  }

  /** Two rows share a key exactly when they share a tuple. */
  lemma KeysMatchTuples<T>(s: seq<T>, i: nat, j: nat)
    requires i < |s| && j < |s|
    ensures SampleKeys(s)[i] == SampleKeys(s)[j] <==> s[i] == s[j]
  {
    var d := Distinct(s);
    if s[i] == s[j] {
      assert SampleKeys(s)[i] == IndexOf(d, s[i]);
      assert SampleKeys(s)[j] == IndexOf(d, s[j]);
    }
  }

  /** The keys are dense: every number below the count of distinct tuples
      is some row's key. */
  lemma KeysDense<T>(s: seq<T>, k: nat)
    requires k < |Distinct(s)|
    ensures exists i | 0 <= i < |s| :: SampleKeys(s)[i] == k
  {
    var d := Distinct(s);
    DistinctFrom(s);
    assert d[k] in s;
    var i :| 0 <= i < |s| && s[i] == d[k];
    IndexOfNoDup(d, k);
    assert SampleKeys(s)[i] == k;
  }

  /** The distinct values of a prefix are a prefix of the distinct values. */
  ghost predicate IsPrefix<T>(a: seq<T>, b: seq<T>) {
    |a| <= |b| && a == b[..|a|]
  }

  /** One more element extends the distinct values when it is new. */
  lemma DistinctStep<T>(s: seq<T>, j: nat)
    requires j < |s|
    ensures Distinct(s[..j + 1]) == if s[j] in Distinct(s[..j]) then Distinct(s[..j]) else Distinct(s[..j]) + [s[j]]
  {
    var t := s[..j + 1];
    assert t[..|t| - 1] == s[..j];
  }

  lemma DistinctStepPrefix<T>(s: seq<T>, j: nat)
    requires j < |s|
    ensures IsPrefix(Distinct(s[..j]), Distinct(s[..j + 1]))
  {
    DistinctStep(s, j);
  }

  lemma PrefixTrans<T>(a: seq<T>, b: seq<T>, c: seq<T>)
    requires IsPrefix(a, b) && IsPrefix(b, c)
    ensures IsPrefix(a, c)
  {
    assert c[..|b|][..|a|] == c[..|a|];
  }

  lemma {:induction false} DistinctPrefix<T>(s: seq<T>, j: nat)
    requires j <= |s|
    ensures IsPrefix(Distinct(s[..j]), Distinct(s))
    decreases |s| - j
  {
    if j < |s| {
      var a, b, c := Distinct(s[..j]), Distinct(s[..j + 1]), Distinct(s);
      DistinctPrefix(s, j + 1);
      DistinctStepPrefix(s, j);
      PrefixTrans(a, b, c);
    } else {
      assert s[..j] == s;
    }
  }

  /** Keys are handed out in order of first occurrence: a row whose tuple
      is new takes the next unused number, and a repeated tuple reuses a
      number already given out. */
  lemma KeysByFirstOccurrence<T>(s: seq<T>, j: nat)
    requires j < |s|
    ensures s[j] !in s[..j] ==> SampleKeys(s)[j] == |Distinct(s[..j])|
    ensures s[j] in s[..j] ==> SampleKeys(s)[j] < |Distinct(s[..j])|
  {
    var d, p := Distinct(s), Distinct(s[..j]);
    DistinctPrefix(s, j);
    var k := SampleKeys(s)[j];
    assert d[k] == s[j];
    if s[j] !in s[..j] {
      DistinctPrefix(s, j + 1);
      DistinctStep(s, j);
      var q := Distinct(s[..j + 1]);
      DistinctFrom(s[..j]);
      assert s[j] !in p;
      assert q == p + [s[j]];
      assert d[|p|] == q[|p|] == s[j];
      assert k == |p|;
    } else {
      var i :| 0 <= i < j && s[..j][i] == s[j];
      assert s[..j][i] in p;
      var m :| 0 <= m < |p| && p[m] == s[j];
      assert d[m] == s[j];
      assert k == m;
    }
  }

  // ---------------------------------------------------------------------
  // replicate keys

  /** `groupby(key).cumcount() + 1`: one more than the number of earlier rows
      with the same key. */
  function RepKeys(keys: seq<nat>): (reps: seq<nat>)
    ensures |reps| == |keys|
  {
    seq(|keys|, i requires 0 <= i < |keys| => 1 + Count(keys[..i], keys[i]))
  }

  lemma {:induction false} CountPrefixGrows<T>(s: seq<T>, i: nat, j: nat)
    requires i < j <= |s|
    ensures Count(s[..j], s[i]) >= Count(s[..i], s[i]) + 1
    decreases j - i
  {
    if j == i + 1 {
      assert s[..j][..i] == s[..i];
    } else {
      CountPrefixGrows(s, i, j - 1);
      assert s[..j][..j - 1] == s[..j - 1];
    }
  }

  /** Replicate keys start at 1, and no two rows share a (key, rep) pair:
      within one key they strictly increase down the table. */
  lemma RepKeysUnique(keys: seq<nat>, i: nat, j: nat)
    requires i < j < |keys|
    ensures RepKeys(keys)[i] >= 1
    ensures keys[i] == keys[j] ==> RepKeys(keys)[i] < RepKeys(keys)[j]
    ensures (keys[i], RepKeys(keys)[i]) != (keys[j], RepKeys(keys)[j])
  {
    if keys[i] == keys[j] {
      CountPrefixGrows(keys, i, j);
    }
  }

  lemma RepKeysPrefix(keys: seq<nat>, n: nat)
    requires n <= |keys|
    ensures RepKeys(keys[..n]) == RepKeys(keys)[..n]
  {
    var p := keys[..n];
    forall i | 0 <= i < n ensures RepKeys(p)[i] == RepKeys(keys)[i] {
      assert p[..i] == keys[..i];
    }
  }

  /** A row's replicate number never exceeds the number of rows with its key. */
  lemma RepKeysBounded(keys: seq<nat>, i: nat)
    requires i < |keys|
    ensures 1 <= RepKeys(keys)[i] <= Count(keys, keys[i])
  {
    CountPrefixGrows(keys, i, |keys|);
    assert keys[..|keys|] == keys;
  }

  /** Every number from 1 to the number of rows with a key is the replicate
      number of one of them. */
  lemma {:induction false} RepKeysCover(keys: seq<nat>, k: nat, r: nat)
    requires 1 <= r <= Count(keys, k)
    ensures exists i | 0 <= i < |keys| :: keys[i] == k && RepKeys(keys)[i] == r
  {
    var n := |keys| - 1;
    var p := keys[..n];
    RepKeysPrefix(keys, n);
    if r <= Count(p, k) {
      RepKeysCover(p, k, r);
      var i :| 0 <= i < |p| && p[i] == k && RepKeys(p)[i] == r;
      assert keys[i] == k && RepKeys(keys)[i] == r;
    } else {
      assert keys[n] == k;
      assert RepKeys(keys)[n] == 1 + Count(p, k);
    }
  }

  /** The rows of one key carry exactly the replicate numbers 1..n, where n
      is the number of rows with that key. */
  lemma RepKeysContiguous(keys: seq<nat>, k: nat, r: nat)
    ensures (exists i | 0 <= i < |keys| :: keys[i] == k && RepKeys(keys)[i] == r) <==>
      1 <= r <= Count(keys, k)
  {
    if exists i | 0 <= i < |keys| :: keys[i] == k && RepKeys(keys)[i] == r {
      var i :| 0 <= i < |keys| && keys[i] == k && RepKeys(keys)[i] == r;
      RepKeysBounded(keys, i);
    }
    if 1 <= r <= Count(keys, k) {
      RepKeysCover(keys, k, r);
    }
  }
}
