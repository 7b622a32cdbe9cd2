/** The reshaping that the interstitial-water and age-depth loaders share.
    Multi-valued cells are split and stacked into long tables of readings
    keyed by (sample_key, rep_key); outer merges fold the readings back into
    one wide row per key; positional many-to-one column maps reduce a group
    of source columns to one canonical column. */
module Reshape {
  import opened Wrappers
  import opened Seqs
  import opened Frames
  import opened Keys

  // ---------------------------------------------------------------------
  // long tables

  /** One value of a long table: the sample and replicate it belongs to,
      the column it fills, and the value. */
  datatype Reading = Reading(sample: nat, rep: nat, column: string, value: Cell)

  /** `split(...).apply(pd.Series)` then `stack()`: the pieces of every
      row, row after row, each paired with its row's sample key. */
  function Stacked(keys: seq<nat>, pieces: seq<seq<Cell>>): (p: seq<(nat, Cell)>)
    requires |keys| == |pieces|
  {
    if |keys| == 0 then []
    else
      var n := |keys| - 1;
      Stacked(keys[..n], pieces[..n]) + Tagged(keys[n], pieces[n])
  }

  /** The pieces of one row, each paired with the row's sample key. */
  function Tagged(key: nat, cells: seq<Cell>): (p: seq<(nat, Cell)>)
    ensures |p| == |cells| && forall j | 0 <= j < |cells| :: p[j] == (key, cells[j])
  {
    Map((x: Cell) => (key, x), cells)
  }

  function SampleOf(e: (nat, Cell)): nat {
    e.0
  }

  /** The sample keys of a stacked column, in order. */
  function SamplesOf(p: seq<(nat, Cell)>): (ks: seq<nat>)
    ensures |ks| == |p| && forall i | 0 <= i < |p| :: ks[i] == p[i].0
  {
    Map(SampleOf, p)
  }

  /** The readings of one stacked column: replicate numbers are
      `groupby('sample_key').cumcount() + 1` over the stacked rows. */
  function ColumnReadings(column: string, p: seq<(nat, Cell)>): (rs: seq<Reading>)
    ensures |rs| == |p|
    ensures forall i | 0 <= i < |p| :: rs[i].column == column && rs[i].sample == p[i].0 && rs[i].value == p[i].1
    ensures forall i | 0 <= i < |p| :: rs[i].rep == RepKeys(SamplesOf(p))[i]
  {
    var reps := RepKeys(SamplesOf(p));
    seq(|p|, i requires 0 <= i < |p| => Reading(p[i].0, reps[i], column, p[i].1))
  }

  /** How many pieces the rows of sample `s` hold in all. */
  function PieceCount(keys: seq<nat>, pieces: seq<seq<Cell>>, s: nat): nat
    requires |keys| == |pieces|
  {
    if |keys| == 0 then 0
    else
      var n := |keys| - 1;
      PieceCount(keys[..n], pieces[..n], s) + (if keys[n] == s then |pieces[n]| else 0)
  }

  lemma {:induction false} CountTagged(key: nat, cells: seq<Cell>, s: nat)
    ensures Count(SamplesOf(Tagged(key, cells)), s) == if key == s then |cells| else 0
    decreases |cells|
  {
    if |cells| > 0 {
      var init := cells[..|cells| - 1];
      CountTagged(key, init, s);
      assert SamplesOf(Tagged(key, cells))[..|cells| - 1] == SamplesOf(Tagged(key, init));
    }
  }

  /** A sample has as many stacked rows as its rows hold pieces. */
  lemma {:induction false} StackedCount(keys: seq<nat>, pieces: seq<seq<Cell>>, s: nat)
    requires |keys| == |pieces|
    ensures Count(SamplesOf(Stacked(keys, pieces)), s) == PieceCount(keys, pieces, s)
  {
    if |keys| > 0 {
      var n := |keys| - 1;
      var a, b := Stacked(keys[..n], pieces[..n]), Tagged(keys[n], pieces[n]);
      StackedCount(keys[..n], pieces[..n], s);
      assert SamplesOf(a + b) == SamplesOf(a) + SamplesOf(b);
      CountAppend(SamplesOf(a), SamplesOf(b), s);
      CountTagged(keys[n], pieces[n], s);
    }
  }

  /** A sample whose key is on no row has no pieces. */
  lemma {:induction false} PieceCountAbsent(keys: seq<nat>, pieces: seq<seq<Cell>>, s: nat)
    requires |keys| == |pieces| && s !in keys
    ensures PieceCount(keys, pieces, s) == 0
  {
    if |keys| > 0 {
      PieceCountAbsent(keys[..|keys| - 1], pieces[..|keys| - 1], s);
    }
  }

  lemma {:induction false} PieceCountSplit(keys: seq<nat>, pieces: seq<seq<Cell>>, n: nat, s: nat)
    requires |keys| == |pieces| && n <= |keys|
    ensures PieceCount(keys, pieces, s) ==
      PieceCount(keys[..n], pieces[..n], s) + PieceCount(keys[n..], pieces[n..], s)
    decreases |keys| - n
  {
    if n < |keys| {
      var m := |keys| - 1;
      PieceCountSplit(keys[..m], pieces[..m], n, s);
      assert keys[..m][..n] == keys[..n] && pieces[..m][..n] == pieces[..n];
      assert keys[n..][..m - n] == keys[..m][n..] && pieces[n..][..m - n] == pieces[..m][n..];
    } else {
      assert keys[..n] == keys && pieces[..n] == pieces;
      assert keys[n..] == [] && pieces[n..] == [];
    }
  }

  /** A sample that occupies a single row holds exactly that row's pieces. */
  lemma {:induction false} PieceCountSingle(keys: seq<nat>, pieces: seq<seq<Cell>>, n: nat)
    requires |keys| == |pieces| && n < |keys|
    requires forall i | 0 <= i < |keys| && i != n :: keys[i] != keys[n]
    ensures PieceCount(keys, pieces, keys[n]) == |pieces[n]|
  {
    var s := keys[n];
    PieceCountSplit(keys, pieces, n, s);
    PieceCountSplit(keys[n..], pieces[n..], 1, s);
    assert s !in keys[..n];
    PieceCountAbsent(keys[..n], pieces[..n], s);
    assert s !in keys[n..][1..];
    PieceCountAbsent(keys[n..][1..], pieces[n..][1..], s);
    var one, onep := keys[n..][..1], pieces[n..][..1];
    assert one[..0] == [] && onep[..0] == [];
  }

  /** The stacked pieces of a prefix of the rows are a prefix of the stack. */
  lemma {:induction false} StackedPrefix(keys: seq<nat>, pieces: seq<seq<Cell>>, n: nat)
    requires |keys| == |pieces| && n <= |keys|
    ensures var a := Stacked(keys[..n], pieces[..n]);
      |a| <= |Stacked(keys, pieces)| && Stacked(keys, pieces)[..|a|] == a
    decreases |keys| - n
  {
    if n < |keys| {
      var m := |keys| - 1;
      StackedPrefix(keys[..m], pieces[..m], n);
      assert keys[..m][..n] == keys[..n] && pieces[..m][..n] == pieces[..n];
    } else {
      assert keys[..n] == keys && pieces[..n] == pieces;
    }
  }

  /** The pieces of row `n` follow the pieces of the rows before it. */
  lemma {:induction false} StackedRow(keys: seq<nat>, pieces: seq<seq<Cell>>, n: nat, j: nat)
    requires |keys| == |pieces| && n < |keys| && j < |pieces[n]|
    ensures var before := Stacked(keys[..n], pieces[..n]);
      var p := Stacked(keys, pieces);
      |before| + j < |p| && p[|before| + j] == (keys[n], pieces[n][j]) &&
      p[..|before| + j] == before + Tagged(keys[n], pieces[n][..j])
  {
    var before := Stacked(keys[..n], pieces[..n]);
    var here := Stacked(keys[..n + 1], pieces[..n + 1]);
    assert keys[..n + 1][..n] == keys[..n] && pieces[..n + 1][..n] == pieces[..n];
    assert here == before + Tagged(keys[n], pieces[n]);
    StackedPrefix(keys, pieces, n + 1);
    var p := Stacked(keys, pieces);
    assert p[..|here|] == here;
    var at := |before| + j;
    assert p[..at] == here[..at];
    assert here[..at] == before + Tagged(keys[n], pieces[n])[..j];
    assert Tagged(keys[n], pieces[n])[..j] == Tagged(keys[n], pieces[n][..j]);
  }

  lemma SamplesOfSplit(p: seq<(nat, Cell)>, a: seq<(nat, Cell)>, b: seq<(nat, Cell)>, at: nat)
    requires at <= |p| && p[..at] == a + b
    ensures SamplesOf(p)[..at] == SamplesOf(a) + SamplesOf(b)
  {
    var l, r := SamplesOf(p)[..at], SamplesOf(a) + SamplesOf(b);
    assert |l| == |r|;
    forall i | 0 <= i < |l| ensures l[i] == r[i] {
      assert l[i] == p[i].0 == (a + b)[i].0;
    }
  }

  /** Before the `j`-th piece of a sample's only row, the stack holds `j`
      pieces of that sample. */
  lemma {:induction false} CountBeforePiece(keys: seq<nat>, pieces: seq<seq<Cell>>, n: nat, j: nat)
    requires |keys| == |pieces| && n < |keys| && j < |pieces[n]|
    requires forall i | 0 <= i < |keys| && i != n :: keys[i] != keys[n]
    ensures var at := |Stacked(keys[..n], pieces[..n])| + j;
      at < |Stacked(keys, pieces)| && Count(SamplesOf(Stacked(keys, pieces))[..at], keys[n]) == j
  {
    var s := keys[n];
    var before := Stacked(keys[..n], pieces[..n]);
    var p := Stacked(keys, pieces);
    var at := |before| + j;
    var tail := Tagged(s, pieces[n][..j]);
    StackedRow(keys, pieces, n, j);
    SamplesOfSplit(p, before, tail, at);
    StackedCount(keys[..n], pieces[..n], s);
    assert s !in keys[..n];
    PieceCountAbsent(keys[..n], pieces[..n], s);
    CountAppend(SamplesOf(before), SamplesOf(tail), s);
    CountTagged(s, pieces[n][..j], s);
  }

  /** The `j`-th piece of the row `n` of a sample that occupies only that
      row gets replicate number `j + 1`. */
  lemma {:induction false} RepOfPiece(column: string, keys: seq<nat>, pieces: seq<seq<Cell>>, n: nat, j: nat)
    requires |keys| == |pieces| && n < |keys| && j < |pieces[n]|
    requires forall i | 0 <= i < |keys| && i != n :: keys[i] != keys[n]
    ensures var p := Stacked(keys, pieces);
      var at := |Stacked(keys[..n], pieces[..n])| + j;
      var rs := ColumnReadings(column, p);
      at < |rs| && rs[at] == Reading(keys[n], j + 1, column, pieces[n][j])
  {
    var p := Stacked(keys, pieces);
    var at := |Stacked(keys[..n], pieces[..n])| + j;
    StackedRow(keys, pieces, n, j);
    CountBeforePiece(keys, pieces, n, j);
    var ks := SamplesOf(p);
    assert ks[at] == keys[n];
    assert RepKeys(ks)[at] == 1 + Count(ks[..at], ks[at]);
  }

  // ---------------------------------------------------------------------
  // folding readings into rows

  /** The value an outer merge of the per-column tables puts in column `c`
      of row (s, r): the first reading for that cell, missing when there
      is none. */
  function Lookup(rs: seq<Reading>, s: nat, r: nat, c: string): Cell {
    if |rs| == 0 then Missing
    else if Matches(rs[0], s, r, c) then rs[0].value
    else Lookup(rs[1..], s, r, c)
  }

  /** Whether some reading belongs to row (s, r): the rows of an outer
      merge are the keys of all its tables. */
  function HasKey(rs: seq<Reading>, s: nat, r: nat): bool {
    |rs| > 0 && ((rs[0].sample == s && rs[0].rep == r) || HasKey(rs[1..], s, r))
  }

  /** Reading `x` fills column `c` of row (s, r). */
  predicate Matches(x: Reading, s: nat, r: nat, c: string) {
    x.sample == s && x.rep == r && x.column == c
  }

  predicate SameCell(a: Reading, b: Reading) {
    a.sample == b.sample && a.rep == b.rep && a.column == b.column
  }

  /** A row exists exactly when some reading carries its key. */
  lemma {:induction false} HasKeyIff(rs: seq<Reading>, s: nat, r: nat)
    ensures HasKey(rs, s, r) <==> exists i | 0 <= i < |rs| :: rs[i].sample == s && rs[i].rep == r
  {
    if |rs| > 0 {
      HasKeyIff(rs[1..], s, r);
      if exists i | 0 <= i < |rs| :: rs[i].sample == s && rs[i].rep == r {
        var i :| 0 <= i < |rs| && rs[i].sample == s && rs[i].rep == r;
        if i > 0 {
          assert rs[1..][i - 1] == rs[i];
        }
      }
    }
  }

  /** A reading that no other reading competes with is the merged value. */
  lemma {:induction false} LookupUnique(rs: seq<Reading>, i: nat)
    requires i < |rs|
    requires forall j | 0 <= j < i :: !SameCell(rs[j], rs[i])
    ensures Lookup(rs, rs[i].sample, rs[i].rep, rs[i].column) == rs[i].value
  {
    if i > 0 {
      assert !SameCell(rs[0], rs[i]);
      forall j | 0 <= j < i - 1 ensures !SameCell(rs[1..][j], rs[1..][i - 1]) {
        assert rs[1..][j] == rs[j + 1];
      }
      LookupUnique(rs[1..], i - 1);
    }
  }

  /** A cell no reading fills is missing. */
  lemma {:induction false} LookupAbsent(rs: seq<Reading>, s: nat, r: nat, c: string)
    requires forall j | 0 <= j < |rs| :: !Matches(rs[j], s, r, c)
    ensures Lookup(rs, s, r, c) == Missing
  {
    if |rs| > 0 {
      assert forall j | 0 <= j < |rs[1..]| :: rs[1..][j] == rs[j + 1];
      LookupAbsent(rs[1..], s, r, c);
    }
  }

  /** Readings of other cells do not disturb a cell's value. */
  lemma {:induction false} LookupSkip(a: seq<Reading>, b: seq<Reading>, s: nat, r: nat, c: string)
    requires forall j | 0 <= j < |a| :: !Matches(a[j], s, r, c)
    ensures Lookup(a + b, s, r, c) == Lookup(b, s, r, c)
  {
    if |a| > 0 {
      assert (a + b)[1..] == a[1..] + b;
      assert forall j | 0 <= j < |a[1..]| :: a[1..][j] == a[j + 1];
      LookupSkip(a[1..], b, s, r, c);
    } else {
      assert a + b == b;
    }
  }

  /** A cell filled only from the first readings keeps their value. */
  lemma {:induction false} LookupFront(a: seq<Reading>, b: seq<Reading>, s: nat, r: nat, c: string)
    requires forall j | 0 <= j < |b| :: !Matches(b[j], s, r, c)
    ensures Lookup(a + b, s, r, c) == Lookup(a, s, r, c)
  {
    if |a| > 0 {
      assert (a + b)[1..] == a[1..] + b;
      LookupFront(a[1..], b, s, r, c);
    } else {
      assert a + b == b;
      LookupAbsent(b, s, r, c);
    }
  }

  lemma {:induction false} HasKeyAppend(a: seq<Reading>, b: seq<Reading>, s: nat, r: nat)
    ensures HasKey(a + b, s, r) <==> HasKey(a, s, r) || HasKey(b, s, r)
  {
    HasKeyIff(a + b, s, r);
    HasKeyIff(a, s, r);
    HasKeyIff(b, s, r);
    if HasKey(a, s, r) {
      var i :| 0 <= i < |a| && a[i].sample == s && a[i].rep == r;
      assert (a + b)[i] == a[i];
    }
    if HasKey(b, s, r) {
      var i :| 0 <= i < |b| && b[i].sample == s && b[i].rep == r;
      assert (a + b)[|a| + i] == b[i];
    }
  }

  /** Within one stacked column no two readings share a (sample, rep) key. */
  lemma {:induction false} ColumnReadingsUnique(column: string, p: seq<(nat, Cell)>, i: nat, j: nat)
    requires i < j < |p|
    ensures var rs := ColumnReadings(column, p); !SameCell(rs[i], rs[j])
  {
    RepKeysUnique(SamplesOf(p), i, j);
  }

  /** Row (s, r) draws on a stacked column exactly when `r` is between 1
      and the number of pieces the sample holds in that column. */
  lemma {:induction false} ColumnHasKey(column: string, keys: seq<nat>, pieces: seq<seq<Cell>>, s: nat, r: nat)
    requires |keys| == |pieces|
    ensures HasKey(ColumnReadings(column, Stacked(keys, pieces)), s, r) <==>
      1 <= r <= PieceCount(keys, pieces, s)
  {
    var p := Stacked(keys, pieces);
    var rs := ColumnReadings(column, p);
    HasKeyIff(rs, s, r);
    RepKeysContiguous(SamplesOf(p), s, r);
    StackedCount(keys, pieces, s);
    if HasKey(rs, s, r) {
      var i :| 0 <= i < |rs| && rs[i].sample == s && rs[i].rep == r;
      assert SamplesOf(p)[i] == s && RepKeys(SamplesOf(p))[i] == r;
    }
    if 1 <= r <= PieceCount(keys, pieces, s) {
      var i :| 0 <= i < |p| && SamplesOf(p)[i] == s && RepKeys(SamplesOf(p))[i] == r;
      assert rs[i].sample == s && rs[i].rep == r;
    }
  }

  // ---------------------------------------------------------------------
  // the rows of the merged table

  /** Every (sample, rep) pair with sample below `S` and rep from 1 to `R`,
      by sample and then by rep: the order of an outer merge's sorted keys. */
  function Grid(S: nat, R: nat): (g: seq<(nat, nat)>)
    ensures |g| == S * R
  {
    if S == 0 then [] else Grid(S - 1, R) + GridRow(S - 1, R)
  }

  function GridRow(s: nat, R: nat): (g: seq<(nat, nat)>)
    ensures |g| == R && forall j | 0 <= j < R :: g[j] == (s, j + 1)
  {
    seq(R, j requires 0 <= j < R => (s, j + 1))
  }

  /** Key `a` sorts before key `b`. */
  predicate Before(a: (nat, nat), b: (nat, nat)) {
    a.0 < b.0 || (a.0 == b.0 && a.1 < b.1)
  }

  predicate Ascending(ks: seq<(nat, nat)>) {
    forall i, j | 0 <= i < j < |ks| :: Before(ks[i], ks[j])
  }

  lemma {:induction false} GridShape(S: nat, R: nat)
    ensures forall k | k in Grid(S, R) :: k.0 < S && 1 <= k.1 <= R
    ensures Ascending(Grid(S, R))
  {
    if S > 0 {
      GridShape(S - 1, R);
      var a, b := Grid(S - 1, R), GridRow(S - 1, R);
      forall i, j | 0 <= i < j < |a + b| ensures Before((a + b)[i], (a + b)[j]) {
        if j >= |a| && i < |a| {
          assert a[i] in a;
        }
      }
    }
  }

  lemma {:induction false} GridMembers(S: nat, R: nat, s: nat, r: nat)
    requires s < S && 1 <= r <= R
    ensures (s, r) in Grid(S, R)
  {
    if s < S - 1 {
      GridMembers(S - 1, R, s, r);
    } else {
      assert GridRow(S - 1, R)[r - 1] == (s, r);
    }
  }

  /** The rows of the merged table: the keys some reading carries, in
      sorted order. */
  function MergedKeys(rs: seq<Reading>, S: nat, R: nat): seq<(nat, nat)> {
    Filter((k: (nat, nat)) => HasKey(rs, k.0, k.1), Grid(S, R))
  }

  /** Every merged key names a sample below `S` and a replicate from 1 to
      `R`. */
  lemma MergedKeysBounded(rs: seq<Reading>, S: nat, R: nat)
    ensures forall k | k in MergedKeys(rs, S, R) :: k.0 < S && 1 <= k.1 <= R
  {
    GridShape(S, R);
    FilterMembers((k: (nat, nat)) => HasKey(rs, k.0, k.1), Grid(S, R));
  }

  /** Dropping keys from an ascending sequence leaves it ascending. */
  lemma {:induction false} FilterAscending(keep: ((nat, nat)) -> bool, ks: seq<(nat, nat)>)
    requires Ascending(ks)
    ensures Ascending(Filter(keep, ks))
  {
    var f := Filter(keep, ks);
    FilterExact(keep, ks);
    var ix := KeptIndices(keep, ks);
    forall i, j | 0 <= i < j < |f| ensures Before(f[i], f[j]) {
      assert f[i] == ks[ix[i]] && f[j] == ks[ix[j]];
    }
  }

  /** Every reading names a sample below `S` and a replicate from 1 to `R`. */
  predicate InGrid(rs: seq<Reading>, S: nat, R: nat) {
    forall i | 0 <= i < |rs| :: rs[i].sample < S && 1 <= rs[i].rep <= R
  }

  /** The merged table has one row per key of the readings, in sorted
      order, each key once. */

  lemma {:induction false} MergedKeysExact(rs: seq<Reading>, S: nat, R: nat)
    requires InGrid(rs, S, R)
    ensures Ascending(MergedKeys(rs, S, R))
    ensures forall k: (nat, nat) :: k in MergedKeys(rs, S, R) <==> HasKey(rs, k.0, k.1)
  {
    var keep := (k: (nat, nat)) => HasKey(rs, k.0, k.1);
    var g := Grid(S, R);
    GridShape(S, R);
    FilterAscending(keep, g);
    FilterMembers(keep, g);
    forall k: (nat, nat) | HasKey(rs, k.0, k.1) ensures k in g {
      HasKeyGrid(rs, S, R, k.0, k.1);
    }
  }

  lemma {:induction false} HasKeyGrid(rs: seq<Reading>, S: nat, R: nat, s: nat, r: nat)
    requires InGrid(rs, S, R) && HasKey(rs, s, r)
    ensures (s, r) in Grid(S, R)
  {
    HasKeyIff(rs, s, r);
    var i :| 0 <= i < |rs| && rs[i].sample == s && rs[i].rep == r;
    GridMembers(S, R, s, r);
  }

  /** Ascending keys are pairwise distinct. */
  lemma {:induction false} AscendingDistinct(ks: seq<(nat, nat)>, i: nat, j: nat)
    requires Ascending(ks) && i < |ks| && j < |ks| && i != j
    ensures ks[i] != ks[j]
  {
    if i < j {
      assert Before(ks[i], ks[j]);
    } else {
      assert Before(ks[j], ks[i]);
    }
  }

  /** A wide table with one row per key: the header names the columns, and
      `cell` gives the value of each column on the row of each key. */
  function Widen(keys: seq<(nat, nat)>, header: seq<string>, cell: ((nat, nat), string) -> Cell): (f: Frame)
    ensures f.columns == header && |f.rows| == |keys|
    ensures forall i, c | 0 <= i < |keys| && c in header :: Get(f, i, c) == cell(keys[i], c)
  {
    var f := Frame(header, Map((k: (nat, nat)) => Map((c: string) => cell(k, c), header), keys));
    assert forall i, c | 0 <= i < |keys| && c in header :: Get(f, i, c) == cell(keys[i], header[Find(header, c).value]);
    f
  }

  /** The value of column `c` on the merged row with key `k`: the keys
      themselves, the sample's labels (every row of a sample carries the
      same labels, so the merge on them adds no rows), or the reading for
      that cell, missing when no table supplies it. */
  function MergedCell(rs: seq<Reading>, labelNames: seq<string>, labels: seq<Row>, k: (nat, nat), c: string): Cell {
    if c == "sample_key" then KeyCell(k.0)
    else if c == "rep_key" then KeyCell(k.1)
    else if c in labelNames then (if k.0 < |labels| then Value(labelNames, labels[k.0], c) else Missing)
    else Lookup(rs, k.0, k.1, c)
  }

  /** The outer merge of long tables on (sample_key, rep_key), joined to
      the table of sample labels: one row per key, in key order. */
  function Merged(rs: seq<Reading>, labelNames: seq<string>, labels: seq<Row>, R: nat, header: seq<string>): (f: Frame)
    ensures f.columns == header && |f.rows| == |MergedKeys(rs, |labels|, R)|
    ensures forall i, c | 0 <= i < |f.rows| && c in header ::
      Get(f, i, c) == MergedCell(rs, labelNames, labels, MergedKeys(rs, |labels|, R)[i], c)
  {
    Widen(MergedKeys(rs, |labels|, R), header,
      (k: (nat, nat), c: string) => MergedCell(rs, labelNames, labels, k, c))
  }

  /** A key some reading carries has a row in the merged table. */
  lemma MergedRowOf(rs: seq<Reading>, S: nat, R: nat, s: nat, r: nat) returns (k: nat)
    requires InGrid(rs, S, R) && HasKey(rs, s, r)
    ensures k < |MergedKeys(rs, S, R)| && MergedKeys(rs, S, R)[k] == (s, r)
  {
    MergedKeysExact(rs, S, R);
    var ks := MergedKeys(rs, S, R);
    assert (s, r) in ks;
    k :| 0 <= k < |ks| && ks[k] == (s, r);
  }

  /** A reading that is the first for its cell fixes the cell. */
  lemma {:induction false} LookupPrefix(a: seq<Reading>, b: seq<Reading>, s: nat, r: nat, c: string, j: nat)
    requires j < |a| && Matches(a[j], s, r, c)
    ensures Lookup(a + b, s, r, c) == Lookup(a, s, r, c)
  {
    if !Matches(a[0], s, r, c) {
      assert (a + b)[1..] == a[1..] + b;
      LookupPrefix(a[1..], b, s, r, c, j - 1);
    }
  }

  /** A cell found in some reading makes a row. */
  lemma {:induction false} LookupHasKey(rs: seq<Reading>, j: nat)
    requires j < |rs|
    ensures HasKey(rs, rs[j].sample, rs[j].rep)
  {
    if j > 0 && !(rs[0].sample == rs[j].sample && rs[0].rep == rs[j].rep) {
      assert rs[1..][j - 1] == rs[j];
      LookupHasKey(rs[1..], j - 1);
    }
  }

  function KeyCell(k: nat): Cell {
    Num(k as real)
  }

  lemma {:induction false} KeyCellInjective(a: nat, b: nat)
    ensures KeyCell(a) == KeyCell(b) <==> a == b
  {
  }

  // ---------------------------------------------------------------------
  // positional many-to-one column maps

  /** `dict(zip(ks, vs))`: `zip` stops at the shorter list and a repeated
      key keeps its last value. */
  function ZipMap(ks: seq<string>, vs: seq<string>): map<string, string> {
    var n := if |ks| < |vs| then |ks| else |vs|;
    if n == 0 then map[] else ZipMap(ks[..n - 1], vs[..n - 1])[ks[n - 1] := vs[n - 1]]
  }

  /** The keys of the map are the columns zip reached. */
  lemma {:induction false} ZipMapKeys(ks: seq<string>, vs: seq<string>, c: string)
    ensures c in ZipMap(ks, vs) <==> exists k | 0 <= k < |ks| && k < |vs| :: ks[k] == c
  {
    var n := if |ks| < |vs| then |ks| else |vs|;
    if n > 0 {
      var ks', vs' := ks[..n - 1], vs[..n - 1];
      ZipMapKeys(ks', vs', c);
      if exists k | 0 <= k < |ks| && k < |vs| :: ks[k] == c {
        var k :| 0 <= k < |ks| && k < |vs| && ks[k] == c;
        if k < n - 1 {
          assert ks'[k] == c;
        }
      }
      if exists k | 0 <= k < |ks'| && k < |vs'| :: ks'[k] == c {
        var k :| 0 <= k < |ks'| && k < |vs'| && ks'[k] == c;
        assert ks[k] == c;
      }
    }
  }

  /** Over columns without repeated names, column `k` maps to the `k`-th
      name when there is one. */
  lemma {:induction false} ZipMapAt(ks: seq<string>, vs: seq<string>, k: nat)
    requires NoDup(ks) && k < |ks| && k < |vs|
    ensures ks[k] in ZipMap(ks, vs) && ZipMap(ks, vs)[ks[k]] == vs[k]
  {
    var n := if |ks| < |vs| then |ks| else |vs|;
    if k < n - 1 {
      var ks', vs' := ks[..n - 1], vs[..n - 1];
      assert NoDup(ks') by {
        forall i, j | 0 <= i < j < |ks'| ensures ks'[i] != ks'[j] {
          assert ks'[i] == ks[i] && ks'[j] == ks[j];
        }
      }
      ZipMapAt(ks', vs', k);
      assert ks[n - 1] != ks[k];
    }
  }

  /** Column `k` belongs to group `g`. */
  predicate InGroup(header: seq<string>, m: map<string, string>, g: string, k: nat) {
    k < |header| && header[k] in m && m[header[k]] == g
  }

  /** Some column is mapped to `g`. */
  predicate Mapped(header: seq<string>, m: map<string, string>, g: string) {
    exists k: nat | k < |header| :: InGroup(header, m, g, k)
  }

  /** The cells of one row that fall in group `g`, in column order. */
  function GroupCells(header: seq<string>, m: map<string, string>, row: Row, g: string): seq<Cell> {
    Map((k: nat) => At(row, k), Filter((k: nat) => InGroup(header, m, g, k), Indices(|header|)))
  }

  /** The group's cells are exactly the row's cells in the group's columns,
      left to right. */
  lemma {:induction false} GroupCellsExact(header: seq<string>, m: map<string, string>, row: Row, g: string)
    ensures var ix := KeptIndices((k: nat) => InGroup(header, m, g, k), Indices(|header|));
      |GroupCells(header, m, row, g)| == |ix| &&
      (forall j | 0 <= j < |ix| :: InGroup(header, m, g, ix[j]) && GroupCells(header, m, row, g)[j] == At(row, ix[j])) &&
      (forall k: nat | InGroup(header, m, g, k) :: k in ix) &&
      (forall i, j | 0 <= i < j < |ix| :: ix[i] < ix[j])
  {
    var keep := (k: nat) => InGroup(header, m, g, k);
    var idx := Indices(|header|);
    FilterExact(keep, idx);
    var ix := KeptIndices(keep, idx);
    forall j | 0 <= j < |ix| ensures idx[ix[j]] == ix[j] {
    }
    forall k: nat | InGroup(header, m, g, k) ensures k in ix {
      assert idx[k] == k;
    }
  }

  /** The names the columns are mapped to, in column order. */
  function MappedNames(header: seq<string>, m: map<string, string>): seq<string> {
    if |header| == 0 then []
    else MappedNames(header[..|header| - 1], m) + (if header[|header| - 1] in m then [m[header[|header| - 1]]] else [])
  }

  /** The groups: each mapped name once. */
  function GroupNames(header: seq<string>, m: map<string, string>): (gs: seq<string>)
    ensures NoDup(gs)
  {
    Distinct(MappedNames(header, m))
  }

  lemma {:induction false} MappedNamesOf(header: seq<string>, m: map<string, string>, g: string)
    ensures g in MappedNames(header, m) <==> Mapped(header, m, g)
  {
    if |header| > 0 {
      var n := |header| - 1;
      var h' := header[..n];
      var last := if header[n] in m then [m[header[n]]] else [];
      assert MappedNames(header, m) == MappedNames(h', m) + last;
      MappedNamesOf(h', m, g);
      if g in MappedNames(header, m) {
        if g in MappedNames(h', m) {
          var k: nat :| k < |h'| && InGroup(h', m, g, k);
          assert h'[k] == header[k];
          assert InGroup(header, m, g, k);
        } else {
          assert g in last;
          assert InGroup(header, m, g, n);
        }
      }
      if Mapped(header, m, g) {
        var k: nat :| k < |header| && InGroup(header, m, g, k);
        if k < n {
          assert InGroup(h', m, g, k);
        } else {
          assert g in last;
        }
      }
    }
  }

  /** `df.groupby(by=dict(zip(df.columns, names)), axis=1).agg(combine)`:
      one column per group, each row's group cells combined. */
  function Grouped(f: Frame, names: seq<string>, combine: seq<Cell> -> Cell): (g: Frame)
    ensures g.columns == GroupNames(f.columns, ZipMap(f.columns, names)) && |g.rows| == |f.rows|
  {
    var m := ZipMap(f.columns, names);
    var groups := GroupNames(f.columns, m);
    Frame(groups, Map((r: Row) => Map((c: string) => combine(GroupCells(f.columns, m, r, c)), groups), f.rows))
  }

  /** The groups are exactly the names some column is mapped to. */
  lemma {:induction false} GroupedColumns(f: Frame, names: seq<string>, combine: seq<Cell> -> Cell, g: string)
    ensures g in Grouped(f, names, combine).columns <==> Mapped(f.columns, ZipMap(f.columns, names), g)
  {
    var m := ZipMap(f.columns, names);
    var ms := MappedNames(f.columns, m);
    MappedNamesOf(f.columns, m, g);
    if g in ms {
      var k :| 0 <= k < |ms| && ms[k] == g;
    }
    if g in Distinct(ms) {
      DistinctFrom(ms);
      var k :| 0 <= k < |Distinct(ms)| && Distinct(ms)[k] == g;
    }
  }

  /** Each group column holds the combination of that row's cells in the
      columns mapped to the group. */
  lemma {:induction false} GroupedGet(f: Frame, names: seq<string>, combine: seq<Cell> -> Cell, i: nat, g: string)
    requires i < |f.rows| && g in Grouped(f, names, combine).columns
    ensures Get(Grouped(f, names, combine), i, g) ==
      combine(GroupCells(f.columns, ZipMap(f.columns, names), f.rows[i], g))
  {
    var h := Grouped(f, names, combine);
    var p := Find(h.columns, g).value;
    assert h.rows[i][p] == combine(GroupCells(f.columns, ZipMap(f.columns, names), f.rows[i], h.columns[p]));
  }

  // ---------------------------------------------------------------------
  // combining a group's cells

  function SumPresent(xs: seq<Cell>): real {
    if |xs| == 0 then 0.0
    else SumPresent(xs[..|xs| - 1]) + (if xs[|xs| - 1].Num? then xs[|xs| - 1].x else 0.0)
  }

  function CountPresent(xs: seq<Cell>): (n: nat)
    ensures n <= |xs|
  {
    if |xs| == 0 then 0
    else CountPresent(xs[..|xs| - 1]) + (if xs[|xs| - 1].Num? then 1 else 0)
  }

  /** `mean()` with NaN skipped: the mean of the numbers among the cells,
      missing when there are none. */
  function MeanPresent(xs: seq<Cell>): (r: Cell)
    ensures !r.Str?
    ensures r.Num? <==> CountPresent(xs) > 0
    ensures r.Num? ==> r.x * (CountPresent(xs) as real) == SumPresent(xs)
  {
    if CountPresent(xs) == 0 then Missing else Num(SumPresent(xs) / (CountPresent(xs) as real))
  }

  lemma {:induction false} CountPresentZero(xs: seq<Cell>)
    ensures CountPresent(xs) == 0 <==> forall j | 0 <= j < |xs| :: !xs[j].Num?
  {
    if |xs| > 0 {
      var init := xs[..|xs| - 1];
      CountPresentZero(init);
      assert forall j | 0 <= j < |init| :: init[j] == xs[j];
    }
  }

  /** When every number among the cells is `v`, their sum is `v` once per
      number. */
  lemma {:induction false} SumOfEqual(xs: seq<Cell>, v: real)
    requires forall j | 0 <= j < |xs| && xs[j].Num? :: xs[j].x == v
    ensures SumPresent(xs) == (CountPresent(xs) as real) * v
  {
    if |xs| > 0 {
      var init := xs[..|xs| - 1];
      assert forall j | 0 <= j < |init| :: init[j] == xs[j];
      SumOfEqual(init, v);
      var c := CountPresent(init) as real;
      if xs[|xs| - 1].Num? {
        assert (c + 1.0) * v == c * v + v;
      }
    }
  }

  /** Averaging agreeing replicate columns gives their common value. */
  lemma {:induction false} MeanOfEqual(xs: seq<Cell>, v: real)
    requires forall j | 0 <= j < |xs| && xs[j].Num? :: xs[j].x == v
    requires exists j | 0 <= j < |xs| :: xs[j].Num?
    ensures MeanPresent(xs) == Num(v)
  {
    CountPresentZero(xs);
    SumOfEqual(xs, v);
    var c := CountPresent(xs) as real;
    assert c > 0.0;
    assert MeanPresent(xs).Num?;
    var r := MeanPresent(xs).x;
    var sum := SumPresent(xs);
    assert r * c == sum && sum == c * v;
    Cancel(r, v, c, sum);
  }

  /** A positive factor cancels. */
  lemma Cancel(r: real, v: real, c: real, sum: real)
    requires c > 0.0 && r * c == sum && sum == c * v
    ensures r == v
  {
    assert (r - v) * c == 0.0;
  }

  /** Missing values do not count towards the mean. */
  lemma {:induction false} MeanSkipsMissing(xs: seq<Cell>, ys: seq<Cell>)
    requires forall j | 0 <= j < |ys| :: ys[j] == Missing
    ensures MeanPresent(xs + ys) == MeanPresent(xs)
    decreases |ys|
  {
    if |ys| > 0 {
      var init := ys[..|ys| - 1];
      assert (xs + ys)[..|xs + ys| - 1] == xs + init;
      MeanSkipsMissing(xs, init);
    } else {
      assert xs + ys == xs;
    }
  }

  /** `first()`: the first cell that is not missing, missing when all are. */
  function FirstPresent(xs: seq<Cell>): Cell {
    if |xs| == 0 then Missing else if xs[0] != Missing then xs[0] else FirstPresent(xs[1..])
  }

  /** The first present cell is one of the cells, and every cell before it
      is missing; the result is missing only when every cell is. */
  lemma {:induction false} FirstPresentAt(xs: seq<Cell>) returns (k: nat)
    ensures k <= |xs| && forall j | 0 <= j < k :: xs[j] == Missing
    ensures k < |xs| ==> FirstPresent(xs) == xs[k] != Missing
    ensures k == |xs| ==> FirstPresent(xs) == Missing
  {
    if |xs| == 0 || xs[0] != Missing {
      k := 0;
    } else {
      var k' := FirstPresentAt(xs[1..]);
      k := k' + 1;
      forall j | 0 <= j < k ensures xs[j] == Missing {
        if j > 0 {
          assert xs[j] == xs[1..][j - 1];
        }
      }
    }
  }
}
