/** Splitting multi-valued cells into replicate rows, as the ODP and IODP
    interstitial-water loaders do: every data column's cells are split,
    the pieces stacked under their sample keys and numbered within each
    sample, and the per-column tables outer-merged on (sample_key,
    rep_key). Each stacked piece is an entry whose row is the one-cell row
    `[piece]`, so the merge machinery of the card tables applies as is. */
module IwSplit {
  import opened Wrappers
  import opened Seqs
  import opened Frames
  import opened Keys
  import opened Reshape
  import opened IwChem

  /** The single column of a piece row. */
  const Piece: string := "value"

  /** `df[c].str.split(...)`: the pieces each row's cell splits into. */
  function ColumnPieces(f: Frame, c: string, split: Cell -> seq<Cell>): (ps: seq<seq<Cell>>)
    ensures |ps| == |f.rows| && forall i | 0 <= i < |f.rows| :: ps[i] == split(Get(f, i, c))
  {
    seq(|f.rows|, i requires 0 <= i < |f.rows| => split(Get(f, i, c)))
  }

  /** `.apply(pd.Series).stack()` and `groupby('sample_key').cumcount() + 1`:
      the pieces, row after row, each under its row's sample key and
      numbered among the pieces of that sample. */
  function PieceEntries(keys: seq<nat>, pieces: seq<seq<Cell>>): (es: seq<Entry>)
    requires |keys| == |pieces|
    ensures var p := Stacked(keys, pieces);
      |es| == |p| && forall q | 0 <= q < |p| :: es[q] == Entry(p[q].0, RepKeys(SamplesOf(p))[q], [p[q].1])
  {
    var p := Stacked(keys, pieces);
    var reps := RepKeys(SamplesOf(p));
    seq(|p|, q requires 0 <= q < |p| => Entry(p[q].0, reps[q], [p[q].1]))
  }

  /** Each column's table publishes its one piece under the column's name. */
  function PieceFields(names: seq<string>): (fields: seq<seq<(string, string)>>)
    ensures |fields| == |names| && forall t | 0 <= t < |names| :: fields[t] == [(Piece, names[t])]
  {
    seq(|names|, t requires 0 <= t < |names| => [(Piece, names[t])])
  }

  /** The stacked table of every listed column. */
  function SplitTables(f: Frame, keys: seq<nat>, names: seq<string>, split: Cell -> seq<Cell>): (tables: seq<seq<Entry>>)
    requires |keys| == |f.rows|
    ensures |tables| == |names| &&
      forall t | 0 <= t < |names| :: tables[t] == PieceEntries(keys, ColumnPieces(f, names[t], split))
  {
    seq(|names|, t requires 0 <= t < |names| => PieceEntries(keys, ColumnPieces(f, names[t], split)))
  }

  /** The readings of the outer merges of all stacked columns. */
  function SplitReadings(f: Frame, keys: seq<nat>, names: seq<string>, split: Cell -> seq<Cell>): seq<Reading>
    requires |keys| == |f.rows|
  {
    MergeReadings([Piece], SplitTables(f, keys, names, split), PieceFields(names), |names|)
  }

  /** The loop that splits one column after another and outer-merges each
      into the growing long table. */
  method MergeSplitColumns(f: Frame, keys: seq<nat>, names: seq<string>, split: Cell -> seq<Cell>)
      returns (rs: seq<Reading>)
    requires |keys| == |f.rows|
    ensures rs == SplitReadings(f, keys, names, split)
  {
    ghost var tables := SplitTables(f, keys, names, split);
    ghost var fields := PieceFields(names);
    rs := [];
    var t := 0;
    while t < |names|
      invariant t <= |names|
      invariant rs == MergeReadings([Piece], tables, fields, t)
    {
      var column := PieceEntries(keys, ColumnPieces(f, names[t], split));
      rs := rs + TableReadings([Piece], column, [(Piece, names[t])]);
      t := t + 1;
    }
  }

  /** The most pieces any column holds: no replicate number exceeds it. */
  function Longest(tables: seq<seq<Entry>>): (n: nat)
    ensures forall t | 0 <= t < |tables| :: |tables[t]| <= n
  {
    if |tables| == 0 then 0
    else
      var m := Longest(tables[..|tables| - 1]);
      assert forall t | 0 <= t < |tables| - 1 :: tables[..|tables| - 1][t] == tables[t];
      if |tables[|tables| - 1]| > m then |tables[|tables| - 1]| else m
  }

  /** A stacked column has unique keys, within the grid of the samples and
      of its own length. */
  lemma PieceEntriesApart(keys: seq<nat>, pieces: seq<seq<Cell>>, S: nat, R: nat)
    requires |keys| == |pieces| && (forall i | 0 <= i < |keys| :: keys[i] < S)
    requires |Stacked(keys, pieces)| <= R
    ensures KeysApart(PieceEntries(keys, pieces)) && EntriesIn(PieceEntries(keys, pieces), S, R)
  {
    var p := Stacked(keys, pieces);
    var es := PieceEntries(keys, pieces);
    var ks := SamplesOf(p);
    forall i, j | 0 <= i < j < |es| ensures es[i].sample != es[j].sample || es[i].rep != es[j].rep {
      RepKeysUnique(ks, i, j);
    }
    forall q | 0 <= q < |es| ensures es[q].sample < S && 1 <= es[q].rep <= R {
      StackedSamples(keys, pieces, q);
      RepKeysBounded(ks, q);
    }
  }

  /** Every stacked piece carries the key of some row. */
  lemma {:induction false} StackedSamples(keys: seq<nat>, pieces: seq<seq<Cell>>, q: nat)
    requires |keys| == |pieces| && q < |Stacked(keys, pieces)|
    ensures Stacked(keys, pieces)[q].0 in keys
  {
    var n := |keys| - 1;
    var before := Stacked(keys[..n], pieces[..n]);
    if q < |before| {
      StackedSamples(keys[..n], pieces[..n], q);
    } else {
      assert Stacked(keys, pieces)[q] == Tagged(keys[n], pieces[n])[q - |before|];
    }
  }

  /** Every column's table has unique keys within the grid of the samples
      and the longest column. */
  lemma SplitTablesApart(f: Frame, keys: seq<nat>, names: seq<string>, split: Cell -> seq<Cell>, S: nat)
    requires |keys| == |f.rows| && (forall i | 0 <= i < |keys| :: keys[i] < S)
    ensures var tables := SplitTables(f, keys, names, split); TablesApart(tables, S, Longest(tables))
  {
    var tables := SplitTables(f, keys, names, split);
    forall t | 0 <= t < |tables| ensures KeysApart(tables[t]) && EntriesIn(tables[t], S, Longest(tables)) {
      PieceEntriesApart(keys, ColumnPieces(f, names[t], split), S, Longest(tables));
    }
  }

  /** The published names of the piece tables are the column names. */
  lemma {:induction false} PieceNames(names: seq<string>)
    ensures Names(Flat(PieceFields(names))) == names
  {
    if |names| > 0 {
      var n := |names| - 1;
      PieceNames(names[..n]);
      var fields := PieceFields(names);
      assert fields[..n] == PieceFields(names[..n]);
      assert Flat(fields) == Flat(fields[..n]) + [(Piece, names[n])];
      assert Names(Flat(fields)) == Names(Flat(fields[..n])) + [names[n]];
      assert names == names[..n] + [names[n]];
    }
  }

  /** The `j`-th piece of row `n` is the piece at the matching position of
      the stack; its replicate number counts the pieces of its sample
      before it. */
  lemma PieceAt(keys: seq<nat>, pieces: seq<seq<Cell>>, n: nat, j: nat) returns (q: nat)
    requires |keys| == |pieces| && n < |keys| && j < |pieces[n]|
    ensures var es := PieceEntries(keys, pieces);
      q < |es| && es[q].sample == keys[n] && es[q].row == [pieces[n][j]]
    ensures (forall i | 0 <= i < |keys| && i != n :: keys[i] != keys[n]) ==> PieceEntries(keys, pieces)[q].rep == j + 1
  {
    q := |Stacked(keys[..n], pieces[..n])| + j;
    StackedRow(keys, pieces, n, j);
    var p := Stacked(keys, pieces);
    var ks := SamplesOf(p);
    assert PieceEntries(keys, pieces)[q] == Entry(p[q].0, RepKeys(ks)[q], [p[q].1]);
    if forall i | 0 <= i < |keys| && i != n :: keys[i] != keys[n] {
      CountBeforePiece(keys, pieces, n, j);
      assert RepKeys(ks)[q] == 1 + Count(ks[..q], ks[q]);
    }
  }

  /** A sample has a piece numbered `r` in a column exactly when `r` is
      between 1 and the number of pieces its rows hold in that column. */
  lemma PieceEntriesKey(keys: seq<nat>, pieces: seq<seq<Cell>>, s: nat, r: nat)
    requires |keys| == |pieces|
    ensures (exists q | 0 <= q < |PieceEntries(keys, pieces)| ::
        PieceEntries(keys, pieces)[q].sample == s && PieceEntries(keys, pieces)[q].rep == r) <==>
      1 <= r <= PieceCount(keys, pieces, s)
  {
    var p := Stacked(keys, pieces);
    var es := PieceEntries(keys, pieces);
    var ks := SamplesOf(p);
    RepKeysContiguous(ks, s, r);
    StackedCount(keys, pieces, s);
    if exists q | 0 <= q < |es| :: es[q].sample == s && es[q].rep == r {
      var q :| 0 <= q < |es| && es[q].sample == s && es[q].rep == r;
      assert ks[q] == s && RepKeys(ks)[q] == r;
    }
    if 1 <= r <= PieceCount(keys, pieces, s) {
      var q :| 0 <= q < |ks| && ks[q] == s && RepKeys(ks)[q] == r;
      assert es[q].sample == s && es[q].rep == r;
    }
  }

  // ---------------------------------------------------------------------
  // the wide table of the split columns

  /** The outer merge of the split columns, joined to the sample labels. */
  function SplitWide(f: Frame, keys: seq<nat>, names: seq<string>, split: Cell -> seq<Cell>,
      labelNames: seq<string>, labels: seq<Row>, header: seq<string>): (w: Frame)
    requires |keys| == |f.rows|
    ensures w.columns == header
  {
    Merged(SplitReadings(f, keys, names, split), labelNames, labels, Longest(SplitTables(f, keys, names, split)), header)
  }

  /** The key grid the wide table's rows are drawn from. */
  function SplitKeys(f: Frame, keys: seq<nat>, names: seq<string>, split: Cell -> seq<Cell>, S: nat): seq<(nat, nat)>
    requires |keys| == |f.rows|
  {
    MergedKeys(SplitReadings(f, keys, names, split), S, Longest(SplitTables(f, keys, names, split)))
  }

  /** The `j`-th piece of row `n`'s cell in column `t` lands on the row of
      that sample and, when the sample has no other row, of replicate
      `j + 1`, in the column's own name. */
  lemma SplitField(f: Frame, keys: seq<nat>, names: seq<string>, split: Cell -> seq<Cell>,
      labelNames: seq<string>, labels: seq<Row>, header: seq<string>, t: nat, n: nat, j: nat) returns (k: nat)
    requires |keys| == |f.rows| && (forall i | 0 <= i < |keys| :: keys[i] < |labels|) && NoDup(names)
    requires t < |names| && n < |f.rows| && j < |split(Get(f, n, names[t]))|
    requires names[t] in header && names[t] !in labelNames && names[t] != "sample_key" && names[t] != "rep_key"
    requires "sample_key" in header && "rep_key" in header
    ensures var w := SplitWide(f, keys, names, split, labelNames, labels, header);
      k < |w.rows| && Get(w, k, "sample_key") == KeyCell(keys[n]) &&
      Get(w, k, names[t]) == split(Get(f, n, names[t]))[j] &&
      ((forall i | 0 <= i < |keys| && i != n :: keys[i] != keys[n]) ==> Get(w, k, "rep_key") == KeyCell(j + 1))
  {
    var tables := SplitTables(f, keys, names, split);
    var fields := PieceFields(names);
    var pieces := ColumnPieces(f, names[t], split);
    assert TablesApart(tables, |labels|, Longest(tables)) by {
      SplitTablesApart(f, keys, names, split, |labels|);
    }
    assert FieldsApart(fields) by { PieceNames(names); }
    var q := PieceAt(keys, pieces, n, j);
    assert tables[t] == PieceEntries(keys, pieces);
    assert fields[t][0] == (Piece, names[t]);
    k := MergedField([Piece], tables, fields, labelNames, labels, Longest(tables), header, t, q, 0);
    assert Value([Piece], tables[t][q].row, Piece) == pieces[n][j];
    assert pieces[n] == split(Get(f, n, names[t]));
    assert SplitWide(f, keys, names, split, labelNames, labels, header) ==
      Merged(MergeReadings([Piece], tables, fields, |tables|), labelNames, labels, Longest(tables), header);
  }

  /** Row `k` of the wide table carries the `k`-th key of the grid. */
  lemma SplitWideKeys(f: Frame, keys: seq<nat>, names: seq<string>, split: Cell -> seq<Cell>,
      labelNames: seq<string>, labels: seq<Row>, header: seq<string>, k: nat)
    requires |keys| == |f.rows| && "sample_key" in header && "rep_key" in header
    requires k < |SplitKeys(f, keys, names, split, |labels|)|
    ensures var w := SplitWide(f, keys, names, split, labelNames, labels, header);
      var key := SplitKeys(f, keys, names, split, |labels|)[k];
      k < |w.rows| && Get(w, k, "sample_key") == KeyCell(key.0) && Get(w, k, "rep_key") == KeyCell(key.1)
  {
    var rs := SplitReadings(f, keys, names, split);
    var R := Longest(SplitTables(f, keys, names, split));
    var w := Merged(rs, labelNames, labels, R, header);
    assert Get(w, k, "sample_key") == MergedCell(rs, labelNames, labels, MergedKeys(rs, |labels|, R)[k], "sample_key");
    assert Get(w, k, "rep_key") == MergedCell(rs, labelNames, labels, MergedKeys(rs, |labels|, R)[k], "rep_key");
  }

  /** The wide table has a row for sample `s` and replicate `r` exactly
      when some column holds at least `r` pieces for that sample: one row
      per replicate up to the sample's largest piece count. */
  lemma SplitRows(f: Frame, keys: seq<nat>, names: seq<string>, split: Cell -> seq<Cell>, S: nat, s: nat, r: nat)
    requires |keys| == |f.rows| && (forall i | 0 <= i < |keys| :: keys[i] < S)
    ensures Ascending(SplitKeys(f, keys, names, split, S))
    ensures (s, r) in SplitKeys(f, keys, names, split, S) <==>
      exists t | 0 <= t < |names| :: 1 <= r <= PieceCount(keys, ColumnPieces(f, names[t], split), s)
  {
    var tables := SplitTables(f, keys, names, split);
    var fields := PieceFields(names);
    var rs := SplitReadings(f, keys, names, split);
    SplitTablesApart(f, keys, names, split, S);
    MergeInGrid([Piece], tables, fields, |tables|, S, Longest(tables));
    MergedKeysExact(rs, S, Longest(tables));
    if HasKey(rs, s, r) {
      var t, q := MergeKeyOrigin([Piece], tables, fields, |tables|, s, r);
      PieceEntriesKey(keys, ColumnPieces(f, names[t], split), s, r);
    }
    if exists t | 0 <= t < |names| :: 1 <= r <= PieceCount(keys, ColumnPieces(f, names[t], split), s) {
      var t :| 0 <= t < |names| && 1 <= r <= PieceCount(keys, ColumnPieces(f, names[t], split), s);
      PieceEntriesKey(keys, ColumnPieces(f, names[t], split), s, r);
      var q :| 0 <= q < |tables[t]| && tables[t][q].sample == s && tables[t][q].rep == r;
      MergeHasKey([Piece], tables, fields, |tables|, t, q);
    }
  }
}
