/** Interstitial water chemistry: the DSDP card file, the ODP and IODP
    tables and the Chikyu files, each reshaped to one row per sample and
    replicate (sample_key, rep_key) with one column per analyte, and the
    four compiled into one table. */
module IwChem {
  import opened Wrappers
  import opened Seqs
  import opened Frames
  import opened Keys
  import opened Reshape
  import opened Units

  // ---------------------------------------------------------------------
  // entries: the rows of one long table, numbered by sample and replicate

  /** A source row with its sample key and replicate key (0 before the
      replicates are numbered). */
  datatype Entry = Entry(sample: nat, rep: nat, row: Row)

  /** Rows tagged with their sample keys, not yet numbered. */
  function Unnumbered(keys: seq<nat>, rows: seq<Row>): (es: seq<Entry>)
    requires |keys| == |rows|
    ensures |es| == |rows|
    ensures forall i | 0 <= i < |rows| :: es[i] == Entry(keys[i], 0, rows[i])
  {
    seq(|rows|, i requires 0 <= i < |rows| => Entry(keys[i], 0, rows[i]))
  }

  function EntrySamples(es: seq<Entry>): (ks: seq<nat>)
    ensures |ks| == |es| && forall i | 0 <= i < |es| :: ks[i] == es[i].sample
  {
    Map((e: Entry) => e.sample, es)
  }

  /** `df['rep_key'] = df.groupby('sample_key').cumcount() + 1`. */
  function Renumbered(es: seq<Entry>): (es': seq<Entry>)
    ensures |es'| == |es|
    ensures forall i | 0 <= i < |es| :: es'[i] == Entry(es[i].sample, RepKeys(EntrySamples(es))[i], es[i].row)
  {
    var reps := RepKeys(EntrySamples(es));
    seq(|es|, i requires 0 <= i < |es| => Entry(es[i].sample, reps[i], es[i].row))
  }

  /** No two entries share a (sample, replicate) key. */
  predicate KeysApart(es: seq<Entry>) {
    forall i, j | 0 <= i < j < |es| :: es[i].sample != es[j].sample || es[i].rep != es[j].rep
  }

  /** Every entry lies in the grid of `S` samples and `R` replicates. */
  predicate EntriesIn(es: seq<Entry>, S: nat, R: nat) {
    forall i | 0 <= i < |es| :: es[i].sample < S && 1 <= es[i].rep <= R
  }

  /** Numbering makes the keys unique, and it numbers from 1 to the
      number of rows. */
  lemma RenumberedApart(es: seq<Entry>, S: nat)
    requires forall i | 0 <= i < |es| :: es[i].sample < S
    ensures KeysApart(Renumbered(es))
    ensures EntriesIn(Renumbered(es), S, |es|)
  {
    var ks := EntrySamples(es);
    forall i, j | 0 <= i < j < |es|
      ensures Renumbered(es)[i].sample != Renumbered(es)[j].sample || Renumbered(es)[i].rep != Renumbered(es)[j].rep
    {
      RepKeysUnique(ks, i, j);
    }
    forall i | 0 <= i < |es| ensures 1 <= Renumbered(es)[i].rep <= |es| {
      RepKeysBounded(ks, i);
    }
  }

  /** A filter keeps unique keys unique and the grid bounds. */
  lemma FilterApart(keep: Entry -> bool, es: seq<Entry>, S: nat, R: nat)
    requires KeysApart(es) && EntriesIn(es, S, R)
    ensures KeysApart(Filter(keep, es)) && EntriesIn(Filter(keep, es), S, R)
  {
    var f := Filter(keep, es);
    FilterExact(keep, es);
    var ix := KeptIndices(keep, es);
    forall i, j | 0 <= i < j < |f| ensures f[i].sample != f[j].sample || f[i].rep != f[j].rep {
      assert f[i] == es[ix[i]] && f[j] == es[ix[j]];
    }
    forall i | 0 <= i < |f| ensures f[i].sample < S && 1 <= f[i].rep <= R {
      assert f[i] == es[ix[i]];
    }
  }

  // ---------------------------------------------------------------------
  // the readings of a table of entries under a renaming of its fields

  /** The published names of a table's fields. */
  function Names(fields: seq<(string, string)>): (ns: seq<string>)
    ensures |ns| == |fields| && forall j | 0 <= j < |fields| :: ns[j] == fields[j].1
  {
    Map((p: (string, string)) => p.1, fields)
  }

  /** One entry's fields, each under its published name
      (`card[[...]].rename(columns=...)`). */
  function FieldReadings(cols: seq<string>, e: Entry, fields: seq<(string, string)>): (rs: seq<Reading>)
    ensures |rs| == |fields|
    ensures forall j | 0 <= j < |fields| ::
      rs[j] == Reading(e.sample, e.rep, fields[j].1, Value(cols, e.row, fields[j].0))
  {
    seq(|fields|, j requires 0 <= j < |fields| =>
      Reading(e.sample, e.rep, fields[j].1, Value(cols, e.row, fields[j].0)))
  }

  /** A whole table in long form. */
  function TableReadings(cols: seq<string>, es: seq<Entry>, fields: seq<(string, string)>): seq<Reading>
    decreases |es|
  {
    if |es| == 0 then [] else FieldReadings(cols, es[0], fields) + TableReadings(cols, es[1..], fields)
  }

  lemma {:induction false} KeysApartTail(es: seq<Entry>)
    requires |es| > 0 && KeysApart(es)
    ensures KeysApart(es[1..])
  {
    forall i, j | 0 <= i < j < |es| - 1
      ensures es[1..][i].sample != es[1..][j].sample || es[1..][i].rep != es[1..][j].rep
    {
      assert es[1..][i] == es[i + 1] && es[1..][j] == es[j + 1];
    }
  }

  /** Each field of each entry is the merged value of its own cell. */
  lemma {:induction false} TableLookup(cols: seq<string>, es: seq<Entry>, fields: seq<(string, string)>, i: nat, j: nat)
    requires KeysApart(es) && NoDup(Names(fields)) && i < |es| && j < |fields|
    ensures Lookup(TableReadings(cols, es, fields), es[i].sample, es[i].rep, fields[j].1) ==
      Value(cols, es[i].row, fields[j].0)
    decreases i
  {
    var head := FieldReadings(cols, es[0], fields);
    var tail := TableReadings(cols, es[1..], fields);
    assert TableReadings(cols, es, fields) == head + tail;
    if i == 0 {
      var rs := head + tail;
      forall q | 0 <= q < j ensures !SameCell(rs[q], rs[j]) {
        assert Names(fields)[q] != Names(fields)[j];
      }
      LookupUnique(rs, j);
    } else {
      assert es[0].sample != es[i].sample || es[0].rep != es[i].rep;
      LookupSkip(head, tail, es[i].sample, es[i].rep, fields[j].1);
      KeysApartTail(es);
      assert es[1..][i - 1] == es[i];
      TableLookup(cols, es[1..], fields, i - 1, j);
    }
  }

  /** A table fills only the columns it names. */
  lemma {:induction false} TableColumns(cols: seq<string>, es: seq<Entry>, fields: seq<(string, string)>)
    ensures forall q | 0 <= q < |TableReadings(cols, es, fields)| ::
      TableReadings(cols, es, fields)[q].column in Names(fields)
    decreases |es|
  {
    if |es| > 0 {
      var head := FieldReadings(cols, es[0], fields);
      TableColumns(cols, es[1..], fields);
      forall q | 0 <= q < |head| ensures head[q].column in Names(fields) {
        assert Names(fields)[q] == head[q].column;
      }
    }
  }

  /** A table with at least one field gives every entry a row. */
  lemma {:induction false} TableHasKey(cols: seq<string>, es: seq<Entry>, fields: seq<(string, string)>, i: nat)
    requires i < |es| && |fields| > 0
    ensures HasKey(TableReadings(cols, es, fields), es[i].sample, es[i].rep)
    decreases i
  {
    var head := FieldReadings(cols, es[0], fields);
    var tail := TableReadings(cols, es[1..], fields);
    HasKeyAppend(head, tail, es[i].sample, es[i].rep);
    if i > 0 {
      assert es[1..][i - 1] == es[i];
      TableHasKey(cols, es[1..], fields, i - 1);
    } else {
      assert head[0].sample == es[0].sample && head[0].rep == es[0].rep;
    }
  }

  /** Every row a table gives belongs to one of its entries. */
  lemma {:induction false} TableKeyOrigin(cols: seq<string>, es: seq<Entry>, fields: seq<(string, string)>, s: nat, r: nat)
    returns (i: nat)
    requires HasKey(TableReadings(cols, es, fields), s, r)
    ensures i < |es| && es[i].sample == s && es[i].rep == r
    decreases |es|
  {
    var head := FieldReadings(cols, es[0], fields);
    var tail := TableReadings(cols, es[1..], fields);
    HasKeyAppend(head, tail, s, r);
    if HasKey(head, s, r) {
      HasKeyIff(head, s, r);
      i := 0;
    } else {
      var i' := TableKeyOrigin(cols, es[1..], fields, s, r);
      i := i' + 1;
    }
  }

  /** A table of entries in the grid gives readings in the grid. */
  lemma {:induction false} TableInGrid(cols: seq<string>, es: seq<Entry>, fields: seq<(string, string)>, S: nat, R: nat)
    requires EntriesIn(es, S, R)
    ensures InGrid(TableReadings(cols, es, fields), S, R)
    decreases |es|
  {
    if |es| > 0 {
      assert forall i | 0 <= i < |es| - 1 :: es[1..][i] == es[i + 1];
      TableInGrid(cols, es[1..], fields, S, R);
    }
  }

  lemma InGridAppend(a: seq<Reading>, b: seq<Reading>, S: nat, R: nat)
    requires InGrid(a, S, R) && InGrid(b, S, R)
    ensures InGrid(a + b, S, R)
  {
    assert forall i | |a| <= i < |a + b| :: (a + b)[i] == b[i - |a|];
  }

  // ---------------------------------------------------------------------
  // outer merges of several tables on (sample_key, rep_key)

  /** Tables 0 to n-1 in long form, in merge order, each under its own
      fields. */
  function MergeReadings(cols: seq<string>, tables: seq<seq<Entry>>, fields: seq<seq<(string, string)>>, n: nat): seq<Reading>
    requires n <= |tables| && n <= |fields|
  {
    if n == 0 then []
    else MergeReadings(cols, tables, fields, n - 1) + TableReadings(cols, tables[n - 1], fields[n - 1])
  }

  /** One more merge appends the next table's readings. */
  lemma MergeNext(cols: seq<string>, tables: seq<seq<Entry>>, fields: seq<seq<(string, string)>>, n: nat, rs: seq<Reading>)
    requires n < |tables| && n < |fields| && rs == MergeReadings(cols, tables, fields, n)
    ensures MergeReadings(cols, tables, fields, n + 1) == rs + TableReadings(cols, tables[n], fields[n])
  {
  }

  /** Every table has unique keys within the grid. */
  predicate TablesApart(tables: seq<seq<Entry>>, S: nat, R: nat) {
    forall t | 0 <= t < |tables| :: KeysApart(tables[t]) && EntriesIn(tables[t], S, R)
  }

  /** All tables' fields, table after table. */
  function Flat(fields: seq<seq<(string, string)>>): seq<(string, string)> {
    if |fields| == 0 then [] else Flat(fields[..|fields| - 1]) + fields[|fields| - 1]
  }

  /** No column is published twice, by one table or by two. */
  predicate FieldsApart(fields: seq<seq<(string, string)>>) {
    NoDup(Names(Flat(fields)))
  }

  /** Field `j` of table `t` sits in the flattened fields after all the
      fields of the earlier tables. */
  lemma {:induction false} FlatAt(fields: seq<seq<(string, string)>>, t: nat, j: nat)
    requires t < |fields| && j < |fields[t]|
    ensures |Flat(fields[..t])| + j < |Flat(fields)|
    ensures Flat(fields)[|Flat(fields[..t])| + j] == fields[t][j]
  {
    var n := |fields| - 1;
    assert fields[..n + 1] == fields;
    if t == n {
      assert Flat(fields) == Flat(fields[..n]) + fields[n];
    } else {
      var p := fields[..n];
      assert p[..t] == fields[..t] && p[t] == fields[t];
      FlatAt(p, t, j);
    }
  }

  /** The fields of later tables come after those of earlier ones. */
  lemma {:induction false} FlatGrows(fields: seq<seq<(string, string)>>, t: nat, u: nat)
    requires t < u <= |fields|
    ensures |Flat(fields[..t])| + |fields[t]| <= |Flat(fields[..u])|
  {
    var p := fields[..u];
    assert p[..u - 1] == fields[..u - 1] && p[u - 1] == fields[u - 1];
    assert Flat(p) == Flat(fields[..u - 1]) + fields[u - 1];
    if t < u - 1 {
      FlatGrows(fields, t, u - 1);
    }
  }

  /** Apart fields: each table's names are distinct, and no name of one
      table is a name of another. */
  lemma FieldsApartOf(fields: seq<seq<(string, string)>>, t: nat, u: nat, j: nat, k: nat)
    requires FieldsApart(fields) && t < |fields| && u < |fields| && j < |fields[t]| && k < |fields[u]|
    requires t != u || j != k
    ensures fields[t][j].1 != fields[u][k].1
  {
    FlatAt(fields, t, j);
    FlatAt(fields, u, k);
    var a := |Flat(fields[..t])| + j;
    var b := |Flat(fields[..u])| + k;
    if t < u {
      FlatGrows(fields, t, u);
    } else if u < t {
      FlatGrows(fields, u, t);
    }
    assert a != b;
    var ns := Names(Flat(fields));
    assert ns[a] == fields[t][j].1 && ns[b] == fields[u][k].1;
  }

  lemma {:induction false} MergeInGrid(cols: seq<string>, tables: seq<seq<Entry>>, fields: seq<seq<(string, string)>>,
      n: nat, S: nat, R: nat)
    requires n <= |tables| && n <= |fields| && TablesApart(tables, S, R)
    ensures InGrid(MergeReadings(cols, tables, fields, n), S, R)
  {
    if n > 0 {
      MergeInGrid(cols, tables, fields, n - 1, S, R);
      TableInGrid(cols, tables[n - 1], fields[n - 1], S, R);
      InGridAppend(MergeReadings(cols, tables, fields, n - 1), TableReadings(cols, tables[n - 1], fields[n - 1]), S, R);
    }
  }

  /** The readings of the tables after table `t` fill no column that only
      table `t` names. */
  lemma {:induction false} MergeSplit(cols: seq<string>, tables: seq<seq<Entry>>, fields: seq<seq<(string, string)>>,
      t: nat, n: nat, c: string) returns (later: seq<Reading>)
    requires t < n <= |tables| && n <= |fields|
    requires forall u: nat | t < u < n :: c !in Names(fields[u])
    ensures MergeReadings(cols, tables, fields, n) ==
      MergeReadings(cols, tables, fields, t) + TableReadings(cols, tables[t], fields[t]) + later
    ensures forall q | 0 <= q < |later| :: later[q].column != c
  {
    if n == t + 1 {
      later := [];
    } else {
      var later' := MergeSplit(cols, tables, fields, t, n - 1, c);
      TableColumns(cols, tables[n - 1], fields[n - 1]);
      later := later' + TableReadings(cols, tables[n - 1], fields[n - 1]);
    }
  }

  /** Earlier tables fill no column that only table `t` names. */
  lemma {:induction false} MergeEarlier(cols: seq<string>, tables: seq<seq<Entry>>, fields: seq<seq<(string, string)>>,
      t: nat, c: string)
    requires t <= |tables| && t <= |fields|
    requires forall u: nat | u < t :: c !in Names(fields[u])
    ensures forall q | 0 <= q < |MergeReadings(cols, tables, fields, t)| :: MergeReadings(cols, tables, fields, t)[q].column != c
  {
    if t > 0 {
      MergeEarlier(cols, tables, fields, t - 1, c);
      TableColumns(cols, tables[t - 1], fields[t - 1]);
    }
  }

  /** A field of a table's entry is the merged value of its cell: no
      other table competes for the column. */
  lemma MergeLookup(cols: seq<string>, tables: seq<seq<Entry>>, fields: seq<seq<(string, string)>>, S: nat, R: nat,
      t: nat, i: nat, j: nat)
    requires |tables| == |fields| && FieldsApart(fields) && TablesApart(tables, S, R)
    requires t < |tables| && i < |tables[t]| && j < |fields[t]|
    ensures Lookup(MergeReadings(cols, tables, fields, |tables|), tables[t][i].sample, tables[t][i].rep, fields[t][j].1) ==
      Value(cols, tables[t][i].row, fields[t][j].0)
  {
    var c := fields[t][j].1;
    var e: Entry := tables[t][i];
    forall u: nat | u < |tables| && u != t ensures c !in Names(fields[u]) {
      forall k | 0 <= k < |fields[u]| ensures Names(fields[u])[k] != c {
        FieldsApartOf(fields, t, u, j, k);
      }
    }
    forall a, b | 0 <= a < b < |fields[t]| ensures Names(fields[t])[a] != Names(fields[t])[b] {
      FieldsApartOf(fields, t, t, a, b);
    }
    var later := MergeSplit(cols, tables, fields, t, |tables|, c);
    MergeEarlier(cols, tables, fields, t, c);
    var before := MergeReadings(cols, tables, fields, t);
    var own := TableReadings(cols, tables[t], fields[t]);
    LookupFront(before + own, later, e.sample, e.rep, c);
    LookupSkip(before, own, e.sample, e.rep, c);
    TableLookup(cols, tables[t], fields[t], i, j);
  }

  /** A column no table publishes stays missing. */
  lemma {:induction false} MergeUnnamed(cols: seq<string>, tables: seq<seq<Entry>>, fields: seq<seq<(string, string)>>,
      n: nat, s: nat, r: nat, c: string)
    requires n <= |tables| && n <= |fields|
    requires forall u: nat | u < n :: c !in Names(fields[u])
    ensures Lookup(MergeReadings(cols, tables, fields, n), s, r, c) == Missing
  {
    MergeEarlier(cols, tables, fields, n, c);
    LookupAbsent(MergeReadings(cols, tables, fields, n), s, r, c);
  }

  /** Every entry of a table with some field has a merged row. */
  lemma {:induction false} MergeHasKey(cols: seq<string>, tables: seq<seq<Entry>>, fields: seq<seq<(string, string)>>,
      n: nat, t: nat, i: nat)
    requires t < n <= |tables| && n <= |fields| && i < |tables[t]| && |fields[t]| > 0
    ensures HasKey(MergeReadings(cols, tables, fields, n), tables[t][i].sample, tables[t][i].rep)
  {
    var e: Entry := tables[t][i];
    var before := MergeReadings(cols, tables, fields, n - 1);
    var last := TableReadings(cols, tables[n - 1], fields[n - 1]);
    HasKeyAppend(before, last, e.sample, e.rep);
    if t == n - 1 {
      TableHasKey(cols, tables[t], fields[t], i);
    } else {
      MergeHasKey(cols, tables, fields, n - 1, t, i);
    }
  }

  /** Every merged row comes from an entry of some table. */
  lemma {:induction false} MergeKeyOrigin(cols: seq<string>, tables: seq<seq<Entry>>, fields: seq<seq<(string, string)>>,
      n: nat, s: nat, r: nat) returns (t: nat, i: nat)
    requires n <= |tables| && n <= |fields| && HasKey(MergeReadings(cols, tables, fields, n), s, r)
    ensures t < n && i < |tables[t]| && tables[t][i].sample == s && tables[t][i].rep == r
  {
    var before := MergeReadings(cols, tables, fields, n - 1);
    var last := TableReadings(cols, tables[n - 1], fields[n - 1]);
    HasKeyAppend(before, last, s, r);
    if HasKey(last, s, r) {
      t := n - 1;
      i := TableKeyOrigin(cols, tables[t], fields[t], s, r);
    } else {
      t, i := MergeKeyOrigin(cols, tables, fields, n - 1, s, r);
    }
  }

  /** In the wide table of merged tables, each entry's field lands on the
      row of the entry's key, in the field's column. */
  lemma MergedField(cols: seq<string>, tables: seq<seq<Entry>>, fields: seq<seq<(string, string)>>,
      labelNames: seq<string>, labels: seq<Row>, R: nat, header: seq<string>, t: nat, i: nat, j: nat) returns (k: nat)
    requires |tables| == |fields| && FieldsApart(fields) && TablesApart(tables, |labels|, R)
    requires t < |tables| && i < |tables[t]| && j < |fields[t]|
    requires fields[t][j].1 in header && fields[t][j].1 !in labelNames
    requires fields[t][j].1 != "sample_key" && fields[t][j].1 != "rep_key"
    requires "sample_key" in header && "rep_key" in header
    ensures var w := Merged(MergeReadings(cols, tables, fields, |tables|), labelNames, labels, R, header);
      k < |w.rows| &&
      Get(w, k, "sample_key") == KeyCell(tables[t][i].sample) && Get(w, k, "rep_key") == KeyCell(tables[t][i].rep) &&
      Get(w, k, fields[t][j].1) == Value(cols, tables[t][i].row, fields[t][j].0)
  {
    var rs := MergeReadings(cols, tables, fields, |tables|);
    var e := tables[t][i];
    MergeInGrid(cols, tables, fields, |tables|, |labels|, R);
    MergeHasKey(cols, tables, fields, |tables|, t, i);
    k := MergedRowOf(rs, |labels|, R, e.sample, e.rep);
    MergeLookup(cols, tables, fields, |labels|, R, t, i, j);
  }

  /** Every row of the wide table is the key of some entry. */
  lemma MergedRowFrom(cols: seq<string>, tables: seq<seq<Entry>>, fields: seq<seq<(string, string)>>,
      labelNames: seq<string>, labels: seq<Row>, R: nat, header: seq<string>, k: nat) returns (t: nat, i: nat)
    requires |tables| == |fields| && TablesApart(tables, |labels|, R)
    requires "sample_key" in header && "rep_key" in header
    requires k < |Merged(MergeReadings(cols, tables, fields, |tables|), labelNames, labels, R, header).rows|
    ensures var w := Merged(MergeReadings(cols, tables, fields, |tables|), labelNames, labels, R, header);
      t < |tables| && i < |tables[t]| &&
      Get(w, k, "sample_key") == KeyCell(tables[t][i].sample) && Get(w, k, "rep_key") == KeyCell(tables[t][i].rep)
  {
    var rs := MergeReadings(cols, tables, fields, |tables|);
    MergeInGrid(cols, tables, fields, |tables|, |labels|, R);
    MergedKeysExact(rs, |labels|, R);
    var key := MergedKeys(rs, |labels|, R)[k];
    assert key in MergedKeys(rs, |labels|, R);
    t, i := MergeKeyOrigin(cols, tables, fields, |tables|, key.0, key.1);
  }

  /** The label columns of a wide row are the labels of its sample. */
  lemma MergedLabel(rs: seq<Reading>, labelNames: seq<string>, labels: seq<Row>, R: nat, header: seq<string>,
      k: nat, c: string)
    requires k < |Merged(rs, labelNames, labels, R, header).rows|
    requires c in header && c in labelNames && c != "sample_key" && c != "rep_key" && "sample_key" in header
    ensures InGrid(rs, |labels|, R) ==> MergedKeys(rs, |labels|, R)[k].0 < |labels|
    ensures MergedKeys(rs, |labels|, R)[k].0 < |labels| ==>
      Get(Merged(rs, labelNames, labels, R, header), k, c) == Value(labelNames, labels[MergedKeys(rs, |labels|, R)[k].0], c)
    ensures Get(Merged(rs, labelNames, labels, R, header), k, "sample_key") == KeyCell(MergedKeys(rs, |labels|, R)[k].0)
  {
    if InGrid(rs, |labels|, R) {
      MergedKeysExact(rs, |labels|, R);
      var key := MergedKeys(rs, |labels|, R)[k];
      assert key in MergedKeys(rs, |labels|, R);
      HasKeyIff(rs, key.0, key.1);
    }
  }

  // ---------------------------------------------------------------------
  // DSDP: one row per card, six kinds of data card

  const DsdpRenames: map<string, string> :=
    map["depth to sample (m)" := "sample_depth", "depth to core (m)" := "core_depth",
        "bottom of sampled interval(cm)" := "bottom", "top of sampled interval (cm)" := "top"]

  /** The columns that identify a DSDP sample. */
  const DsdpLabels: seq<string> :=
    ["leg", "site", "hole", "core", "section", "bottom", "top", "core_depth", "sample_depth"]

  /** The columns the loader reads from the renamed card file. */
  const DsdpSource: seq<string> :=
    DsdpLabels + ["card number", "pH electrode type", "pH", "alkalinity measurement type", "alkalinity",
      "salinity", "data field #1", "data field #2", "data field #3", "data field #4", "data field #5",
      "data field #6", "reference"]

  /** The anchor table's fields: (source column, published column). */
  const AnchorFields: seq<(string, string)> :=
    [("pH electrode type", "ph_type"), ("pH", "pH"), ("alkalinity measurement type", "alkalinity_type"),
     ("alkalinity", "alkalinity"), ("salinity", "salinity")]

  /** The fields data card `n` contributes: card 4 drops its fifth data
      field, cards 5 and 6 keep only their reference. */
  function CardFields(n: nat): seq<(string, string)> {
    if n == 1 then
      [("data field #1", "Ca"), ("data field #2", "Mg"), ("data field #3", "Cl"), ("data field #4", "NH4"),
       ("data field #5", "PO4"), ("data field #6", "Si"), ("reference", "ref_1")]
    else if n == 2 then
      [("data field #1", "Sr"), ("data field #2", "K"), ("data field #3", "Mn"), ("data field #4", "SO4"),
       ("data field #5", "Ba"), ("data field #6", "Zn"), ("reference", "ref_2")]
    else if n == 3 then
      [("data field #1", "P2O4"), ("data field #2", "Cu"), ("data field #3", "Fe"), ("data field #4", "Li"),
       ("data field #5", "Al"), ("data field #6", "Na"), ("reference", "ref_3")]
    else if n == 4 then
      [("data field #1", "Br"), ("data field #2", "B"), ("data field #3", "Rb"), ("data field #4", "Ni"),
       ("data field #6", "NO3"), ("reference", "ref_4")]
    else if n == 5 then [("reference", "ref_5")]
    else if n == 6 then [("reference", "ref_6")]
    else []
  }

  /** The fields of each table: table 0 is the anchor, tables 1 to 6 the
      data cards. */
  const DsdpFieldTable: seq<seq<(string, string)>> :=
    [AnchorFields, CardFields(1), CardFields(2), CardFields(3), CardFields(4), CardFields(5), CardFields(6)]

  /** The merged header: keys, labels, the anchor's fields, the rep key,
      then each card's fields in card order. */
  const DsdpHeader: seq<string> :=
    ["sample_key"] + DsdpLabels + DsdpPublished[..5] + ["rep_key"] + DsdpPublished[5..]

  predicate IsDataCard(cols: seq<string>, r: Row) {
    Value(cols, r, "card type") == Str("DATA CARD")
  }

  predicate IsCard(cols: seq<string>, n: nat, r: Row) {
    Value(cols, r, "card number") == Num(n as real)
  }

  /** `dropna(how='all', subset=['pH', 'alkalinity', 'salinity'])` keeps a row. */
  predicate AnchorKept(cols: seq<string>, r: Row) {
    Value(cols, r, "pH") != Missing || Value(cols, r, "alkalinity") != Missing || Value(cols, r, "salinity") != Missing
  }

  /** The renamed file cut to its data cards. */
  function DataCards(raw: Frame): (f: Frame)
    ensures f.columns == Rename(raw, DsdpRenames).columns
  {
    var named := Rename(raw, DsdpRenames);
    FilterRows(named, (r: Row) => IsDataCard(named.columns, r))
  }

  /** Each data card's sample tuple. */
  function DsdpTuples(f: Frame): (ts: seq<Row>)
    ensures |ts| == |f.rows|
  {
    Map((r: Row) => Realign(f.columns, r, DsdpLabels), f.rows)
  }

  /** The data cards with their sample keys. */
  function DsdpEntries(f: Frame): (es: seq<Entry>)
    ensures |es| == |f.rows|
  {
    Unnumbered(SampleKeys(DsdpTuples(f)), f.rows)
  }

  /** The anchor table: every data card numbered within its sample, then
      the cards with neither pH, alkalinity nor salinity dropped. */
  function Anchor(cols: seq<string>, es: seq<Entry>): seq<Entry> {
    Filter((e: Entry) => AnchorKept(cols, e.row), Renumbered(es))
  }

  /** The data cards of number `n`, before their replicates are numbered. */
  function CardRows(cols: seq<string>, es: seq<Entry>, n: nat): seq<Entry> {
    Filter((e: Entry) => IsCard(cols, n, e.row), es)
  }

  /** Card table `n`: its cards numbered within their sample. */
  function Card(cols: seq<string>, es: seq<Entry>, n: nat): seq<Entry> {
    Renumbered(CardRows(cols, es, n))
  }

  /** The seven tables, in merge order. */
  function DsdpTables(cols: seq<string>, es: seq<Entry>): (ts: seq<seq<Entry>>)
    ensures |ts| == 7 && ts[0] == Anchor(cols, es) && forall n | 1 <= n < 7 :: ts[n] == Card(cols, es, n)
  {
    seq(7, t requires 0 <= t < 7 => if t == 0 then Anchor(cols, es) else Card(cols, es, t))
  }

  /** The first two card loops: the first cuts the six card tables out of
      the data cards, the second numbers each card table's replicates in
      place. */
  method NumberCards(cols: seq<string>, es: seq<Entry>) returns (cards: seq<seq<Entry>>)
    ensures |cards| == 6 && forall m | 0 <= m < 6 :: cards[m] == Card(cols, es, m + 1)
  {
    var a := new seq<Entry>[6];
    for n := 0 to 6
      invariant forall m | 0 <= m < n :: a[m] == CardRows(cols, es, m + 1)
    {
      a[n] := CardRows(cols, es, n + 1);
    }
    for n := 0 to 6
      invariant forall m | 0 <= m < n :: a[m] == Card(cols, es, m + 1)
      invariant forall m | n <= m < 6 :: a[m] == CardRows(cols, es, m + 1)
    {
      ghost var before := a[..];
      a[n] := Renumbered(a[n]);
      assert a[n] == Card(cols, es, n + 1);
      assert forall m | 0 <= m < 6 && m != n :: a[m] == before[m];
    }
    cards := a[..];
  }

  /** The merge loop: the anchor merged with each card table in turn. */
  method MergeDsdpCards(cols: seq<string>, es: seq<Entry>, fields: seq<seq<(string, string)>>) returns (rs: seq<Reading>)
    requires |fields| == 7
    ensures rs == MergeReadings(cols, DsdpTables(cols, es), fields, 7)
  {
    var cards := NumberCards(cols, es);
    ghost var tables := DsdpTables(cols, es);
    rs := TableReadings(cols, Anchor(cols, es), fields[0]);
    MergeNext(cols, tables, fields, 0, []);
    assert [] + rs == rs;
    for n := 0 to 6
      invariant rs == MergeReadings(cols, tables, fields, n + 1)
    {
      assert cards[n] == tables[n + 1];
      MergeNext(cols, tables, fields, n + 1, rs);
      rs := rs + TableReadings(cols, cards[n], fields[n + 1]);
    }
  }

  /** Every table's keys are unique and lie in the grid of samples and
      card rows. */
  lemma DsdpTablesApart(cols: seq<string>, es: seq<Entry>, S: nat)
    requires forall i | 0 <= i < |es| :: es[i].sample < S
    ensures TablesApart(DsdpTables(cols, es), S, |es|)
  {
    var ts := DsdpTables(cols, es);
    RenumberedApart(es, S);
    FilterApart((e: Entry) => AnchorKept(cols, e.row), Renumbered(es), S, |es|);
    forall t | 1 <= t < 7 ensures KeysApart(ts[t]) && EntriesIn(ts[t], S, |es|) {
      var cs := CardRows(cols, es, t);
      FilterMembers((e: Entry) => IsCard(cols, t, e.row), es);
      FilterLength((e: Entry) => IsCard(cols, t, e.row), es);
      assert forall i | 0 <= i < |cs| :: cs[i] in es;
      RenumberedApart(cs, S);
    }
  }

  /** The columns each DSDP table publishes. */
  const AnchorPublished: seq<string> := ["ph_type", "pH", "alkalinity_type", "alkalinity", "salinity"]
  const Card1Published: seq<string> := ["Ca", "Mg", "Cl", "NH4", "PO4", "Si", "ref_1"]
  const Card2Published: seq<string> := ["Sr", "K", "Mn", "SO4", "Ba", "Zn", "ref_2"]
  const Card3Published: seq<string> := ["P2O4", "Cu", "Fe", "Li", "Al", "Na", "ref_3"]
  const Card4Published: seq<string> := ["Br", "B", "Rb", "Ni", "NO3", "ref_4"]
  const Card5Published: seq<string> := ["ref_5"]
  const Card6Published: seq<string> := ["ref_6"]

  /** Every column the DSDP tables publish, in table order. */
  const DsdpPublished: seq<string> :=
    AnchorPublished + Card1Published + Card2Published + Card3Published +
    Card4Published + Card5Published + Card6Published

  /** The DSDP field tables publish each column once. */
  lemma DsdpPublishedDistinct()
    ensures NoDup(DsdpPublished)
  {
    PiecesDistinct();
    var p := AnchorPublished;
    Card1Apart();
    NoDupAppendIn(p, Card1Published);
    p := p + Card1Published;
    Card2Apart();
    NoDupAppendIn(p, Card2Published);
    p := p + Card2Published;
    Card3Apart();
    NoDupAppendIn(p, Card3Published);
    p := p + Card3Published;
    Card4Apart();
    NoDupAppendIn(p, Card4Published);
    p := p + Card4Published;
    RefsApart();
    NoDupAppendIn(p, Card5Published);
    p := p + Card5Published;
    NoDupAppendIn(p, Card6Published);
  }

  lemma PiecesDistinct()
    ensures NoDup(AnchorPublished) && NoDup(Card1Published) && NoDup(Card2Published)
    ensures NoDup(Card3Published) && NoDup(Card4Published) && NoDup(Card5Published) && NoDup(Card6Published)
  {
  }

  lemma Card1Apart()
    ensures forall x | x in Card1Published :: x !in AnchorPublished
  {
  }

  lemma Card2Apart()
    ensures forall x | x in Card2Published :: x !in AnchorPublished + Card1Published
  {
  }

  lemma Card3Apart()
    ensures forall x | x in Card3Published :: x !in AnchorPublished + Card1Published + Card2Published
  {
  }

  lemma Card4Apart()
    ensures forall x | x in Card4Published ::
      x !in AnchorPublished + Card1Published + Card2Published + Card3Published
  {
  }

  lemma RefsApart()
    ensures forall x | x in Card5Published ::
      x !in AnchorPublished + Card1Published + Card2Published + Card3Published + Card4Published
    ensures forall x | x in Card6Published ::
      x !in AnchorPublished + Card1Published + Card2Published + Card3Published + Card4Published + Card5Published
  {
  }

  lemma FlatStep(fields: seq<seq<(string, string)>>, k: nat)
    requires 1 <= k <= |fields|
    ensures Flat(fields[..k]) == Flat(fields[..k - 1]) + fields[k - 1]
  {
    assert fields[..k][..k - 1] == fields[..k - 1];
  }

  function DsdpFlatFields(): seq<(string, string)> {
    AnchorFields + CardFields(1) + CardFields(2) + CardFields(3) + CardFields(4) + CardFields(5) + CardFields(6)
  }

  lemma DsdpFlat()
    ensures Flat(DsdpFieldTable) == DsdpFlatFields()
  {
    var T := DsdpFieldTable;
    FlatStep(T, 1);
    assert T[..0] == [];
    FlatStep(T, 2);
    FlatStep(T, 3);
    FlatStep(T, 4);
    FlatStep(T, 5);
    FlatStep(T, 6);
    FlatStep(T, 7);
    assert T[..7] == T;
  }

  lemma NamesAppend(a: seq<(string, string)>, b: seq<(string, string)>)
    ensures Names(a + b) == Names(a) + Names(b)
  {
  }

  lemma AnchorNames()
    ensures Names(AnchorFields) == ["ph_type", "pH", "alkalinity_type", "alkalinity", "salinity"]
  {
  }

  lemma CardNames12()
    ensures Names(CardFields(1)) == ["Ca", "Mg", "Cl", "NH4", "PO4", "Si", "ref_1"]
    ensures Names(CardFields(2)) == ["Sr", "K", "Mn", "SO4", "Ba", "Zn", "ref_2"]
  {
  }

  lemma CardNames3456()
    ensures Names(CardFields(3)) == ["P2O4", "Cu", "Fe", "Li", "Al", "Na", "ref_3"]
    ensures Names(CardFields(4)) == ["Br", "B", "Rb", "Ni", "NO3", "ref_4"]
    ensures Names(CardFields(5)) == ["ref_5"] && Names(CardFields(6)) == ["ref_6"]
  {
  }

  lemma DsdpFlatNames()
    ensures Names(DsdpFlatFields()) == DsdpPublished
  {
    NamesOfSeven(AnchorFields, CardFields(1), CardFields(2), CardFields(3), CardFields(4), CardFields(5), CardFields(6));
    AnchorNames();
    CardNames12();
    CardNames3456();
  }

  lemma NamesOfSeven(a: seq<(string, string)>, b: seq<(string, string)>, c: seq<(string, string)>,
                     d: seq<(string, string)>, e: seq<(string, string)>, f: seq<(string, string)>,
                     g: seq<(string, string)>)
    ensures Names(a + b + c + d + e + f + g) ==
      Names(a) + Names(b) + Names(c) + Names(d) + Names(e) + Names(f) + Names(g)
  {
    NamesAppend(a, b);
    NamesAppend(a + b, c);
    NamesAppend(a + b + c, d);
    NamesAppend(a + b + c + d, e);
    NamesAppend(a + b + c + d + e, f);
    NamesAppend(a + b + c + d + e + f, g);
  }

  lemma DsdpFieldsApart()
    ensures FieldsApart(DsdpFieldTable)
  {
    DsdpFlat();
    DsdpFlatNames();
    DsdpPublishedDistinct();
  }

  /** Each published field is one of the published columns. */
  lemma DsdpFieldPublished(t: nat, j: nat)
    requires t < 7 && j < |DsdpFieldTable[t]|
    ensures DsdpFieldTable[t][j].1 in DsdpPublished
  {
    var T := DsdpFieldTable;
    FlatAt(T, t, j);
    DsdpFlat();
    DsdpFlatNames();
    assert Names(Flat(T))[|Flat(T[..t])| + j] == T[t][j].1;
  }

  /** The published columns are in the header and are neither keys nor
      labels. */
  lemma DsdpPublishedPlace(c: string)
    requires c in DsdpPublished
    ensures c in DsdpHeader && c !in DsdpLabels && c != "sample_key" && c != "rep_key"
  {
    DsdpPublishedInHeader(c);
    DsdpPublishedNotLabel(c);
  }

  lemma DsdpPublishedInHeader(c: string)
    requires c in DsdpPublished
    ensures c in DsdpHeader
  {
    var P := DsdpPublished;
    var k :| 0 <= k < |P| && P[k] == c;
    if k < 5 {
      assert P[..5][k] == c;
    } else {
      assert P[5..][k - 5] == c;
    }
  }

  lemma DsdpPublishedNotLabel(c: string)
    requires c in DsdpPublished
    ensures c !in DsdpLabels && c != "sample_key" && c != "rep_key"
  {
    NotLabelFirst();
    NotLabelMiddle();
    NotLabelLast();
  }

  lemma NotLabelFirst()
    ensures forall x | x in AnchorPublished + Card1Published :: x !in DsdpLabels && x != "sample_key" && x != "rep_key"
  {
  }

  lemma NotLabelMiddle()
    ensures forall x | x in Card2Published + Card3Published :: x !in DsdpLabels && x != "sample_key" && x != "rep_key"
  {
  }

  lemma NotLabelLast()
    ensures forall x | x in Card4Published + Card5Published + Card6Published ::
      x !in DsdpLabels && x != "sample_key" && x != "rep_key"
  {
  }

  // ---------------------------------------------------------------------
  // DSDP: merged table and unit conversions

  /** The merged wide table: one row per (sample_key, rep_key) of the
      anchor and the card tables, in key order. */
  function DsdpWide(f: Frame): (w: Frame)
    ensures w.columns == DsdpHeader
  {
    var es := DsdpEntries(f);
    Merged(MergeReadings(f.columns, DsdpTables(f.columns, es), DsdpFieldTable, 7),
      DsdpLabels, Distinct(DsdpTuples(f)), |f.rows|, DsdpHeader)
  }

  /** `replace(['.'], np.nan)`: a lone full stop means no value. */
  function DotToMissing(x: Cell): Cell {
    if x == Str(".") then Missing else x
  }

  /** `int(v)` on a float: truncation toward zero. */
  function Trunc(v: real): (n: int)
    ensures v >= 0.0 ==> 0 <= n && n as real <= v < n as real + 1.0
    ensures v < 0.0 ==> n <= 0 && n as real - 1.0 < v <= n as real
  {
    if v >= 0.0 then v.Floor else -((-v).Floor)
  }

  /** Chloride: `(x.astype(float) / 35.453 * 1024).map(int, na_action='ignore')`. */
  function Chloride(x: Cell): (r: Result<Cell>)
    ensures r.Success? <==> ToNumber(x).Success?
    ensures r.Success? ==> (r.value.Missing? <==> ToNumber(x).value.Missing?)
    ensures r.Success? && r.value.Num? ==>
      var v := ToNumber(x).value.x / 35.453 * 1024.0;
      r.value.x == Trunc(v) as real && -1.0 < v - r.value.x < 1.0
  {
    var v :- ToNumber(x);
    if v.Num? then Success(Num(Trunc(v.x / 35.453 * 1024.0) as real)) else Success(v)
  }

  function Thousandfold(x: Cell): Result<Cell> {
    ParseScale(x, 1000.0)
  }

  function Tenth(x: Cell): Result<Cell> {
    ParseScale(x, 0.1)
  }

  /** The DSDP unit conversions, in source order: chloride to mM via its
      molar mass, Sr, Zn, Cu and B times 1000, Li divided by 10. */
  const DsdpConversions: seq<Conversion> :=
    [Conversion("Cl", Chloride), Conversion("Sr", Thousandfold), Conversion("Zn", Thousandfold),
     Conversion("Cu", Thousandfold), Conversion("B", Thousandfold), Conversion("Li", Tenth)]

  /** `load_dsdp_iw`: the data cards of the DSDP file, reshaped to one row
      per sample and replicate, with chloride, strontium, zinc, copper,
      boron and lithium converted and every cell turned to text. */
  function LoadDsdpIw(raw: Frame): (r: Result<Frame>)
    ensures r.Success? ==> r.value.columns == DsdpHeader
    ensures "card type" !in Rename(raw, DsdpRenames).columns ==> r.Failure?
    ensures !(forall c | c in DsdpSource :: c in Rename(raw, DsdpRenames).columns) ==> r.Failure?
  {
    var named := Rename(raw, DsdpRenames);
    :- Need("card type" in named.columns, "KeyError: card type");
    var f := DataCards(raw);
    :- Need(forall c | c in DsdpSource :: c in f.columns, "KeyError");
    DsdpFinish(DsdpWide(f))
  }

  /** The cleaning after the merge: full stops to missing, the unit
      conversions, every cell to text. */
  function DsdpFinish(w: Frame): (r: Result<Frame>)
    ensures r.Success? ==> r.value.columns == w.columns && |r.value.rows| == |w.rows|
  {
    var v :- ConvertColumns(MapCells(w, DotToMissing), DsdpConversions);
    Success(MapCells(v, Textual))
  }

  /** Each finished cell is its merged cell with the full stops cleared,
      the units converted and the value turned to text. */
  lemma DsdpFinishGet(w: Frame, k: nat, c: string)
    requires DsdpFinish(w).Success? && k < |w.rows| && c in w.columns
    ensures Converted(DsdpConversions, c, DotToMissing(Get(w, k, c))).Success?
    ensures Get(DsdpFinish(w).value, k, c) == Textual(Converted(DsdpConversions, c, DotToMissing(Get(w, k, c))).value)
  {
    ConvertColumnsGet(MapCells(w, DotToMissing), DsdpConversions, k, c);
  }

  // ---------------------------------------------------------------------
  // DSDP: what the loaded table holds

  /** A successful load is the finished wide table of the data cards. */
  lemma DsdpLoaded(raw: Frame)
    requires LoadDsdpIw(raw).Success?
    ensures LoadDsdpIw(raw) == DsdpFinish(DsdpWide(DataCards(raw)))
  {
  }

  /** Keys and labels go through no conversion. */
  lemma DsdpUnconverted(c: string, x: Cell)
    requires c in DsdpLabels || c == "sample_key" || c == "rep_key"
    ensures Converted(DsdpConversions, c, x) == Success(x)
  {
    ConvertedUnlisted(DsdpConversions, c, x);
  }

  /** The label columns are in the header and are not keys. */
  lemma DsdpLabelPlace(c: string)
    requires c in DsdpLabels
    ensures c in DsdpHeader && c != "sample_key" && c != "rep_key"
  {
    var m :| 0 <= m < |DsdpLabels| && DsdpLabels[m] == c;
    assert (["sample_key"] + DsdpLabels)[m + 1] == c;
  }

  /** The tables of a data-card frame have unique keys within the grid of
      its samples and cards. */
  lemma DsdpApart(f: Frame)
    ensures TablesApart(DsdpTables(f.columns, DsdpEntries(f)), |Distinct(DsdpTuples(f))|, |f.rows|)
  {
    var es := DsdpEntries(f);
    assert forall i | 0 <= i < |es| :: es[i].sample < |Distinct(DsdpTuples(f))|;
    DsdpTablesApart(f.columns, es, |Distinct(DsdpTuples(f))|);
  }

  /** Every field of every anchor row and data card reaches the loaded
      table: on the row of its sample and replicate, in the column the
      field is published under, converted and as text. */
  lemma DsdpFieldCell(raw: Frame, t: nat, i: nat, j: nat) returns (k: nat)
    requires LoadDsdpIw(raw).Success?
    requires t < 7 && j < |DsdpFieldTable[t]|
    requires i < |DsdpTables(DataCards(raw).columns, DsdpEntries(DataCards(raw)))[t]|
    ensures var f := DataCards(raw); var out := LoadDsdpIw(raw).value;
      var e := DsdpTables(f.columns, DsdpEntries(f))[t][i]; var (src, c) := DsdpFieldTable[t][j];
      k < |out.rows| &&
      Get(out, k, "sample_key") == Textual(KeyCell(e.sample)) && Get(out, k, "rep_key") == Textual(KeyCell(e.rep)) &&
      Converted(DsdpConversions, c, DotToMissing(Value(f.columns, e.row, src))).Success? &&
      Get(out, k, c) == Textual(Converted(DsdpConversions, c, DotToMissing(Value(f.columns, e.row, src))).value)
  {
    var f := DataCards(raw);
    var w := DsdpWide(f);
    var e := DsdpTables(f.columns, DsdpEntries(f))[t][i];
    var c := DsdpFieldTable[t][j].1;
    k := DsdpWideField(f, t, i, j);
    DsdpLoaded(raw);
    DsdpKeysInHeader();
    DsdpKeyFinished(w, k, "sample_key", e.sample);
    DsdpKeyFinished(w, k, "rep_key", e.rep);
    assert c in w.columns by {
      DsdpFieldPublished(t, j);
      DsdpPublishedPlace(c);
    }
    DsdpFinishGet(w, k, c);
  }

  /** A field of an anchor row or data card, in the wide table: on the row
      of its sample and replicate, in the column it is published under. */
  lemma DsdpWideField(f: Frame, t: nat, i: nat, j: nat) returns (k: nat)
    requires t < 7 && j < |DsdpFieldTable[t]|
    requires i < |DsdpTables(f.columns, DsdpEntries(f))[t]|
    ensures var w := DsdpWide(f);
      var e := DsdpTables(f.columns, DsdpEntries(f))[t][i]; var (src, c) := DsdpFieldTable[t][j];
      k < |w.rows| &&
      Get(w, k, "sample_key") == KeyCell(e.sample) && Get(w, k, "rep_key") == KeyCell(e.rep) &&
      Get(w, k, c) == Value(f.columns, e.row, src)
  {
    var tables := DsdpTables(f.columns, DsdpEntries(f));
    var labels := Distinct(DsdpTuples(f));
    var c := DsdpFieldTable[t][j].1;
    DsdpApart(f);
    DsdpFieldPublished(t, j);
    DsdpPublishedPlace(c);
    DsdpFieldsApart();
    DsdpKeysInHeader();
    k := MergedField(f.columns, tables, DsdpFieldTable, DsdpLabels, labels, |f.rows|, DsdpHeader, t, i, j);
  }

  /** Every row of the wide table is the sample and replicate of some
      anchor row or data card. */
  lemma DsdpWideRowFrom(f: Frame, k: nat) returns (t: nat, i: nat)
    requires k < |DsdpWide(f).rows|
    ensures var tables := DsdpTables(f.columns, DsdpEntries(f));
      t < 7 && i < |tables[t]| &&
      Get(DsdpWide(f), k, "sample_key") == KeyCell(tables[t][i].sample) &&
      Get(DsdpWide(f), k, "rep_key") == KeyCell(tables[t][i].rep)
  {
    var tables := DsdpTables(f.columns, DsdpEntries(f));
    var labels := Distinct(DsdpTuples(f));
    DsdpApart(f);
    assert DsdpWide(f) == Merged(MergeReadings(f.columns, tables, DsdpFieldTable, |tables|), DsdpLabels, labels, |f.rows|, DsdpHeader);
    t, i := MergedRowFrom(f.columns, tables, DsdpFieldTable, DsdpLabels, labels, |f.rows|, DsdpHeader, k);
  }

  /** Every loaded row is the sample and replicate of some anchor row or
      data card. */
  lemma DsdpRowFrom(raw: Frame, k: nat) returns (t: nat, i: nat)
    requires LoadDsdpIw(raw).Success? && k < |LoadDsdpIw(raw).value.rows|
    ensures var f := DataCards(raw); var out := LoadDsdpIw(raw).value;
      var tables := DsdpTables(f.columns, DsdpEntries(f));
      t < 7 && i < |tables[t]| &&
      Get(out, k, "sample_key") == Textual(KeyCell(tables[t][i].sample)) &&
      Get(out, k, "rep_key") == Textual(KeyCell(tables[t][i].rep))
  {
    var f := DataCards(raw);
    var w := DsdpWide(f);
    DsdpLoaded(raw);
    t, i := DsdpWideRowFrom(f, k);
    var e := DsdpTables(f.columns, DsdpEntries(f))[t][i];
    DsdpKeysInHeader();
    DsdpKeyFinished(w, k, "sample_key", e.sample);
    DsdpKeyFinished(w, k, "rep_key", e.rep);
  }

  lemma DsdpKeysInHeader()
    ensures "sample_key" in DsdpHeader && "rep_key" in DsdpHeader
  {
    assert DsdpHeader[0] == "sample_key";
    assert DsdpHeader[1 + |DsdpLabels| + 5] == "rep_key";
  }

  /** A key cell goes through no conversion and is written as its digits. */
  lemma DsdpKeyFinished(w: Frame, k: nat, c: string, key: nat)
    requires DsdpFinish(w).Success? && k < |w.rows| && c in w.columns
    requires (c == "sample_key" || c == "rep_key") && Get(w, k, c) == KeyCell(key)
    ensures Get(DsdpFinish(w).value, k, c) == Textual(KeyCell(key))
  {
    DsdpFinishGet(w, k, c);
    DsdpUnconverted(c, Get(w, k, c));
  }

  /** Every row of the wide table carries the labels of its sample: those
      of any data card with its sample key. */
  lemma DsdpWideLabel(f: Frame, k: nat, n: nat, c: string)
    requires k < |DsdpWide(f).rows| && n < |f.rows| && c in DsdpLabels
    requires Get(DsdpWide(f), k, "sample_key") == KeyCell(SampleKeys(DsdpTuples(f))[n])
    ensures Get(DsdpWide(f), k, c) == Value(f.columns, f.rows[n], c)
  {
    var tuples := DsdpTuples(f);
    var tables := DsdpTables(f.columns, DsdpEntries(f));
    var labels := Distinct(tuples);
    var rs := MergeReadings(f.columns, tables, DsdpFieldTable, |tables|);
    DsdpApart(f);
    MergeInGrid(f.columns, tables, DsdpFieldTable, |tables|, |labels|, |f.rows|);
    assert DsdpWide(f) == Merged(rs, DsdpLabels, labels, |f.rows|, DsdpHeader);
    DsdpLabelPlace(c);
    MergedLabel(rs, DsdpLabels, labels, |f.rows|, DsdpHeader, k, c);
    var s := MergedKeys(rs, |labels|, |f.rows|)[k].0;
    KeyCellInjective(s, SampleKeys(tuples)[n]);
    assert labels[s] == tuples[n] == Realign(f.columns, f.rows[n], DsdpLabels);
  }

  /** Every loaded row carries the labels of its sample: those of any data
      card whose sample key it has, full stops cleared and as text. */
  lemma DsdpRowLabel(raw: Frame, k: nat, n: nat, c: string)
    requires LoadDsdpIw(raw).Success? && k < |LoadDsdpIw(raw).value.rows|
    requires n < |DataCards(raw).rows| && c in DsdpLabels
    requires Get(LoadDsdpIw(raw).value, k, "sample_key") == Textual(KeyCell(SampleKeys(DsdpTuples(DataCards(raw)))[n]))
    ensures Get(LoadDsdpIw(raw).value, k, c) == Textual(DotToMissing(Value(DataCards(raw).columns, DataCards(raw).rows[n], c)))
  {
    var f := DataCards(raw);
    var w := DsdpWide(f);
    DsdpLoaded(raw);
    DsdpLabelPlace(c);
    DsdpKeysInHeader();
    DsdpKeyBack(f, k, SampleKeys(DsdpTuples(f))[n]);
    DsdpWideLabel(f, k, n, c);
    DsdpLabelFinished(w, k, c);
  }

  /** A finished key cell, now text, was that key in the wide table. */
  lemma DsdpKeyBack(f: Frame, k: nat, key: nat)
    requires DsdpFinish(DsdpWide(f)).Success? && k < |DsdpWide(f).rows|
    requires Get(DsdpFinish(DsdpWide(f)).value, k, "sample_key") == Textual(KeyCell(key))
    ensures Get(DsdpWide(f), k, "sample_key") == KeyCell(key)
  {
    var t, i := DsdpWideRowFrom(f, k);
    var e := DsdpTables(f.columns, DsdpEntries(f))[t][i];
    DsdpKeysInHeader();
    DsdpKeyFinished(DsdpWide(f), k, "sample_key", e.sample);
    TextualWholeInjective(e.sample, key);
  }

  /** A label cell is finished by clearing full stops and writing it as text. */
  lemma DsdpLabelFinished(w: Frame, k: nat, c: string)
    requires DsdpFinish(w).Success? && k < |w.rows| && c in w.columns && c in DsdpLabels
    ensures Get(DsdpFinish(w).value, k, c) == Textual(DotToMissing(Get(w, k, c)))
  {
    DsdpFinishGet(w, k, c);
    DsdpUnconverted(c, DotToMissing(Get(w, k, c)));
  }
}
