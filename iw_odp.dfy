/** `load_odp_iw`: the ODP interstitial-water export. Every cell becomes
    text and is stripped; the 44 columns get fixed names; samples are keyed
    by their nine label columns; every data cell is split on whitespace
    runs into replicates; the keys are written as text, placeholders become
    missing, and six analytes are converted to the standard units. */
module IwOdp {
  import opened Wrappers
  import opened Seqs
  import opened Frames
  import opened Keys
  import opened Reshape
  import opened Units
  import opened IwChem
  import opened IwSplit
  import Text

  /** The nine columns that identify an ODP sample. */
  const OdpLabels: seq<string> :=
    ["leg", "site", "hole", "core", "type", "section", "top", "bottom", "sample_depth"]

  /** The 35 data columns, in file order. */
  const OdpData: seq<string> := OdpDataA + OdpDataB + OdpDataC

  const OdpDataA: seq<string> := ["Al", "NH4", "B", "Br", "Ca", "Cl", "F", "I", "Fe", "Li", "Mg", "Mn"]

  const OdpDataB: seq<string> := ["NO3", "pH", "PO4", "K", "Rb", "Na", "Sr", "SO4", "Si", "alkalinity", "salinity", "Ba"]

  const OdpDataC: seq<string> := ["Pb", "H2", "DIC", "formate", "ppH", "DOC", "acetate", "NO2", "color", "sulfide", "Zn"]

  /** The names given to the file's columns, by position. */
  const OdpHeaders: seq<string> := OdpLabels + OdpData

  /** The merged table: the keys, the data columns, then the labels joined
      on the sample key. */
  const OdpWideHeader: seq<string> := ["sample_key", "rep_key"] + OdpData + OdpLabels

  /** `.str.split('\s+')` on a cell: the tokens between whitespace runs. */
  function SplitSpace(x: Cell): (ps: seq<Cell>)
    ensures |ps| >= 1
    ensures x.Str? ==> |ps| == |Text.SplitRuns(x.s)|
    ensures x.Str? ==> forall j | 0 <= j < |ps| :: ps[j] == Str(Text.SplitRuns(x.s)[j])
    ensures !x.Str? ==> ps == [x]
  {
    if x.Str? then Map((t: string) => Str(t), Text.SplitRuns(x.s)) else [x]
  }

  /** `replace('None', nan)` and `replace(['', '...'], nan)`. */
  function OdpBlank(x: Cell): (r: Cell)
    ensures r == Missing <==> x == Missing || x == Str("None") || x == Str("") || x == Str("...")
    ensures r != Missing ==> r == x
  {
    if x == Str("None") || x == Str("") || x == Str("...") then Missing else x
  }

  function Milli(x: Cell): Result<Cell> {
    ReadScale(x, 0.001)
  }

  function Kilo(x: Cell): Result<Cell> {
    ReadScale(x, 1000.0)
  }

  /** NH4, Br and NO2 divided by 1000; B, Pb and Zn times 1000. */
  const OdpConversions: seq<Conversion> :=
    [Conversion("NH4", Milli), Conversion("B", Kilo), Conversion("Br", Milli),
     Conversion("Pb", Kilo), Conversion("NO2", Milli), Conversion("Zn", Kilo)]

  /** The text of the file under the fixed names, every cell stripped; a
      file without exactly 44 columns is refused. */
  function OdpFrame(raw: Frame): (r: Result<Frame>)
    ensures r.Success? <==> |raw.columns| == |OdpHeaders|
    ensures r.Success? ==> r.value.columns == OdpHeaders && |r.value.rows| == |raw.rows|
  {
    var named :- SetColumns(MapCells(raw, Textual), OdpHeaders);
    Success(MapCells(named, StripText))
  }

  /** Each row's label tuple. */
  function OdpTuples(f: Frame): (ts: seq<Row>)
    ensures |ts| == |f.rows| && forall i | 0 <= i < |f.rows| :: ts[i] == Realign(f.columns, f.rows[i], OdpLabels)
  {
    Map((r: Row) => Realign(f.columns, r, OdpLabels), f.rows)
  }

  /** The merged table of the split data columns. */
  function OdpWide(f: Frame): (w: Frame)
    ensures w.columns == OdpWideHeader
    ensures "sample_key" in w.columns && "rep_key" in w.columns
  {
    assert OdpWideHeader[0] == "sample_key" && OdpWideHeader[1] == "rep_key";
    var tuples := OdpTuples(f);
    SplitWide(f, SampleKeys(tuples), OdpData, SplitSpace, OdpLabels, Distinct(tuples), OdpWideHeader)
  }

  function LoadOdpIw(raw: Frame): (r: Result<Frame>)
    ensures |raw.columns| != |OdpHeaders| ==> r.Failure?
    ensures r.Success? ==> r.value.columns == OdpWideHeader
  {
    var f :- OdpFrame(raw);
    OdpFinish(OdpWide(f))
  }

  /** The cleaning after the merge: the keys written as text (the sample
      table's `applymap(str)` and the replicate numbers' `.map(int).map(str)`),
      placeholders to missing, then the unit conversions. */
  function OdpFinish(w: Frame): (r: Result<Frame>)
    requires "sample_key" in w.columns && "rep_key" in w.columns
    ensures r.Success? ==> r.value.columns == w.columns && |r.value.rows| == |w.rows|
  {
    ConvertColumns(MapCells(KeysAsText(w), OdpBlank), OdpConversions)
  }

  /** The two key columns written as text; every other cell as it was. */
  function KeysAsText(w: Frame): (h: Frame)
    requires "sample_key" in w.columns && "rep_key" in w.columns
    ensures h.columns == w.columns && |h.rows| == |w.rows|
  {
    MapColumn(MapColumn(w, "sample_key", Textual), "rep_key", Textual)
  }

  lemma KeysAsTextGet(w: Frame, k: nat, c: string)
    requires "sample_key" in w.columns && "rep_key" in w.columns && k < |w.rows|
    ensures Get(KeysAsText(w), k, c) == if c == "sample_key" || c == "rep_key" then Textual(Get(w, k, c)) else Get(w, k, c)
  {
    var once := MapColumn(w, "sample_key", Textual);
    if c != "rep_key" {
      assert Get(KeysAsText(w), k, c) == Get(once, k, c);
    }
  }

  // ---------------------------------------------------------------------
  // the fixed names

  lemma OdpLabelsDistinct()
    ensures NoDup(OdpLabels)
  {
  }

  lemma OdpDataADistinct()
    ensures NoDup(OdpDataA)
  {
  }

  lemma OdpDataBDistinct()
    ensures NoDup(OdpDataB)
  {
  }

  lemma OdpDataCDistinct()
    ensures NoDup(OdpDataC)
  {
  }

  lemma OdpDataApartAB()
    ensures forall i, j | 0 <= i < |OdpDataA| && 0 <= j < |OdpDataB| :: OdpDataA[i] != OdpDataB[j]
  {
  }

  lemma OdpDataApartC()
    ensures forall i, j | 0 <= i < |OdpDataA + OdpDataB| && 0 <= j < |OdpDataC| :: (OdpDataA + OdpDataB)[i] != OdpDataC[j]
  {
  }

  lemma OdpDataDistinct()
    ensures NoDup(OdpData)
  {
    OdpDataADistinct();
    OdpDataBDistinct();
    OdpDataCDistinct();
    OdpDataApartAB();
    NoDupAppend(OdpDataA, OdpDataB);
    OdpDataApartC();
    NoDupAppend(OdpDataA + OdpDataB, OdpDataC);
  }

  lemma OdpDataNotLabel(t: nat)
    requires t < |OdpData|
    ensures OdpData[t] !in OdpLabels && OdpData[t] != "sample_key" && OdpData[t] != "rep_key"
  {
  }

  /** No name is given to two columns. */
  lemma OdpHeadersDistinct()
    ensures NoDup(OdpHeaders)
  {
    OdpLabelsDistinct();
    OdpDataDistinct();
    forall i, j | 0 <= i < j < |OdpHeaders| ensures OdpHeaders[i] != OdpHeaders[j] {
      if i < 9 && j >= 9 {
        OdpDataNotLabel(j - 9);
      }
    }
  }

  /** Each data column has its place in the merged table, apart from the
      labels and keys. */
  lemma OdpDataPlace(t: nat)
    requires t < |OdpData|
    ensures OdpData[t] in OdpWideHeader && OdpData[t] !in OdpLabels
    ensures OdpData[t] != "sample_key" && OdpData[t] != "rep_key"
  {
    assert OdpWideHeader[t + 2] == OdpData[t];
    OdpDataNotLabel(t);
  }

  lemma OdpLabelPlace(c: string)
    requires c in OdpLabels
    ensures c in OdpWideHeader && c != "sample_key" && c != "rep_key" && c !in OdpData
  {
    var m :| 0 <= m < |OdpLabels| && OdpLabels[m] == c;
    assert OdpWideHeader[2 + |OdpData| + m] == c;
    forall t | 0 <= t < |OdpData| ensures OdpData[t] != c {
      OdpDataNotLabel(t);
    }
  }

  /** The names are positional: column `k` of the file is read under the
      `k`-th name, as stripped text. */
  lemma OdpFrameGet(raw: Frame, n: nat, k: nat)
    requires |raw.columns| == |OdpHeaders| && n < |raw.rows| && k < |OdpHeaders|
    ensures Get(OdpFrame(raw).value, n, OdpHeaders[k]) == StripText(Textual(At(raw.rows[n], k)))
  {
    OdpHeadersDistinct();
    FindDistinct(OdpHeaders, k);
    var named := SetColumns(MapCells(raw, Textual), OdpHeaders).value;
    assert Get(named, n, OdpHeaders[k]) == At(MapCells(raw, Textual).rows[n], k);
    MapCellsAt(raw, Textual, n, k);
  }

  /** The file's columns are the labels, then the data columns. */
  lemma OdpHeaderParts(m: nat, t: nat)
    requires m < |OdpLabels| && t < |OdpData|
    ensures OdpHeaders[m] == OdpLabels[m] && OdpHeaders[9 + t] == OdpData[t]
  {
  }

  // ---------------------------------------------------------------------
  // unit conversions

  /** Every ODP conversion is an exact scaling of the number read from the
      cell: NH4, Br and NO2 by 1/1000, B, Pb and Zn by 1000; no other
      column is touched. */
  lemma OdpConverted(c: string, x: Cell)
    ensures c == "NH4" || c == "Br" || c == "NO2" ==> Converted(OdpConversions, c, x) == ReadScale(x, 0.001)
    ensures c == "B" || c == "Pb" || c == "Zn" ==> Converted(OdpConversions, c, x) == ReadScale(x, 1000.0)
    ensures c !in ["NH4", "Br", "NO2", "B", "Pb", "Zn"] ==> Converted(OdpConversions, c, x) == Success(x)
  {
    var C := OdpConversions;
    if c == "NH4" {
      assert Converted(C, c, x) == Milli(x) by { ConvertedOnly(C, 0, c, x); }
    } else if c == "B" {
      assert Converted(C, c, x) == Kilo(x) by { ConvertedOnly(C, 1, c, x); }
    } else if c == "Br" {
      assert Converted(C, c, x) == Milli(x) by { ConvertedOnly(C, 2, c, x); }
    } else if c == "Pb" {
      assert Converted(C, c, x) == Kilo(x) by { ConvertedOnly(C, 3, c, x); }
    } else if c == "NO2" {
      assert Converted(C, c, x) == Milli(x) by { ConvertedOnly(C, 4, c, x); }
    } else if c == "Zn" {
      assert Converted(C, c, x) == Kilo(x) by { ConvertedOnly(C, 5, c, x); }
    } else {
      ConvertedUnlisted(C, c, x);
    }
  }

  // ---------------------------------------------------------------------
  // the merged table

  lemma OdpKeysBelow(f: Frame)
    ensures forall i | 0 <= i < |f.rows| :: SampleKeys(OdpTuples(f))[i] < |Distinct(OdpTuples(f))|
  {
  }

  /** The `j`-th token of row `n`'s cell in a data column lands on the row
      of that sample (and of replicate `j + 1` when the sample has no
      other row), in the column's own name. */
  lemma OdpWideField(f: Frame, t: nat, n: nat, j: nat) returns (k: nat)
    requires t < |OdpData| && n < |f.rows| && j < |SplitSpace(Get(f, n, OdpData[t]))|
    ensures var w := OdpWide(f); var keys := SampleKeys(OdpTuples(f));
      k < |w.rows| && Get(w, k, "sample_key") == KeyCell(keys[n]) &&
      Get(w, k, OdpData[t]) == SplitSpace(Get(f, n, OdpData[t]))[j] &&
      ((forall i | 0 <= i < |keys| && i != n :: keys[i] != keys[n]) ==> Get(w, k, "rep_key") == KeyCell(j + 1))
  {
    var tuples := OdpTuples(f);
    OdpKeysBelow(f);
    OdpDataDistinct();
    OdpDataPlace(t);
    k := SplitField(f, SampleKeys(tuples), OdpData, SplitSpace, OdpLabels, Distinct(tuples), OdpWideHeader, t, n, j);
  }

  /** The rows of the merged table are the keys of the split columns, in
      key order. */
  lemma OdpWideKeys(f: Frame, k: nat)
    requires k < |OdpWide(f).rows|
    ensures var keys := SplitKeys(f, SampleKeys(OdpTuples(f)), OdpData, SplitSpace, |Distinct(OdpTuples(f))|);
      |OdpWide(f).rows| == |keys| &&
      Get(OdpWide(f), k, "sample_key") == KeyCell(keys[k].0) && Get(OdpWide(f), k, "rep_key") == KeyCell(keys[k].1)
  {
  }

  /** Every row of the merged table carries the labels of its sample:
      those of any file row with its sample key. */
  lemma OdpWideLabel(f: Frame, k: nat, n: nat, c: string)
    requires f.columns == OdpHeaders
    requires k < |OdpWide(f).rows| && n < |f.rows| && c in OdpLabels
    requires Get(OdpWide(f), k, "sample_key") == KeyCell(SampleKeys(OdpTuples(f))[n])
    ensures Get(OdpWide(f), k, c) == Get(f, n, c)
  {
    var tuples := OdpTuples(f);
    var keys := SampleKeys(tuples);
    var labels := Distinct(tuples);
    var tables := SplitTables(f, keys, OdpData, SplitSpace);
    var rs := SplitReadings(f, keys, OdpData, SplitSpace);
    OdpKeysBelow(f);
    SplitTablesApart(f, keys, OdpData, SplitSpace, |labels|);
    MergeInGrid([Piece], tables, PieceFields(OdpData), |tables|, |labels|, Longest(tables));
    OdpLabelPlace(c);
    MergedLabel(rs, OdpLabels, labels, Longest(tables), OdpWideHeader, k, c);
    var s := MergedKeys(rs, |labels|, Longest(tables))[k].0;
    KeyCellInjective(s, keys[n]);
    assert labels[s] == tuples[n] == Realign(f.columns, f.rows[n], OdpLabels);
  }

  // ---------------------------------------------------------------------
  // what the loaded table holds

  lemma OdpLoaded(raw: Frame)
    requires LoadOdpIw(raw).Success?
    ensures OdpFrame(raw).Success?
    ensures LoadOdpIw(raw) == OdpFinish(OdpWide(OdpFrame(raw).value))
  {
  }

  /** The finished cells outside the keys: placeholders cleared, then
      converted. */
  lemma OdpFinishGet(w: Frame, k: nat, c: string)
    requires "sample_key" in w.columns && "rep_key" in w.columns
    requires OdpFinish(w).Success? && k < |w.rows| && c in w.columns
    requires c != "sample_key" && c != "rep_key"
    ensures Converted(OdpConversions, c, OdpBlank(Get(w, k, c))).Success?
    ensures Get(OdpFinish(w).value, k, c) ==
      Converted(OdpConversions, c, OdpBlank(Get(w, k, c))).value
  {
    KeysAsTextGet(w, k, c);
    ConvertColumnsGet(MapCells(KeysAsText(w), OdpBlank), OdpConversions, k, c);
  }

  /** Key cells come out as the text of their numbers. */
  lemma OdpFinishKeys(w: Frame, k: nat, s: nat, r: nat)
    requires "sample_key" in w.columns && "rep_key" in w.columns
    requires OdpFinish(w).Success? && k < |w.rows|
    requires Get(w, k, "sample_key") == KeyCell(s) && Get(w, k, "rep_key") == KeyCell(r)
    ensures Get(OdpFinish(w).value, k, "sample_key") == Textual(KeyCell(s))
    ensures Get(OdpFinish(w).value, k, "rep_key") == Textual(KeyCell(r))
  {
    OdpKeyFinished(w, k, "sample_key", s);
    OdpKeyFinished(w, k, "rep_key", r);
  }

  lemma OdpKeyFinished(w: Frame, k: nat, c: string, n: nat)
    requires "sample_key" in w.columns && "rep_key" in w.columns
    requires OdpFinish(w).Success? && k < |w.rows|
    requires c == "sample_key" || c == "rep_key"
    requires Get(w, k, c) == KeyCell(n)
    ensures Get(OdpFinish(w).value, k, c) == Textual(KeyCell(n))
  {
    KeysAsTextGet(w, k, c);
    KeyTextKept(n);
    OdpKeyKept(KeysAsText(w), k, c, Textual(KeyCell(n)));
  }

  /** A key cell that is no placeholder passes the cleaning unchanged. */
  lemma OdpKeyKept(g: Frame, k: nat, c: string, y: Cell)
    requires ConvertColumns(MapCells(g, OdpBlank), OdpConversions).Success?
    requires k < |g.rows| && c in g.columns && (c == "sample_key" || c == "rep_key")
    requires Get(g, k, c) == y && OdpBlank(y) == y
    ensures Get(ConvertColumns(MapCells(g, OdpBlank), OdpConversions).value, k, c) == y
  {
    var blanked := MapCells(g, OdpBlank);
    assert Get(blanked, k, c) == y;
    KeysUnconverted(c, y);
    ConvertColumnsGet(blanked, OdpConversions, k, c);
  }

  /** No conversion names a key column. */
  lemma KeysUnconverted(c: string, y: Cell)
    requires c == "sample_key" || c == "rep_key"
    ensures Converted(OdpConversions, c, y) == Success(y)
  {
    assert forall m | 0 <= m < |OdpConversions| :: OdpConversions[m].column != c;
    ConvertedUnlisted(OdpConversions, c, y);
  }

  /** The text of a key is no placeholder. */
  lemma KeyTextKept(n: nat)
    ensures OdpBlank(Textual(KeyCell(n))) == Textual(KeyCell(n))
  {
    TextualRoundTrip(n);
    Text.IntTextEnds(n);
    var t := Text.IntText(n);
    assert Text.IsDigit(t[|t| - 1]);
    assert !Text.IsDigit("None"[3]) && !Text.IsDigit("..."[2]);
  }

  /** `OdpWideField` carried through the cleaning. */
  lemma OdpDoneField(f: Frame, t: nat, n: nat, j: nat) returns (k: nat)
    requires OdpFinish(OdpWide(f)).Success?
    requires t < |OdpData| && n < |f.rows| && j < |SplitSpace(Get(f, n, OdpData[t]))|
    ensures var out := OdpFinish(OdpWide(f)).value; var keys := SampleKeys(OdpTuples(f));
      var c := OdpData[t]; var x := SplitSpace(Get(f, n, c))[j];
      k < |out.rows| && Get(out, k, "sample_key") == Textual(KeyCell(keys[n])) &&
      Converted(OdpConversions, c, OdpBlank(x)).Success? &&
      Get(out, k, c) == Converted(OdpConversions, c, OdpBlank(x)).value &&
      ((forall i | 0 <= i < |keys| && i != n :: keys[i] != keys[n]) ==> Get(out, k, "rep_key") == Textual(KeyCell(j + 1)))
  {
    var w := OdpWide(f);
    k := OdpWideField(f, t, n, j);
    OdpDataPlace(t);
    OdpFinishGet(w, k, OdpData[t]);
    var ks := SplitKeys(f, SampleKeys(OdpTuples(f)), OdpData, SplitSpace, |Distinct(OdpTuples(f))|);
    OdpWideKeys(f, k);
    OdpFinishKeys(w, k, ks[k].0, ks[k].1);
  }

  /** `OdpWideKeys` carried through the cleaning. */
  lemma OdpDoneKeys(f: Frame, k: nat)
    requires OdpFinish(OdpWide(f)).Success? && k < |OdpWide(f).rows|
    ensures var keys := SplitKeys(f, SampleKeys(OdpTuples(f)), OdpData, SplitSpace, |Distinct(OdpTuples(f))|);
      var out := OdpFinish(OdpWide(f)).value;
      |out.rows| == |keys| &&
      Get(out, k, "sample_key") == Textual(KeyCell(keys[k].0)) && Get(out, k, "rep_key") == Textual(KeyCell(keys[k].1))
  {
    var keys := SplitKeys(f, SampleKeys(OdpTuples(f)), OdpData, SplitSpace, |Distinct(OdpTuples(f))|);
    OdpWideKeys(f, k);
    OdpFinishKeys(OdpWide(f), k, keys[k].0, keys[k].1);
  }

  /** `OdpWideLabel` carried through the cleaning. */
  lemma OdpDoneLabel(f: Frame, k: nat, n: nat, c: string)
    requires f.columns == OdpHeaders && OdpFinish(OdpWide(f)).Success?
    requires k < |OdpWide(f).rows| && n < |f.rows| && c in OdpLabels
    requires Get(OdpFinish(OdpWide(f)).value, k, "sample_key") == Textual(KeyCell(SampleKeys(OdpTuples(f))[n]))
    ensures Get(OdpFinish(OdpWide(f)).value, k, c) == OdpBlank(Get(f, n, c))
  {
    var w := OdpWide(f);
    var keys := SplitKeys(f, SampleKeys(OdpTuples(f)), OdpData, SplitSpace, |Distinct(OdpTuples(f))|);
    OdpWideKeys(f, k);
    OdpFinishKeys(w, k, keys[k].0, keys[k].1);
    TextualWholeInjective(keys[k].0, SampleKeys(OdpTuples(f))[n]);
    OdpWideLabel(f, k, n, c);
    OdpLabelPlace(c);
    OdpFinishGet(w, k, c);
    OdpConverted(c, OdpBlank(Get(w, k, c)));
  }

  /** The `j`-th whitespace-separated token of the cell in data column `t`
      of file row `n` is, placeholders cleared and units converted, the
      value of that column on the row of the sample (and of replicate
      `j + 1` when no other file row has the same labels). */
  lemma OdpToken(raw: Frame, t: nat, n: nat, j: nat) returns (k: nat)
    requires LoadOdpIw(raw).Success? && t < |OdpData| && n < |raw.rows|
    requires j < |SplitSpace(StripText(Textual(At(raw.rows[n], 9 + t))))|
    ensures var f := OdpFrame(raw).value; var out := LoadOdpIw(raw).value;
      var keys := SampleKeys(OdpTuples(f)); var c := OdpData[t];
      var x := SplitSpace(StripText(Textual(At(raw.rows[n], 9 + t))))[j];
      k < |out.rows| && Get(out, k, "sample_key") == Textual(KeyCell(keys[n])) &&
      Converted(OdpConversions, c, OdpBlank(x)).Success? &&
      Get(out, k, c) == Converted(OdpConversions, c, OdpBlank(x)).value &&
      ((forall i | 0 <= i < |keys| && i != n :: keys[i] != keys[n]) ==> Get(out, k, "rep_key") == Textual(KeyCell(j + 1)))
  {
    OdpLoaded(raw);
    var f := OdpFrame(raw).value;
    OdpHeaderParts(0, t);
    OdpFrameGet(raw, n, 9 + t);
    k := OdpDoneField(f, t, n, j);
  }

  /** The loaded table has one row for each sample and each replicate
      number from 1 to the most tokens any of the sample's data cells
      splits into, in key order. */
  lemma OdpRows(raw: Frame, k: nat, s: nat, r: nat)
    requires LoadOdpIw(raw).Success?
    ensures var f := OdpFrame(raw).value; var out := LoadOdpIw(raw).value;
      var tuples := OdpTuples(f);
      var keys := SplitKeys(f, SampleKeys(tuples), OdpData, SplitSpace, |Distinct(tuples)|);
      |out.rows| == |keys| && Ascending(keys) &&
      (k < |keys| ==> Get(out, k, "sample_key") == Textual(KeyCell(keys[k].0)) && Get(out, k, "rep_key") == Textual(KeyCell(keys[k].1))) &&
      ((s, r) in keys <==> exists t | 0 <= t < |OdpData| :: 1 <= r <= PieceCount(SampleKeys(tuples), ColumnPieces(f, OdpData[t], SplitSpace), s))
  {
    OdpLoaded(raw);
    var f := OdpFrame(raw).value;
    OdpKeysBelow(f);
    SplitRows(f, SampleKeys(OdpTuples(f)), OdpData, SplitSpace, |Distinct(OdpTuples(f))|, s, r);
    if k < |OdpWide(f).rows| {
      OdpDoneKeys(f, k);
    }
  }

  /** Every loaded row carries the labels of its sample: those of any file
      row whose labels it was keyed by, stripped, placeholders cleared. */
  lemma OdpLabel(raw: Frame, k: nat, n: nat, m: nat)
    requires LoadOdpIw(raw).Success? && k < |LoadOdpIw(raw).value.rows| && n < |raw.rows| && m < |OdpLabels|
    requires Get(LoadOdpIw(raw).value, k, "sample_key") == Textual(KeyCell(SampleKeys(OdpTuples(OdpFrame(raw).value))[n]))
    ensures Get(LoadOdpIw(raw).value, k, OdpLabels[m]) == OdpBlank(StripText(Textual(At(raw.rows[n], m))))
  {
    OdpLoaded(raw);
    var f := OdpFrame(raw).value;
    OdpHeaderParts(m, 0);
    OdpFrameGet(raw, n, m);
    OdpDoneLabel(f, k, n, OdpLabels[m]);
  }
}
