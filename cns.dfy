/** Carbon, nitrogen and sulfur (CNS): carbon fractions, nitrogen and
    sulfur per sample from the DSDP, ODP and IODP tables and from the
    Chikyu files, compiled into one table. */
module Cns {
  import opened Wrappers
  import opened Seqs
  import opened Frames
  import opened Canon
  import opened Chikyu
  import Text
  import opened Units

  // ---------------------------------------------------------------------
  // DSDP

  const DsdpRenames: map<string, string> :=
    map["sample depth (m)" := "sample_depth", "percent total carbon" := "total_carbon",
        "percent organic carbon" := "organic_carbon",
        "percent calcium carbonate (CaCO3)" := "calcium_carbonate",
        "method code" := "method", "data source code" := "data_source"]

  const DsdpColumns: seq<string> :=
    ["leg", "site", "hole", "core", "section", "sample_depth", "total_carbon", "organic_carbon",
     "calcium_carbonate", "method", "data_source"]

  function LoadDsdpCns(raw: Frame): (r: Result<Frame>)
    ensures r.Success? <==> forall c | c in DsdpColumns :: c in Rename(raw, DsdpRenames).columns
    ensures r.Success? ==> r.value.columns == DsdpColumns && |r.value.rows| == |raw.rows|
  {
    Project(raw, DsdpRenames, DsdpColumns)
  }

  /** Each DSDP column holds, row for row, the cleaned values of the source
      header renamed to it. */
  lemma DsdpCnsValues(raw: Frame, h: string, i: nat)
    requires LoadDsdpCns(raw).Success? && NoDup(Rename(raw, DsdpRenames).columns) && i < |raw.rows|
    requires h in raw.columns && RenamedName(DsdpRenames, h) in DsdpColumns
    ensures Get(LoadDsdpCns(raw).value, i, RenamedName(DsdpRenames, h)) == Cleaned(raw, i, h)
  {
    ProjectGet(raw, DsdpRenames, DsdpColumns, h, i);
  }

  // ---------------------------------------------------------------------
  // ODP

  const OdpRenames: map<string, string> :=
    map["Leg" := "leg", "Site" := "site", "H" := "hole", "Cor" := "core", "Sc" := "section",
        "Depth (mbsf)" := "sample_depth", "INOR_C (wt %)" := "inorganic_carbon",
        "CaCO3 (wt %)" := "calcium_carbonate", "TOT_C (wt %)" := "total_carbon",
        "ORG_C (wt %)" := "organic_carbon", "N (wt %)" := "nitrogen", "S (wt %)" := "sulfur",
        "H (mg HC/g)" := "hydrogen"]

  const OdpColumns: seq<string> :=
    ["leg", "site", "hole", "core", "section", "sample_depth", "inorganic_carbon",
     "calcium_carbonate", "total_carbon", "organic_carbon", "nitrogen", "sulfur"]

  function LoadOdpCns(raw: Frame): (r: Result<Frame>)
    ensures r.Success? <==> forall c | c in OdpColumns :: c in Rename(raw, OdpRenames).columns
    ensures r.Success? ==> r.value.columns == OdpColumns && |r.value.rows| == |raw.rows|
  {
    Project(raw, OdpRenames, OdpColumns)
  }

  /** Each ODP column holds the cleaned values of the source header renamed
      to it. */
  lemma OdpCnsValues(raw: Frame, h: string, i: nat)
    requires LoadOdpCns(raw).Success? && NoDup(Rename(raw, OdpRenames).columns) && i < |raw.rows|
    requires h in raw.columns && RenamedName(OdpRenames, h) in OdpColumns
    ensures Get(LoadOdpCns(raw).value, i, RenamedName(OdpRenames, h)) == Cleaned(raw, i, h)
  {
    ProjectGet(raw, OdpRenames, OdpColumns, h, i);
  }

  /** The hydrogen column is renamed but not projected: the published ODP
      table has no column its values could reach. */
  lemma OdpHydrogenDropped(raw: Frame)
    requires LoadOdpCns(raw).Success?
    ensures RenamedName(OdpRenames, "H (mg HC/g)") == "hydrogen"
    ensures RenamedName(OdpRenames, "H (mg HC/g)") !in LoadOdpCns(raw).value.columns
  {
    assert "H (mg HC/g)" in OdpRenames;
  }

  // ---------------------------------------------------------------------
  // IODP

  /** The text the IODP table uses for "below detection". */
  const BelowDetection: set<string> :=
    {"nd", "n.d.", "ND", "N.D.", "bdl", "BLD", "bld", "bd", "BD", "BDL", "b.d.l.", "B.D.L."}

  /** `replace(to_replace=tokens, value=0)` on one cell: a cell that is
      exactly one of the tokens becomes 0. */
  function ZeroBelowDetection(x: Cell): (r: Cell)
    ensures x.Str? && x.s in BelowDetection ==> r == Num(0.0)
    ensures !(x.Str? && x.s in BelowDetection) ==> r == x
  {
    if x.Str? && x.s in BelowDetection then Num(0.0) else x
  }

  const IodpRenames: map<string, string> :=
    map["Exp" := "leg", "Site" := "site", "Hole" := "hole", "Core" := "core", "Sect" := "section",
        "Top depth CSF-A (m)" := "sample_depth", "Inorganic carbon (wt%)" := "inorganic_carbon",
        "Calcium carbonate (wt%)" := "calcium_carbonate", "Total carbon (wt%)" := "total_carbon",
        "Hydrogen (wt%)" := "hydrogen", "Nitrogen (wt%)" := "nitrogen", "Sulfur (wt%)" := "sulfur",
        "Organic carbon (wt%) by difference (CHNS-COUL)" := "organic_carbon",
        "Organic carbon (wt%), CHNS with treated sample (wt%)" := "organic_carbon_treated",
        "Sample treatment method (CHNS organic carbon)" := "method", "Comments" := "comments"]

  const IodpColumns: seq<string> :=
    ["leg", "site", "hole", "core", "section", "sample_depth", "inorganic_carbon",
     "calcium_carbonate", "total_carbon", "nitrogen", "sulfur", "organic_carbon",
     "organic_carbon_treated", "method", "comments"]

  /** The rows of the test expedition are dropped. */
  predicate KeepIodpRow(r: Row) {
    Value(IodpColumns, r, "leg") != Str("TEST(344)")
  }

  /** As written: the tokens are replaced by 0 in the raw table, and the
      cleaning loop that follows passes every text column through
      `.str.strip()`, which turns the number 0 in such a column into NaN. */
  function IodpProjectedAsWritten(raw: Frame): (r: Result<Frame>)
    ensures r.Success? ==> r.value.columns == IodpColumns && |r.value.rows| == |raw.rows|
  {
    Project(MapCells(raw, ZeroBelowDetection), IodpRenames, IodpColumns)
  }

  /** A below-detection cell in a column that also holds other text comes
      out missing, not 0: the replacement is undone by the cleaning. */
  lemma BelowDetectionLost(raw: Frame, h: string, i: nat, j: nat)
    requires IodpProjectedAsWritten(raw).Success? && NoDup(Rename(raw, IodpRenames).columns)
    requires h in raw.columns && RenamedName(IodpRenames, h) in IodpColumns
    requires i < |raw.rows| && j < |raw.rows|
    requires Get(raw, i, h).Str? && Get(raw, i, h).s in BelowDetection
    requires Get(raw, j, h).Str? && Get(raw, j, h).s !in BelowDetection
    ensures Get(IodpProjectedAsWritten(raw).value, i, RenamedName(IodpRenames, h)) == Missing
  {
    var z := MapCells(raw, ZeroBelowDetection);
    assert Rename(z, IodpRenames).columns == Rename(raw, IodpRenames).columns;
    ProjectGet(z, IodpRenames, IodpColumns, h, i);
    assert Column(z, h)[j] == Get(z, j, h) == Get(raw, j, h);
    assert IsObject(Column(z, h));
    assert Get(z, i, h) == Num(0.0);
  }

  /** Corrected: the tokens become 0 after the cleaning, so the 0 is kept. */
  function IodpProjected(raw: Frame): (r: Result<Frame>)
    ensures r.Success? <==> forall c | c in IodpColumns :: c in Rename(raw, IodpRenames).columns
    ensures r.Success? ==> r.value.columns == IodpColumns && |r.value.rows| == |raw.rows|
  {
    var f :- Project(raw, IodpRenames, IodpColumns);
    Success(MapCells(f, ZeroBelowDetection))
  }

  /** Every projected IODP cell is the cleaned source cell, with a
      below-detection token read as 0. */
  lemma IodpCnsValues(raw: Frame, h: string, i: nat)
    requires IodpProjected(raw).Success? && NoDup(Rename(raw, IodpRenames).columns)
    requires h in raw.columns && RenamedName(IodpRenames, h) in IodpColumns && i < |raw.rows|
    ensures Get(IodpProjected(raw).value, i, RenamedName(IodpRenames, h)) == ZeroBelowDetection(Cleaned(raw, i, h))
  {
    ProjectGet(raw, IodpRenames, IodpColumns, h, i);
  }

  /** A cell holding exactly a token, in a column that also holds other
      text, is published as 0 by the corrected loader. */
  lemma BelowDetectionKept(raw: Frame, h: string, i: nat)
    requires IodpProjected(raw).Success? && NoDup(Rename(raw, IodpRenames).columns)
    requires h in raw.columns && RenamedName(IodpRenames, h) in IodpColumns && i < |raw.rows|
    requires Get(raw, i, h).Str? && Get(raw, i, h).s in BelowDetection
    ensures Get(IodpProjected(raw).value, i, RenamedName(IodpRenames, h)) == Num(0.0)
  {
    IodpCnsValues(raw, h, i);
    var x := Get(raw, i, h);
    TokenStripped(x.s);
    assert Column(raw, h)[i] == x;
    assert IsObject(Column(raw, h));
    assert StripCell(x) == x;
    assert x != Str("") by { assert |x.s| > 0; }
    assert Cleaned(raw, i, h) == x;
  }

  /** No token has surrounding whitespace. */
  lemma TokenStripped(tok: string)
    requires tok in BelowDetection
    ensures |tok| > 0 && Text.Strip(tok) == tok
  {
    assert tok[0] in "nNbB" && tok[|tok| - 1] in "dDlL.";
    Text.StripKeeps(tok);
  }

  function LoadIodpCns(raw: Frame): (r: Result<Frame>)
    ensures r.Success? <==> IodpProjected(raw).Success?
    ensures r.Success? ==> r.value.columns == IodpColumns
  {
    var f :- IodpProjected(raw);
    Success(FilterRows(f, KeepIodpRow))
  }

  /** The IODP table keeps exactly the projected rows whose leg is not
      TEST(344), in order and unchanged. */
  lemma IodpCnsRows(raw: Frame, k: nat, c: string)
    requires LoadIodpCns(raw).Success?
    ensures var f := IodpProjected(raw).value;
      |LoadIodpCns(raw).value.rows| == |KeptIndices(KeepIodpRow, f.rows)|
    ensures var f := IodpProjected(raw).value;
      var ix := KeptIndices(KeepIodpRow, f.rows);
      k < |ix| ==> Get(LoadIodpCns(raw).value, k, c) == Get(f, ix[k], c)
    ensures k < |LoadIodpCns(raw).value.rows| ==> Get(LoadIodpCns(raw).value, k, "leg") != Str("TEST(344)")
  {
    var f := IodpProjected(raw).value;
    FilterExact(KeepIodpRow, f.rows);
    var ix := KeptIndices(KeepIodpRow, f.rows);
    if k < |ix| {
      FilterRowsGet(f, KeepIodpRow, k, c);
      FilterRowsGet(f, KeepIodpRow, k, "leg");
      assert KeepIodpRow(f.rows[ix[k]]);
    }
  }

  // ---------------------------------------------------------------------
  // Chikyu

  /** The elif chain over the headers of a labelled file. */
  const CnsRules: seq<Rule> := [
    Rule("section::inorganic carbon content:", "inorganic_carbon"),
    Rule("analysis::inorganic carbon content:", "inorganic_carbon"),
    Rule("section::CaCO3 content:", "calcium_carbonate"),
    Rule("analysis::CaCO3 content:", "calcium_carbonate"),
    Rule("analysis::total carbon", "total_carbon"),
    Rule("analysis::sulfur", "sulfur"),
    Rule("analysis::nitrogen", "nitrogen")]

  const ChikyuColumns: seq<string> :=
    ["leg", "site", "hole", "sample_depth", "inorganic_carbon", "calcium_carbonate",
     "total_carbon", "sulfur", "nitrogen"]

  /** Every pattern holds a colon, so a header without one is left alone. */
  lemma NoCnsPattern(l: string)
    requires ':' !in l
    ensures RuleName(CnsRules, l) == l
  {
    Text.NotContainsChar(l, CnsRules[0].pattern, 7);
    Text.NotContainsChar(l, CnsRules[1].pattern, 8);
    Text.NotContainsChar(l, CnsRules[2].pattern, 7);
    Text.NotContainsChar(l, CnsRules[3].pattern, 8);
    Text.NotContainsChar(l, CnsRules[4].pattern, 8);
    Text.NotContainsChar(l, CnsRules[5].pattern, 8);
    Text.NotContainsChar(l, CnsRules[6].pattern, 8);
    RuleNameUnmatched(CnsRules, l);
  }

  /** The targets and the four labels hold no colon. */
  lemma CnsRulesFit()
    ensures Stable(CnsRules) && KeepsLabels(CnsRules)
  {
    forall i | 0 <= i < |CnsRules| ensures RuleName(CnsRules, CnsRules[i].target) == CnsRules[i].target {
      NoCnsPattern(CnsRules[i].target);
    }
    forall l | l in Labels ensures RuleName(CnsRules, l) == l {
      NoCnsPattern(l);
    }
  }

  /** The table built so far and the hole found last. */
  datatype Scan = Scan(table: Frame, cur: Option<HoleEntry>)

  /** One data file: skipped unless it is a csv file; otherwise its hole is
      searched for (the previous file's hole when it names none, a NameError
      when no hole has been found yet) and it is labelled; then it is
      appended to the table and the nine CNS columns are selected from the
      result (a KeyError when neither holds one of them). */
  function CnsStep(entries: seq<HoleEntry>, s: Scan, file: DataFile): Result<Scan> {
    if !IsCsv(file.name) then Success(s)
    else
      var found := ScanColumns(ObjectColumns(file.frame), entries, s.cur);
      if found.None? then Failure("NameError: no hole found")
      else
        var data :- Labelled(file.frame, found.value, CnsRules);
        var table :- Select(Concat(s.table, data), ChikyuColumns);
        Success(Scan(table, found))
  }

  /** The loop over the directory listing. */
  function CnsScan(entries: seq<HoleEntry>, files: seq<DataFile>): Result<Scan> {
    if |files| == 0 then Success(Scan(EmptyFrame(), None))
    else
      var s :- CnsScan(entries, files[..|files| - 1]);
      CnsStep(entries, s, files[|files| - 1])
  }

  function ChikyuCns(summary: Frame, files: seq<DataFile>): (r: Result<Frame>)
    ensures r.Success? ==> SummaryEntries(summary).Success?
  {
    var entries :- SummaryEntries(summary);
    var s :- CnsScan(entries, files);
    Success(s.table)
  }

  lemma {:induction false} CnsScanFails(entries: seq<HoleEntry>, files: seq<DataFile>, n: nat)
    requires n <= |files| && CnsScan(entries, files[..n]).Failure?
    ensures CnsScan(entries, files) == CnsScan(entries, files[..n])
    decreases |files| - n
  {
    if n < |files| {
      assert files[..n + 1][..n] == files[..n];
      CnsScanFails(entries, files, n + 1);
    } else {
      assert files[..n] == files;
    }
  }

  /** Reads the summary, then walks the files, searching each csv file for
      its hole, labelling it, renaming its analyte headers, appending it to
      the table and selecting the nine CNS columns. */
  method LoadChikyuCns(summary: Frame, files: seq<DataFile>) returns (r: Result<Frame>)
    ensures r == ChikyuCns(summary, files)
  {
    var entries :- ReadSummary(summary);
    CnsRulesFit();
    var table := EmptyFrame();
    var cur: Option<HoleEntry> := None;
    for k := 0 to |files|
      invariant CnsScan(entries, files[..k]) == Success(Scan(table, cur))
    {
      assert files[..k + 1][..k] == files[..k];
      var file := files[k];
      if IsCsv(file.name) {
        var found := SearchHole(file.frame, entries, cur);
        if found.None? {
          CnsScanFails(entries, files, k + 1);
          return Failure("NameError: no hole found");
        }
        var depths := SampleDepths(file.frame);
        if depths.Failure? {
          CnsScanFails(entries, files, k + 1);
          return Failure(depths.error);
        }
        var g := WithHole(file.frame, found.value, depths.value);
        var header := RenameByRules(g.columns, CnsRules);
        var next := Select(Concat(table, Frame(header, g.rows)), ChikyuColumns);
        if next.Failure? {
          CnsScanFails(entries, files, k + 1);
          return Failure(next.error);
        }
        table := next.value;
        cur := found;
      }
    }
    assert files[..|files|] == files;
    r := Success(table);
  }

  /** The table is empty, without columns, until the first csv file; from
      then on it has exactly the nine CNS columns. */
  lemma {:induction false} CnsScanColumns(entries: seq<HoleEntry>, files: seq<DataFile>)
    requires CnsScan(entries, files).Success?
    ensures var t := CnsScan(entries, files).value.table;
      t == EmptyFrame() || t.columns == ChikyuColumns
    ensures (forall j | 0 <= j < |files| :: !IsCsv(files[j].name)) ==>
      CnsScan(entries, files).value.table == EmptyFrame()
  {
    if |files| > 0 {
      var init := files[..|files| - 1];
      CnsScanColumns(entries, init);
      assert forall j | 0 <= j < |init| :: init[j] == files[j];
    }
  }

  /** The number of data rows in the csv files. */
  function CsvRows(files: seq<DataFile>): nat {
    if |files| == 0 then 0
    else CsvRows(files[..|files| - 1]) + (if IsCsv(files[|files| - 1].name) then |files[|files| - 1].frame.rows| else 0)
  }

  /** Every row of every csv file reaches the table, none twice. */
  lemma {:induction false} CnsScanRows(entries: seq<HoleEntry>, files: seq<DataFile>)
    requires CnsScan(entries, files).Success?
    ensures |CnsScan(entries, files).value.table.rows| == CsvRows(files)
  {
    if |files| > 0 {
      CnsScanRows(entries, files[..|files| - 1]);
    }
  }

  /** Appending a file keeps the rows already in the table, in every CNS
      column, and adds one row per row of the file. */
  lemma CnsStepKeeps(entries: seq<HoleEntry>, s: Scan, file: DataFile, n: nat, c: string)
    requires CnsStep(entries, s, file).Success? && IsCsv(file.name) && c in ChikyuColumns
    ensures var t := CnsStep(entries, s, file).value.table;
      |t.rows| == |s.table.rows| + |file.frame.rows| &&
      (n < |s.table.rows| ==> Get(t, n, c) == Get(s.table, n, c))
  {
    var e := ScanColumns(ObjectColumns(file.frame), entries, s.cur).value;
    var data := Labelled(file.frame, e, CnsRules).value;
    CnsStepTable(entries, s, file);
    SelectConcat(s.table, data, ChikyuColumns, n, c);
  }

  /** The file's labelled rows follow the rows already in the table. */
  lemma CnsStepAppends(entries: seq<HoleEntry>, s: Scan, file: DataFile, n: nat, c: string)
    requires CnsStep(entries, s, file).Success? && IsCsv(file.name) && c in ChikyuColumns
    requires n < |file.frame.rows|
    ensures var e := ScanColumns(ObjectColumns(file.frame), entries, s.cur).value;
      var t := CnsStep(entries, s, file).value.table;
      |s.table.rows| + n < |t.rows| &&
      Get(t, |s.table.rows| + n, c) == Get(Labelled(file.frame, e, CnsRules).value, n, c)
  {
    var e := ScanColumns(ObjectColumns(file.frame), entries, s.cur).value;
    var data := Labelled(file.frame, e, CnsRules).value;
    CnsStepTable(entries, s, file);
    SelectConcat(s.table, data, ChikyuColumns, n, c);
    assert n < |data.rows|;
  }

  lemma CnsStepTable(entries: seq<HoleEntry>, s: Scan, file: DataFile)
    requires CnsStep(entries, s, file).Success? && IsCsv(file.name)
    ensures var e := ScanColumns(ObjectColumns(file.frame), entries, s.cur).value;
      Labelled(file.frame, e, CnsRules).Success? &&
      var data := Labelled(file.frame, e, CnsRules).value;
      |data.rows| == |file.frame.rows| &&
      Select(Concat(s.table, data), ChikyuColumns).Success? &&
      CnsStep(entries, s, file).value.table == Select(Concat(s.table, data), ChikyuColumns).value
  {
  }

  /** The rows a file adds carry the hole the search found and their own
      sample depth. */
  lemma CnsStepLabels(entries: seq<HoleEntry>, s: Scan, file: DataFile, i: nat)
    requires CnsStep(entries, s, file).Success? && IsCsv(file.name) && i < |file.frame.rows|
    ensures var e := ScanColumns(ObjectColumns(file.frame), entries, s.cur).value;
      var t := CnsStep(entries, s, file).value.table;
      var n := |s.table.rows| + i;
      n < |t.rows| &&
      Get(t, n, "leg") == e.leg && Get(t, n, "site") == Str(e.site) && Get(t, n, "hole") == Str(e.hole) &&
      Get(t, n, "sample_depth") == SampleDepths(file.frame).value[i]
  {
    var e := ScanColumns(ObjectColumns(file.frame), entries, s.cur).value;
    CnsRulesFit();
    LabelledLabels(file.frame, e, CnsRules, i);
    CnsStepAppends(entries, s, file, i, "leg");
    CnsStepAppends(entries, s, file, i, "site");
    CnsStepAppends(entries, s, file, i, "hole");
    CnsStepAppends(entries, s, file, i, "sample_depth");
  }

  /** An analyte of a row a file adds is the file's cell under the first
      header the rules rename to it, and missing when the file has no such
      header (the column came from an earlier file). */
  lemma CnsStepAnalyte(entries: seq<HoleEntry>, s: Scan, file: DataFile, i: nat, t: string)
    requires CnsStep(entries, s, file).Success? && IsCsv(file.name) && i < |file.frame.rows|
    requires t in ChikyuColumns && t !in Labels
    ensures var n := |s.table.rows| + i;
      var out := CnsStep(entries, s, file).value.table;
      n < |out.rows| &&
      Get(out, n, t) == Value(RenameHeader(CnsRules, file.frame.columns), file.frame.rows[i], t)
  {
    var e := ScanColumns(ObjectColumns(file.frame), entries, s.cur).value;
    CnsRulesFit();
    LabelledColumn(file.frame, e, CnsRules, t, i);
    CnsStepAppends(entries, s, file, i, t);
  }

  // ---------------------------------------------------------------------
  // compile

  /** `pd.concat((dsdp, odp, iodp, chikyu))` on the four loaded tables. */
  function CnsTable(dsdp: Frame, odp: Frame, iodp: Frame, chikyu: Frame): Frame {
    ConcatAll([dsdp, odp, iodp, chikyu])
  }

  /** The compilation fails when any of the four loaders fails. */
  function CompileCns(dsdp: Frame, odp: Frame, iodp: Frame, summary: Frame, files: seq<DataFile>): (r: Result<Frame>)
    ensures r.Success? <==> (LoadDsdpCns(dsdp).Success? && LoadOdpCns(odp).Success? &&
      LoadIodpCns(iodp).Success? && ChikyuCns(summary, files).Success?)
  {
    var a :- LoadDsdpCns(dsdp);
    var b :- LoadOdpCns(odp);
    var c :- LoadIodpCns(iodp);
    var d :- ChikyuCns(summary, files);
    Success(MapCells(CnsTable(a, b, c, d), Textual))
  }

  /** The compiled table holds the DSDP rows, then the ODP, IODP and Chikyu
      rows, each with its values. */
  lemma CnsTableRows(dsdp: Frame, odp: Frame, iodp: Frame, chikyu: Frame, j: nat, i: nat, c: string)
    ensures var fs := [dsdp, odp, iodp, chikyu];
      |CnsTable(dsdp, odp, iodp, chikyu).rows| == TotalRows(fs)
    ensures var fs := [dsdp, odp, iodp, chikyu];
      var out := CnsTable(dsdp, odp, iodp, chikyu);
      j < 4 && i < |fs[j].rows| ==>
        (TotalRows(fs[..j]) + i < |out.rows| && Get(out, TotalRows(fs[..j]) + i, c) == Get(fs[j], i, c))
    ensures var fs := [dsdp, odp, iodp, chikyu];
      var out := MapCells(CnsTable(dsdp, odp, iodp, chikyu), Textual);
      j < 4 && i < |fs[j].rows| && c in out.columns ==>
        (TotalRows(fs[..j]) + i < |out.rows| && Get(out, TotalRows(fs[..j]) + i, c) == Textual(Get(fs[j], i, c)))
  {
    var fs := [dsdp, odp, iodp, chikyu];
    if j < 4 && i < |fs[j].rows| {
      ConcatAllGet(fs, j, i, c);
    }
  }
}
