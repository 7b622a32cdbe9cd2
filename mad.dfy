/** Moisture and density (MAD): porosity and grain density per sample from
    the DSDP, ODP and IODP tables and from the Chikyu files, compiled into
    one table. */
module Mad {
  import opened Wrappers
  import opened Seqs
  import opened Frames
  import opened Canon
  import opened Chikyu
  import opened Units

  // ---------------------------------------------------------------------
  // DSDP

  const DsdpRenames: map<string, string> :=
    map["sample depth (m)" := "sample_depth", "grain density (g/cc)" := "grain_density"]

  const DsdpColumns: seq<string> :=
    ["leg", "site", "hole", "core", "section", "sample_depth", "porosity", "grain_density"]

  /** Porosity is stored as a percentage and published as a fraction: the
      column divided by 100, which raises on text. */
  function Percent(x: Cell): Result<Cell> {
    Scale(x, 0.01)
  }

  /** The same after `astype(float)`, which reads text as a number first. */
  function ParsedPercent(x: Cell): Result<Cell> {
    ParseScale(x, 0.01)
  }

  function LoadDsdpMad(raw: Frame): (r: Result<Frame>)
    ensures r.Success? ==> r.value.columns == DsdpColumns && |r.value.rows| == |raw.rows|
    ensures !(forall c | c in DsdpColumns :: c in Rename(raw, DsdpRenames).columns) ==> r.Failure?
  {
    ProjectConvert(raw, DsdpRenames, DsdpColumns, "porosity", Percent)
  }

  /** A renamed DSDP header's column holds that header's cleaned values. */
  lemma DsdpMadRenamed(raw: Frame, h: string, i: nat)
    requires LoadDsdpMad(raw).Success? && NoDup(Rename(raw, DsdpRenames).columns) && i < |raw.rows|
    requires h in DsdpRenames && h in raw.columns
    ensures Get(LoadDsdpMad(raw).value, i, DsdpRenames[h]) == Cleaned(raw, i, h)
  {
    ProjectConvertGet(raw, DsdpRenames, DsdpColumns, "porosity", Percent, h, i);
  }

  /** DSDP porosity is the source percentage divided by 100: multiplying
      back by 100 gives the cleaned source value, and a successful load saw
      no text in the column. */
  lemma DsdpMadPorosity(raw: Frame, i: nat)
    requires LoadDsdpMad(raw).Success? && NoDup(Rename(raw, DsdpRenames).columns) && i < |raw.rows|
    requires "porosity" in raw.columns
    ensures !Cleaned(raw, i, "porosity").Str?
    ensures Scale(Get(LoadDsdpMad(raw).value, i, "porosity"), 100.0) == Success(Cleaned(raw, i, "porosity"))
  {
    assert RenamedName(DsdpRenames, "porosity") == "porosity";
    ProjectConvertGet(raw, DsdpRenames, DsdpColumns, "porosity", Percent, "porosity", i);
    PercentBack(Cleaned(raw, i, "porosity"));
  }

  /** Dividing by 100 and multiplying by 100 gives the value back. */
  lemma PercentBack(x: Cell)
    requires Percent(x).Success?
    ensures Scale(Percent(x).value, 100.0) == Success(x)
  {
    if x.Num? {
      assert x.x * 0.01 * 100.0 == x.x;
    }
  }

  // ---------------------------------------------------------------------
  // ODP

  const OdpRenames: map<string, string> :=
    map["Leg" := "leg", "Site" := "site", "H" := "hole", "Cor" := "core", "Sc" := "section",
        "Depth (mbsf)" := "sample_depth", "GD (g/cc)" := "grain_density",
        "PO (%)" := "porosity", "Method" := "method"]

  const OdpColumns: seq<string> :=
    ["leg", "site", "hole", "core", "section", "sample_depth", "porosity", "grain_density", "method"]

  function LoadOdpMad(raw: Frame): (r: Result<Frame>)
    ensures r.Success? ==> r.value.columns == OdpColumns && |r.value.rows| == |raw.rows|
    ensures !(forall c | c in OdpColumns :: c in Rename(raw, OdpRenames).columns) ==> r.Failure?
  {
    ProjectConvert(raw, OdpRenames, OdpColumns, "porosity", ParsedPercent)
  }

  /** ODP porosity is read as a number first: a successful load could read
      every cleaned "PO (%)" cell, and the column holds that number divided
      by 100. */
  lemma OdpMadPorosity(raw: Frame, i: nat)
    requires LoadOdpMad(raw).Success? && NoDup(Rename(raw, OdpRenames).columns) && i < |raw.rows|
    requires "PO (%)" in raw.columns
    ensures ToNumber(Cleaned(raw, i, "PO (%)")).Success?
    ensures Scale(Get(LoadOdpMad(raw).value, i, "porosity"), 100.0) == ToNumber(Cleaned(raw, i, "PO (%)"))
  {
    ProjectConvertGet(raw, OdpRenames, OdpColumns, "porosity", ParsedPercent, "PO (%)", i);
    var x := Cleaned(raw, i, "PO (%)");
    PercentBack(ToNumber(x).value);
  }

  // ---------------------------------------------------------------------
  // IODP

  const IodpRenames: map<string, string> :=
    map["Exp" := "leg", "Site" := "site", "Hole" := "hole", "Core" := "core", "Sect" := "section",
        "Depth CSF-A (m)" := "sample_depth", "Submethod" := "method",
        "Grain density (g/cmÂ³)" := "grain_density", "Porosity (vol%)" := "porosity"]

  const IodpColumns: seq<string> := OdpColumns

  /** `replace(old, new)` on one cell: only a cell that is exactly `old`. */
  function ReplaceCell(x: Cell, from: string, to: string): Cell {
    if x == Str(from) then Str(to) else x
  }

  /** Expedition 321 is recorded as "320(321)" in the raw table. */
  function Fix321(x: Cell): Cell {
    ReplaceCell(x, "320(321)", "321")
  }

  /** The three leg relabellings, applied in order. */
  function RelabelLeg(x: Cell): (r: Cell)
    ensures r != Str("345(147)") && r != Str("327(301)") && r != Str("335(312)")
    ensures x !in {Str("345(147)"), Str("327(301)"), Str("335(312)")} ==> r == x
  {
    ReplaceCell(ReplaceCell(ReplaceCell(x, "345(147)", "345"), "327(301)", "327"), "335(312)", "335")
  }

  /** Rows of the quality-control and test expeditions are dropped. */
  predicate KeptLeg(leg: Cell) {
    leg != Str("QAQC") && leg != Str("TEST")
  }

  predicate KeepIodpRow(r: Row) {
    KeptLeg(Value(IodpColumns, r, "leg"))
  }

  /** Relabel, project, clean and convert porosity. */
  function IodpProjected(raw: Frame): (r: Result<Frame>)
    ensures r.Success? ==> r.value.columns == IodpColumns && |r.value.rows| == |raw.rows|
  {
    ProjectConvert(MapCells(raw, Fix321), IodpRenames, IodpColumns, "porosity", Percent)
  }

  function LoadIodpMad(raw: Frame): (r: Result<Frame>)
    ensures r.Success? <==> IodpProjected(raw).Success?
    ensures r.Success? ==> r.value.columns == IodpColumns
  {
    var f :- IodpProjected(raw);
    Success(MapColumn(FilterRows(f, KeepIodpRow), "leg", RelabelLeg))
  }

  /** The IODP table keeps exactly the projected rows whose leg is neither
      QAQC nor TEST, in order, with the leg relabelled and every other
      column unchanged. */
  lemma IodpMadRows(raw: Frame, k: nat, c: string)
    requires LoadIodpMad(raw).Success?
    ensures var f := IodpProjected(raw).value;
      |LoadIodpMad(raw).value.rows| == |KeptIndices(KeepIodpRow, f.rows)|
    ensures var f := IodpProjected(raw).value;
      var ix := KeptIndices(KeepIodpRow, f.rows);
      k < |ix| ==> (Get(LoadIodpMad(raw).value, k, c) ==
        if c == "leg" then RelabelLeg(Get(f, ix[k], c)) else Get(f, ix[k], c))
  {
    var f := IodpProjected(raw).value;
    FilterExact(KeepIodpRow, f.rows);
    var ix := KeptIndices(KeepIodpRow, f.rows);
    if k < |ix| {
      FilterRowsGet(f, KeepIodpRow, k, c);
    }
  }

  /** No published IODP row has a QAQC or TEST leg or one of the three
      legs that are relabelled. */
  lemma IodpMadLegs(raw: Frame, k: nat)
    requires LoadIodpMad(raw).Success? && k < |LoadIodpMad(raw).value.rows|
    ensures Get(LoadIodpMad(raw).value, k, "leg") !in
      {Str("QAQC"), Str("TEST"), Str("345(147)"), Str("327(301)"), Str("335(312)")}
  {
    var f := IodpProjected(raw).value;
    var ix := KeptIndices(KeepIodpRow, f.rows);
    IodpMadRows(raw, k, "leg");
    assert KeepIodpRow(f.rows[ix[k]]);
    assert Get(f, ix[k], "leg") == Value(IodpColumns, f.rows[ix[k]], "leg");
  }

  // ---------------------------------------------------------------------
  // Chikyu

  /** The elif chain over the headers of a labelled file. */
  const MadRules: seq<Rule> := [Rule("grain density", "grain_density"), Rule("porosity", "porosity")]

  const ChikyuColumns: seq<string> :=
    ["leg", "site", "hole", "sample_depth", "porosity", "grain_density"]

  lemma MadRulesFit()
    ensures Stable(MadRules) && KeepsLabels(MadRules)
  {
    MadRulesStable();
    MadRulesKeepLabels();
  }

  lemma MadRulesKeepLabels()
    ensures KeepsLabels(MadRules)
  {
    NoMadPattern("leg");
    NoMadPattern("site");
    NoMadPattern("hole");
    NoMadPattern("sample_depth");
    assert forall l | l in Labels :: l == "leg" || l == "site" || l == "hole" || l == "sample_depth";
  }

  lemma MadRulesStable()
    ensures Stable(MadRules)
  {
    Text.NotContainsChar("grain_density", "grain density", 5);
    Text.NotContainsChar("grain_density", "porosity", 0);
    RuleNameUnmatched(MadRules, "grain_density");
    assert Text.OccursAt("porosity", "porosity", 0);
    assert RuleName(MadRules, "porosity") == "porosity";
  }

  /** A header without the letter 'r' is left alone. */
  lemma NoMadPattern(l: string)
    requires 'r' !in l
    ensures RuleName(MadRules, l) == l
  {
    Text.NotContainsChar(l, "grain density", 1);
    Text.NotContainsChar(l, "porosity", 2);
    assert MadRules[0].pattern == "grain density" && MadRules[1].pattern == "porosity";
    RuleNameUnmatched(MadRules, l);
  }

  datatype Scan = Scan(parts: seq<Frame>, cur: Option<HoleEntry>)

  /** One data file: skipped unless it is a csv file; otherwise its hole is
      searched for (the previous file's hole when it names none, a NameError
      when no hole has been found yet), it is labelled, and the six MAD
      columns are selected from it (a KeyError when one is missing). */
  function MadStep(entries: seq<HoleEntry>, s: Scan, file: DataFile): Result<Scan> {
    if !IsCsv(file.name) then Success(s)
    else
      var found := ScanColumns(ObjectColumns(file.frame), entries, s.cur);
      if found.None? then Failure("NameError: no hole found")
      else
        var data :- Labelled(file.frame, found.value, MadRules);
        var part :- Select(data, ChikyuColumns);
        Success(Scan(s.parts + [part], found))
  }

  /** The loop over the directory listing. */
  function MadScan(entries: seq<HoleEntry>, files: seq<DataFile>): Result<Scan> {
    if |files| == 0 then Success(Scan([], None))
    else
      var s :- MadScan(entries, files[..|files| - 1]);
      MadStep(entries, s, files[|files| - 1])
  }

  function ChikyuMad(summary: Frame, files: seq<DataFile>): (r: Result<Frame>)
    ensures r.Success? ==> SummaryEntries(summary).Success?
  {
    var entries :- SummaryEntries(summary);
    var s :- MadScan(entries, files);
    Success(ConcatAll(s.parts))
  }

  lemma {:induction false} MadScanFails(entries: seq<HoleEntry>, files: seq<DataFile>, n: nat)
    requires n <= |files| && MadScan(entries, files[..n]).Failure?
    ensures MadScan(entries, files) == MadScan(entries, files[..n])
    decreases |files| - n
  {
    if n < |files| {
      assert files[..n + 1][..n] == files[..n];
      MadScanFails(entries, files, n + 1);
    } else {
      assert files[..n] == files;
    }
  }

  /** Reads the summary, then walks the files, searching each csv file for
      its hole, labelling it, renaming its analyte headers and appending its
      six MAD columns to the table. */
  method LoadChikyuMad(summary: Frame, files: seq<DataFile>) returns (r: Result<Frame>)
    ensures r == ChikyuMad(summary, files)
  {
    var entries :- ReadSummary(summary);
    MadRulesFit();
    var chikyu := EmptyFrame();
    ghost var parts: seq<Frame> := [];
    var cur: Option<HoleEntry> := None;
    for k := 0 to |files|
      invariant MadScan(entries, files[..k]) == Success(Scan(parts, cur))
      invariant chikyu == ConcatAll(parts)
    {
      assert files[..k + 1][..k] == files[..k];
      var file := files[k];
      if IsCsv(file.name) {
        var found := SearchHole(file.frame, entries, cur);
        if found.None? {
          MadScanFails(entries, files, k + 1);
          return Failure("NameError: no hole found");
        }
        var depths := SampleDepths(file.frame);
        if depths.Failure? {
          MadScanFails(entries, files, k + 1);
          return Failure(depths.error);
        }
        var g := WithHole(file.frame, found.value, depths.value);
        var header := RenameByRules(g.columns, MadRules);
        var data := Select(Frame(header, g.rows), ChikyuColumns);
        if data.Failure? {
          MadScanFails(entries, files, k + 1);
          return Failure(data.error);
        }
        assert ConcatAll(parts + [data.value]) == Concat(ConcatAll(parts), data.value) by {
          assert (parts + [data.value])[..|parts|] == parts;
        }
        chikyu := Concat(chikyu, data.value);
        parts := parts + [data.value];
        cur := found;
      }
    }
    assert files[..|files|] == files;
    r := Success(chikyu);
  }

  /** Only the csv files of the directory matter. */
  function CsvFile(file: DataFile): bool {
    IsCsv(file.name)
  }

  lemma {:induction false} MadScanCsvOnly(entries: seq<HoleEntry>, files: seq<DataFile>)
    ensures MadScan(entries, files) == MadScan(entries, Filter(CsvFile, files))
  {
    if |files| > 0 {
      var init := files[..|files| - 1];
      var last := files[|files| - 1];
      MadScanCsvOnly(entries, init);
      var fi := Filter(CsvFile, init);
      if CsvFile(last) {
        assert Filter(CsvFile, files) == fi + [last];
        assert (fi + [last])[..|fi|] == fi;
      } else {
        assert Filter(CsvFile, files) == fi;
      }
    }
  }

  /** Row `i` carries the expedition, site and hole of `e`. */
  predicate RowHole(f: Frame, i: nat, e: HoleEntry)
    requires i < |f.rows|
  {
    Get(f, i, "leg") == e.leg && Get(f, i, "site") == Str(e.site) && Get(f, i, "hole") == Str(e.hole)
  }

  /** Every row of a part carries the same hole. */
  ghost predicate CarriesHole(part: Frame, e: HoleEntry) {
    forall i | 0 <= i < |part.rows| :: RowHole(part, i, e)
  }

  ghost predicate FromSummary(entries: seq<HoleEntry>, part: Frame) {
    part.columns == ChikyuColumns && exists e | e in entries :: CarriesHole(part, e)
  }

  /** Every part read so far has the six MAD columns and carries one of the
      summary's holes; the current hole is one of the summary's holes. */
  ghost predicate PartsFromSummary(entries: seq<HoleEntry>, s: Scan) {
    (s.cur.Some? ==> s.cur.value in entries) &&
    forall j | 0 <= j < |s.parts| :: FromSummary(entries, s.parts[j])
  }

  /** The part a csv file adds carries the hole the search found. */
  lemma MadStepPart(entries: seq<HoleEntry>, s: Scan, file: DataFile)
    requires MadStep(entries, s, file).Success? && IsCsv(file.name)
    ensures var t := MadStep(entries, s, file).value;
      t.cur.Some? && |t.parts| == |s.parts| + 1 && t.parts[..|s.parts|] == s.parts &&
      t.parts[|s.parts|].columns == ChikyuColumns && CarriesHole(t.parts[|s.parts|], t.cur.value)
  {
    var t := MadStep(entries, s, file).value;
    var e := t.cur.value;
    var data := Labelled(file.frame, e, MadRules).value;
    var part := Select(data, ChikyuColumns).value;
    assert t.parts == s.parts + [part];
    MadRulesFit();
    forall i | 0 <= i < |part.rows| ensures RowHole(part, i, e) {
      LabelledLabels(file.frame, e, MadRules, i);
      SelectRowHole(data, i, e);
    }
  }

  /** Selecting the MAD columns keeps a row's hole labels. */
  lemma SelectRowHole(data: Frame, i: nat, e: HoleEntry)
    requires Select(data, ChikyuColumns).Success? && i < |data.rows| && RowHole(data, i, e)
    ensures i < |Select(data, ChikyuColumns).value.rows| && RowHole(Select(data, ChikyuColumns).value, i, e)
  {
    assert "leg" in ChikyuColumns && "site" in ChikyuColumns && "hole" in ChikyuColumns;
  }

  lemma {:induction false} MadScanParts(entries: seq<HoleEntry>, files: seq<DataFile>)
    requires MadScan(entries, files).Success?
    ensures PartsFromSummary(entries, MadScan(entries, files).value)
  {
    if |files| > 0 {
      var init := files[..|files| - 1];
      var file := files[|files| - 1];
      MadScanParts(entries, init);
      var s := MadScan(entries, init).value;
      if IsCsv(file.name) {
        ScanColumnsFrom(ObjectColumns(file.frame), entries, s.cur);
        var t := MadStep(entries, s, file).value;
        MadStepPart(entries, s, file);
        assert FromSummary(entries, t.parts[|s.parts|]);
        forall j | 0 <= j < |t.parts| ensures FromSummary(entries, t.parts[j]) {
          if j < |s.parts| {
            assert t.parts[j] == t.parts[..|s.parts|][j];
          }
        }
      }
    }
  }

  /** Each row of the Chikyu MAD table carries the expedition, site and
      hole of one of the summary's holes. */
  lemma ChikyuMadHoles(summary: Frame, files: seq<DataFile>, n: nat)
    requires ChikyuMad(summary, files).Success? && n < |ChikyuMad(summary, files).value.rows|
    ensures exists e | e in SummaryEntries(summary).value :: RowHole(ChikyuMad(summary, files).value, n, e)
  {
    var entries := SummaryEntries(summary).value;
    var s := MadScan(entries, files).value;
    MadScanParts(entries, files);
    var e := PartsHole(entries, s.parts, n);
  }

  lemma PartsHole(entries: seq<HoleEntry>, parts: seq<Frame>, n: nat) returns (e: HoleEntry)
    requires forall j | 0 <= j < |parts| :: FromSummary(entries, parts[j])
    requires n < TotalRows(parts)
    ensures e in entries && RowHole(ConcatAll(parts), n, e)
  {
    var j, i := RowOrigin(parts, n);
    assert FromSummary(entries, parts[j]);
    e :| e in entries && CarriesHole(parts[j], e);
    assert RowHole(parts[j], i, e);
  }

  /** Porosity and grain density of a Chikyu MAD row are the file's cells
      under the first header whose name the rules map to that column. */
  lemma ChikyuMadAnalytes(entries: seq<HoleEntry>, s: Scan, file: DataFile, i: nat, t: string)
    requires MadStep(entries, s, file).Success? && IsCsv(file.name)
    requires t == "porosity" || t == "grain_density"
    requires i < |file.frame.rows|
    ensures var p := MadStep(entries, s, file).value.parts;
      |p| == |s.parts| + 1 && i < |p[|s.parts|].rows| &&
      Get(p[|s.parts|], i, t) == Value(RenameHeader(MadRules, file.frame.columns), file.frame.rows[i], t)
  {
    MadRulesFit();
    var e := ScanColumns(ObjectColumns(file.frame), entries, s.cur).value;
    var data := Labelled(file.frame, e, MadRules).value;
    var part := Select(data, ChikyuColumns).value;
    assert MadStep(entries, s, file).value.parts == s.parts + [part];
    LabelledColumn(file.frame, e, MadRules, t, i);
    assert t in ChikyuColumns;
    assert Get(part, i, t) == Get(data, i, t);
  }

  // ---------------------------------------------------------------------
  // compile

  /** `pd.concat((dsdp, odp, iodp, chikyu))` on the four loaded tables. */
  function MadTable(dsdp: Frame, odp: Frame, iodp: Frame, chikyu: Frame): Frame {
    ConcatAll([dsdp, odp, iodp, chikyu])
  }

  /** The compilation fails when any of the four loaders fails. */
  function CompileMad(dsdp: Frame, odp: Frame, iodp: Frame, summary: Frame, files: seq<DataFile>): (r: Result<Frame>)
    ensures r.Success? <==> (LoadDsdpMad(dsdp).Success? && LoadOdpMad(odp).Success? &&
      LoadIodpMad(iodp).Success? && ChikyuMad(summary, files).Success?)
  {
    var a :- LoadDsdpMad(dsdp);
    var b :- LoadOdpMad(odp);
    var c :- LoadIodpMad(iodp);
    var d :- ChikyuMad(summary, files);
    Success(MapCells(MadTable(a, b, c, d), Textual))
  }

  /** The compiled table is the four tables one after the other: row `i`
      of source `j` is row `TotalRows(before j) + i` of the result, in
      every column, and there are no other rows. */
  lemma MadTableRows(dsdp: Frame, odp: Frame, iodp: Frame, chikyu: Frame, j: nat, i: nat, c: string)
    ensures var fs := [dsdp, odp, iodp, chikyu];
      |MadTable(dsdp, odp, iodp, chikyu).rows| == TotalRows(fs)
    ensures var fs := [dsdp, odp, iodp, chikyu];
      var out := MadTable(dsdp, odp, iodp, chikyu);
      j < 4 && i < |fs[j].rows| ==>
        (TotalRows(fs[..j]) + i < |out.rows| && Get(out, TotalRows(fs[..j]) + i, c) == Get(fs[j], i, c))
    ensures var fs := [dsdp, odp, iodp, chikyu];
      var out := MapCells(MadTable(dsdp, odp, iodp, chikyu), Textual);
      j < 4 && i < |fs[j].rows| && c in out.columns ==>
        (TotalRows(fs[..j]) + i < |out.rows| && Get(out, TotalRows(fs[..j]) + i, c) == Textual(Get(fs[j], i, c)))
  {
    var fs := [dsdp, odp, iodp, chikyu];
    if j < 4 && i < |fs[j].rows| {
      ConcatAllGet(fs, j, i, c);
    }
  }
}
