/** The Chikyu interstitial-water loader (iw_chem.py `load_chikyu_iw`). Each
    csv file of the directory is searched for the hole it belongs to: its
    text columns in order, and within a column the holes of the metadata in
    order, stopping at the first hole whose name the column mentions and
    which contains "C0". The file's rows get that leg, site and hole and
    the midpoint depth, every cell becomes text, and the files are
    outer-merged one after the other. The merged table is stripped, keyed
    by (leg, site, hole, sample_depth) with replicate numbers, converted to
    standard units and averaged into canonical analyte columns; eight label
    columns are renamed and put in front. */
module IwChikyu {
  import opened Wrappers
  import opened Seqs
  import opened Frames
  import opened Keys
  import opened Reshape
  import opened Units
  import opened Joins
  import Text
  import Chikyu

  // ---------------------------------------------------------------------
  // finding the hole of a file

  /** The leg a file has until its hole is found. */
  const NoLeg := "no_leg"

  /** A row of the hole metadata, its leg, site and hole as text. */
  datatype HoleMeta = HoleMeta(leg: string, site: string, hole: string)

  /** `site.map(str) + hole`. */
  function HoleId(h: HoleMeta): string {
    h.site + h.hole
  }

  /** The test of the inner loop: some text cell of the column contains the
      hole name, and the hole name contains "C0". */
  predicate Hit(col: seq<Cell>, h: HoleMeta) {
    Chikyu.Mentions(col, HoleId(h)) && Text.Contains(HoleId(h), "C0")
  }

  /** The inner loop with its `break`: the first hole the column hits. */
  function FirstHit(col: seq<Cell>, holes: seq<HoleMeta>): (r: Option<nat>)
    ensures r.Some? ==> r.value < |holes| && Hit(col, holes[r.value])
    ensures r.Some? ==> forall m | 0 <= m < r.value :: !Hit(col, holes[m])
    ensures r.None? ==> forall m | 0 <= m < |holes| :: !Hit(col, holes[m])
  {
    if |holes| == 0 then None
    else if Hit(col, holes[0]) then Some(0)
    else match FirstHit(col, holes[1..])
      case None => None
      case Some(n) => Some(n + 1)
  }

  /** What the search has found so far: the leg is reset for every file,
      the site and hole are the last ones found in any file. */
  datatype Search = Search(leg: string, site: Option<string>, hole: Option<string>)

  function Take(h: HoleMeta): Search {
    Search(h.leg, Some(h.site), Some(h.hole))
  }

  /** The outer loop: column by column, stopping once the leg is no longer
      `NoLeg`. */
  function SearchColumns(cols: seq<seq<Cell>>, holes: seq<HoleMeta>, s: Search): Search {
    if |cols| == 0 then s
    else
      var s' := match FirstHit(cols[0], holes) case None => s case Some(n) => Take(holes[n]);
      if s'.leg != NoLeg then s' else SearchColumns(cols[1..], holes, s')
  }

  /** The search settles on the first hit of the first column that has
      one. */
  lemma {:induction false} SearchFindsFirst(cols: seq<seq<Cell>>, holes: seq<HoleMeta>, s: Search, c: nat)
    requires s.leg == NoLeg && c < |cols| && FirstHit(cols[c], holes).Some?
    requires forall d | 0 <= d < c :: FirstHit(cols[d], holes).None?
    requires holes[FirstHit(cols[c], holes).value].leg != NoLeg
    ensures SearchColumns(cols, holes, s) == Take(holes[FirstHit(cols[c], holes).value])
  {
    if c > 0 {
      assert FirstHit(cols[0], holes).None?;
      forall d | 0 <= d < c - 1 ensures FirstHit(cols[1..][d], holes).None? {
        assert cols[1..][d] == cols[d + 1];
      }
      SearchFindsFirst(cols[1..], holes, s, c - 1);
    }
  }

  /** A file no column of which hits any hole keeps the search as it was:
      leg `NoLeg`, and the previous file's site and hole. */
  lemma {:induction false} SearchNoHit(cols: seq<seq<Cell>>, holes: seq<HoleMeta>, s: Search)
    requires s.leg == NoLeg
    requires forall d | 0 <= d < |cols| :: FirstHit(cols[d], holes).None?
    ensures SearchColumns(cols, holes, s) == s
  {
    if |cols| > 0 {
      assert FirstHit(cols[0], holes).None?;
      forall d | 0 <= d < |cols| - 1 ensures FirstHit(cols[1..][d], holes).None? {
        assert cols[1..][d] == cols[d + 1];
      }
      SearchNoHit(cols[1..], holes, s);
    }
  }

  /** The search ends where it started or on one of the metadata's holes. */
  lemma {:induction false} SearchFrom(cols: seq<seq<Cell>>, holes: seq<HoleMeta>, s: Search) returns (n: Option<nat>)
    ensures n.None? ==> SearchColumns(cols, holes, s) == s
    ensures n.Some? ==> n.value < |holes| && SearchColumns(cols, holes, s) == Take(holes[n.value])
  {
    if |cols| == 0 {
      n := None;
    } else {
      var s' := match FirstHit(cols[0], holes) case None => s case Some(m) => Take(holes[m]);
      if s'.leg != NoLeg {
        n := FirstHit(cols[0], holes);
      } else {
        var n' := SearchFrom(cols[1..], holes, s');
        n := if n'.Some? then n' else FirstHit(cols[0], holes);
      }
    }
  }

  /** The two nested search loops of one file, with their `break`s. */
  method SearchFile(cols: seq<seq<Cell>>, holes: seq<HoleMeta>, site: Option<string>, hole: Option<string>)
    returns (s: Search)
    ensures s == SearchColumns(cols, holes, Search(NoLeg, site, hole))
  {
    s := Search(NoLeg, site, hole);
    var c := 0;
    while c < |cols|
      invariant c <= |cols|
      invariant SearchColumns(cols, holes, Search(NoLeg, site, hole)) == SearchColumns(cols[c..], holes, s)
    {
      assert cols[c..][1..] == cols[c + 1..];
      var n := 0;
      while n < |holes|
        invariant n <= |holes|
        invariant forall m | 0 <= m < n :: !Hit(cols[c], holes[m])
      {
        if Hit(cols[c], holes[n]) {
          break;
        }
        n := n + 1;
      }
      if n < |holes| {
        assert FirstHit(cols[c], holes) == Some(n);
        s := Take(holes[n]);
      } else {
        assert FirstHit(cols[c], holes) == None;
      }
      if s.leg != NoLeg {
        break;
      }
      c := c + 1;
    }
  }

  // ---------------------------------------------------------------------
  // one file

  /** The rows of one csv file with the leg, site and hole found and the
      midpoint depth in front, every cell as text; a NameError when no file
      so far has named a hole. */
  function FilePart(f: Frame, s: Search): (r: Result<Frame>)
    ensures r.Success? ==> s.site.Some? && s.hole.Some? && Chikyu.SampleDepths(f).Success?
    ensures r.Success? ==> r.value.columns == Chikyu.Labels + f.columns && |r.value.rows| == |f.rows|
  {
    if s.site.None? || s.hole.None? then Failure("NameError: name 'site' is not defined")
    else
      var depths :- Chikyu.SampleDepths(f);
      Success(MapCells(Chikyu.WithHole(f, Chikyu.HoleEntry(Str(s.leg), s.site.value, s.hole.value), depths), Textual))
  }

  /** Every row of a file's part carries the leg, site and hole found and
      its own midpoint depth, as text. */
  lemma FilePartLabels(f: Frame, s: Search, i: nat)
    requires FilePart(f, s).Success? && i < |f.rows|
    ensures var p := FilePart(f, s).value;
      Get(p, i, "leg") == Str(s.leg) && Get(p, i, "site") == Str(s.site.value) &&
      Get(p, i, "hole") == Str(s.hole.value) &&
      Get(p, i, "sample_depth") == Textual(Chikyu.Midpoint(Get(f, i, Chikyu.TopDepth), Get(f, i, Chikyu.BottomDepth)).value)
  {
    var depths := Chikyu.SampleDepths(f).value;
    var e := Chikyu.HoleEntry(Str(s.leg), s.site.value, s.hole.value);
    var w := Chikyu.WithHole(f, e, depths);
    Chikyu.WithHoleLabels(f, e, depths, i);
    Chikyu.LabelsFind(f.columns);
    assert FilePart(f, s).value == MapCells(w, Textual);
  }

  /** The file's own cells are kept on their row, as text. */
  lemma FilePartOther(f: Frame, s: Search, i: nat, c: string)
    requires FilePart(f, s).Success? && i < |f.rows| && c in f.columns && c !in Chikyu.Labels
    ensures Get(FilePart(f, s).value, i, c) == Textual(Get(f, i, c))
  {
    var depths := Chikyu.SampleDepths(f).value;
    var e := Chikyu.HoleEntry(Str(s.leg), s.site.value, s.hole.value);
    var w := Chikyu.WithHole(f, e, depths);
    Chikyu.WithHoleOthers(f, e, depths, i, c);
    assert c in w.columns;
    assert FilePart(f, s).value == MapCells(w, Textual);
  }

  // ---------------------------------------------------------------------
  // the file loop

  /** The loop state: the counter, the merged table, and the site and hole
      last found. */
  datatype Scan = Scan(count: nat, data: Frame, site: Option<string>, hole: Option<string>)

  /** One directory entry: skipped unless it is a csv file; otherwise its
      hole is searched for and its part becomes the table (the first csv
      file) or is outer-merged onto it. */
  function Step(holes: seq<HoleMeta>, s: Scan, file: Chikyu.DataFile): Result<Scan> {
    if !Chikyu.IsCsv(file.name) then Success(s) else CsvStep(holes, s, file)
  }

  /** A csv file: its part, and the table grown by it. */
  function CsvStep(holes: seq<HoleMeta>, s: Scan, file: Chikyu.DataFile): Result<Scan> {
    var found := Found(holes, s, file);
    Absorb(s, FilePart(file.frame, found), found)
  }

  /** The table grown by the file's part for the search's result. */
  function Absorb(s: Scan, part: Result<Frame>, found: Search): Result<Scan> {
    if part.Failure? then Failure(part.error)
    else Success(Scan(s.count + 1, Grow(s, part.value), found.site, found.hole))
  }

  /** The search over one file, starting from the previous file's site and
      hole. */
  function Found(holes: seq<HoleMeta>, s: Scan, file: Chikyu.DataFile): Search {
    SearchColumns(Chikyu.ObjectColumns(file.frame), holes, Search(NoLeg, s.site, s.hole))
  }

  /** The first file's part becomes the table; later ones are merged onto
      it. */
  function Grow(s: Scan, part: Frame): Frame {
    if s.count == 0 then part else OuterMerge(s.data, part)
  }

  /** One pass of the loop body: the search, the file's part and the
      merge. */
  method ReadFile(holes: seq<HoleMeta>, s: Scan, file: Chikyu.DataFile) returns (r: Result<Scan>)
    ensures r == Step(holes, s, file)
  {
    if !Chikyu.IsCsv(file.name) {
      r := Success(s);
    } else {
      r := ReadCsv(holes, s, file);
    }
  }

  /** The body for a csv file: the search, the file's part, and the table
      grown by it. */
  method ReadCsv(holes: seq<HoleMeta>, s: Scan, file: Chikyu.DataFile) returns (r: Result<Scan>)
    ensures r == CsvStep(holes, s, file)
  {
    var found := SearchFile(Chikyu.ObjectColumns(file.frame), holes, s.site, s.hole);
    var part := FilePart(file.frame, found);
    r := AbsorbPart(s, part, found);
  }

  /** The file's part becomes the table or is merged onto it. */
  method AbsorbPart(s: Scan, part: Result<Frame>, found: Search) returns (r: Result<Scan>)
    ensures r == Absorb(s, part, found)
  {
    if part.Failure? {
      r := Failure(part.error);
    } else {
      var data := GrowData(s, part.value);
      r := Success(Scan(s.count + 1, data, found.site, found.hole));
    }
  }

  /** The merge of one file's part onto the table read so far. */
  method GrowData(s: Scan, part: Frame) returns (data: Frame)
    ensures data == Grow(s, part)
  {
    if s.count == 0 {
      data := part;
    } else {
      data := OuterMerge(s.data, part);
    }
  }

  /** The loop over the directory's entries, in order. */
  function ScanFiles(holes: seq<HoleMeta>, files: seq<Chikyu.DataFile>): (r: Result<Scan>)
    ensures r.Success? ==> r.value.count <= |files|
    ensures r.Success? && r.value.count == 0 ==> r.value.data == Frame([], [])
  {
    if |files| == 0 then Success(Scan(0, Frame([], []), None, None))
    else
      var s :- ScanFiles(holes, files[..|files| - 1]);
      Step(holes, s, files[|files| - 1])
  }

  lemma {:induction false} ScanFilesFails(holes: seq<HoleMeta>, files: seq<Chikyu.DataFile>, n: nat)
    requires n <= |files| && ScanFiles(holes, files[..n]).Failure?
    ensures ScanFiles(holes, files) == ScanFiles(holes, files[..n])
    decreases |files| - n
  {
    if n < |files| {
      assert files[..n + 1][..n] == files[..n];
      ScanFilesFails(holes, files, n + 1);
    } else {
      assert files[..n] == files;
    }
  }

  /** A leg a row can carry: `NoLeg`, or the leg of a hole of the
      metadata. */
  predicate KnownLeg(holes: seq<HoleMeta>, x: Cell) {
    x == Str(NoLeg) || exists n | 0 <= n < |holes| :: x == Str(holes[n].leg)
  }

  predicate KnownLegs(holes: seq<HoleMeta>, t: Frame) {
    forall k | 0 <= k < |t.rows| :: KnownLeg(holes, Get(t, k, "leg"))
  }

  /** The part of a file carries a known leg on every row. */
  lemma PartLegs(holes: seq<HoleMeta>, f: Frame, s: Search)
    requires FilePart(f, s).Success? && KnownLeg(holes, Str(s.leg))
    ensures KnownLegs(holes, FilePart(f, s).value)
  {
    var p := FilePart(f, s).value;
    forall k | 0 <= k < |p.rows| ensures KnownLeg(holes, Get(p, k, "leg")) {
      FilePartLabels(f, s, k);
    }
  }

  /** An outer merge of two tables whose rows carry known legs carries
      known legs. */
  lemma MergeLegs(holes: seq<HoleMeta>, a: Frame, b: Frame)
    requires KnownLegs(holes, a) && KnownLegs(holes, b)
    ensures KnownLegs(holes, OuterMerge(a, b))
  {
    var m := OuterMerge(a, b);
    forall k | 0 <= k < |m.rows| ensures KnownLeg(holes, Get(m, k, "leg")) {
      MergedRowFrom(a, b, k);
      var p := Plan(a, b)[k];
      if p.Both? && "leg" !in a.columns {
        assert KnownLeg(holes, Get(b, p.j, "leg"));
      } else if p.RightOnly? {
        assert KnownLeg(holes, Get(b, p.j, "leg"));
      } else {
        assert KnownLeg(holes, Get(a, p.i, "leg"));
      }
    }
  }

  /** The search ends on a known leg. */
  lemma FoundLeg(holes: seq<HoleMeta>, s: Scan, file: Chikyu.DataFile)
    ensures KnownLeg(holes, Str(Found(holes, s, file).leg))
  {
    var n := SearchFrom(Chikyu.ObjectColumns(file.frame), holes, Search(NoLeg, s.site, s.hole));
    if n.Some? {
      assert Str(Found(holes, s, file).leg) == Str(holes[n.value].leg);
    }
  }

  lemma GrowLegs(holes: seq<HoleMeta>, s: Scan, part: Frame)
    requires KnownLegs(holes, s.data) && KnownLegs(holes, part)
    ensures KnownLegs(holes, Grow(s, part))
  {
    if s.count > 0 {
      MergeLegs(holes, s.data, part);
    }
  }

  /** One loop step keeps every row's leg known. */
  lemma StepLegs(holes: seq<HoleMeta>, s: Scan, file: Chikyu.DataFile)
    requires Step(holes, s, file).Success? && KnownLegs(holes, s.data)
    ensures KnownLegs(holes, Step(holes, s, file).value.data)
  {
    if Chikyu.IsCsv(file.name) {
      var found := Found(holes, s, file);
      FoundLeg(holes, s, file);
      PartLegs(holes, file.frame, found);
      GrowLegs(holes, s, FilePart(file.frame, found).value);
    }
  }

  /** Every row the file loop produces carries `NoLeg` or the leg of one of
      the metadata's holes. */
  lemma {:induction false} ScanLegs(holes: seq<HoleMeta>, files: seq<Chikyu.DataFile>)
    requires ScanFiles(holes, files).Success?
    ensures KnownLegs(holes, ScanFiles(holes, files).value.data)
  {
    if |files| > 0 {
      ScanLegs(holes, files[..|files| - 1]);
      StepLegs(holes, ScanFiles(holes, files[..|files| - 1]).value, files[|files| - 1]);
    }
  }

  /** The rows of a csv file survive the loop step that reads it: some row
      of the table holds each of them, with the labels the search gave. */
  lemma StepKeepsFile(holes: seq<HoleMeta>, s: Scan, file: Chikyu.DataFile, i: nat) returns (k: nat)
    requires Step(holes, s, file).Success? && Chikyu.IsCsv(file.name) && i < |file.frame.rows|
    ensures var t := Step(holes, s, file).value.data;
      k < |t.rows| && Get(t, k, "leg") == Str(Found(holes, s, file).leg) &&
      forall c | c in file.frame.columns && c !in Chikyu.Labels :: Get(t, k, c) == Textual(Get(file.frame, i, c))
  {
    var found := Found(holes, s, file);
    var part := FilePart(file.frame, found).value;
    FilePartLabels(file.frame, found, i);
    forall c | c in file.frame.columns && c !in Chikyu.Labels ensures Get(part, i, c) == Textual(Get(file.frame, i, c)) {
      FilePartOther(file.frame, found, i, c);
    }
    if s.count == 0 {
      k := i;
    } else {
      k := MergeKeepsRight(s.data, part, i);
      assert "leg" in part.columns;
    }
  }

  /** Merging a later file keeps every row already read. */
  lemma StepKeepsTable(holes: seq<HoleMeta>, s: Scan, file: Chikyu.DataFile, k: nat) returns (k': nat)
    requires Step(holes, s, file).Success? && s.count > 0 && k < |s.data.rows|
    ensures var t := Step(holes, s, file).value.data;
      k' < |t.rows| && forall c | c in s.data.columns :: Get(t, k', c) == Get(s.data, k, c)
  {
    if !Chikyu.IsCsv(file.name) {
      k' := k;
    } else {
      var part := FilePart(file.frame, Found(holes, s, file)).value;
      k' := MergeKeepsLeft(s.data, part, k);
    }
  }

  // ---------------------------------------------------------------------
  // keys

  /** `chikyu_data[x].str.strip()` on every column, and `applymap(str)`
      after the merge with the sample table. */
  function Cleaned(x: Cell): Cell {
    Textual(StripText(x))
  }

  /** The identifying cells of row `i` of the stripped table. */
  function SampleTuple(t: Frame, i: nat): Row
    requires i < |t.rows|
  {
    [Get(t, i, "leg"), Get(t, i, "site"), Get(t, i, "hole"), Get(t, i, "sample_depth")]
  }

  function SampleTuples(t: Frame): (ts: seq<Row>)
    ensures |ts| == |t.rows| && forall i | 0 <= i < |t.rows| :: ts[i] == SampleTuple(t, i)
  {
    seq(|t.rows|, i requires 0 <= i < |t.rows| => SampleTuple(t, i))
  }

  /** The sample key of each row: the number of its identifying tuple
      among the distinct ones. */
  function ChikyuKeys(data: Frame): (keys: seq<nat>)
    ensures |keys| == |data.rows|
  {
    SampleKeys(SampleTuples(MapCells(data, StripText)))
  }

  /** The replicate number of each row among the rows with its key. */
  function ChikyuReps(data: Frame): (reps: seq<nat>)
    ensures |reps| == |data.rows|
  {
    RepKeys(ChikyuKeys(data))
  }

  /** The table after stripping, the sample-key merge and `applymap(str)`,
      with `sample_key` and `rep_key` appended as text. */
  function Keyed(data: Frame): (w: Frame)
    ensures w.columns == data.columns + ["sample_key", "rep_key"] && |w.rows| == |data.rows|
  {
    var keys := ChikyuKeys(data);
    var reps := ChikyuReps(data);
    Frame(data.columns + ["sample_key", "rep_key"],
      seq(|data.rows|, i requires 0 <= i < |data.rows| =>
        Map(k => Cleaned(At(data.rows[i], k)), Indices(|data.columns|)) + [Textual(KeyCell(keys[i])), Textual(KeyCell(reps[i]))]))
  }

  /** Each cell of the keyed table is the stripped text of the merged cell;
      the keys follow. */
  lemma KeyedGet(data: Frame, i: nat, c: string)
    requires i < |data.rows| && c in data.columns
    ensures Get(Keyed(data), i, c) == Cleaned(Get(data, i, c))
  {
    FindPrefix(data.columns, ["sample_key", "rep_key"], c);
  }

  /** The appended sample key of each row. */
  lemma KeyedSampleKey(data: Frame, i: nat)
    requires i < |data.rows| && "sample_key" !in data.columns
    ensures Get(Keyed(data), i, "sample_key") == Textual(KeyCell(ChikyuKeys(data)[i]))
  {
    Chikyu.FindAfter(data.columns, ["sample_key", "rep_key"], "sample_key");
    KeyedTail(data, i);
  }

  /** The appended replicate key of each row. */
  lemma KeyedRepKey(data: Frame, i: nat)
    requires i < |data.rows| && "sample_key" !in data.columns && "rep_key" !in data.columns
    ensures Get(Keyed(data), i, "rep_key") == Textual(KeyCell(ChikyuReps(data)[i]))
  {
    assert Find(data.columns + ["sample_key", "rep_key"], "rep_key") == Some(|data.columns| + 1) by {
      Chikyu.FindAfter(data.columns, ["sample_key", "rep_key"], "rep_key");
      assert Find(["sample_key", "rep_key"], "rep_key") == Some(1);
    }
    KeyedTail(data, i);
  }

  /** The two cells after the data columns hold the keys. */
  lemma KeyedTail(data: Frame, i: nat)
    requires i < |data.rows|
    ensures var r := Keyed(data).rows[i]; var n := |data.columns|;
      |r| == n + 2 && r[n] == Textual(KeyCell(ChikyuKeys(data)[i])) && r[n + 1] == Textual(KeyCell(ChikyuReps(data)[i]))
  {
  }

  /** Two rows share a sample key exactly when their stripped leg, site,
      hole and depth agree, and no two rows share both keys. */
  lemma ChikyuKeysMatch(data: Frame, i: nat, j: nat)
    requires i < |data.rows| && j < |data.rows| && i != j
    ensures var t := MapCells(data, StripText);
      ChikyuKeys(data)[i] == ChikyuKeys(data)[j] <==> SampleTuple(t, i) == SampleTuple(t, j)
    ensures (ChikyuKeys(data)[i], ChikyuReps(data)[i]) != (ChikyuKeys(data)[j], ChikyuReps(data)[j])
  {
    KeysMatchTuples(SampleTuples(MapCells(data, StripText)), i, j);
    assert ChikyuReps(data) == RepKeys(ChikyuKeys(data));
    if i < j {
      RepKeysUnique(ChikyuKeys(data), i, j);
    } else {
      RepKeysUnique(ChikyuKeys(data), j, i);
    }
  }

  // ---------------------------------------------------------------------
  // units and canonical analytes

  function Times1000(x: Cell): Result<Cell> {
    ReadScale(x, 1000.0)
  }

  function Per1000(x: Cell): Result<Cell> {
    ReadScale(x, 0.001)
  }

  const SiSpec := "pore water chemistry; sample::Si concentration: UV-Visible spectrophotometer [mM]::number"
  const RbSample := "pore water chemistry; sample::Rb concentration: ICP-MS [nM]::number"
  const No3 := "pore water chemistry::NO3 concentration: IC [mM]::number"
  const Rb := "pore water chemistry::Rb concentration: ICP-MS [nM]::number"
  const Nh4Sample := "pore water chemistry; sample::NH4 concentration: UV-Visible spectrophotometer [\U{B5}M]::number"
  const BrSample := "pore water chemistry; sample::Br concentration: IC [\U{B5}M]::number"
  const No3Sample := "pore water chemistry; sample::NO3 concentration: IC [mM]::number"

  /** Millimolar silica and nitrate to micromolar; nanomolar rubidium and
      micromolar ammonium and bromide to micro- and millimolar. */
  const ChikyuConversions: seq<Conversion> :=
    [Conversion(SiSpec, Times1000), Conversion(RbSample, Per1000), Conversion(No3, Times1000),
     Conversion(Rb, Per1000), Conversion(Nh4Sample, Per1000), Conversion(BrSample, Per1000),
     Conversion(No3Sample, Times1000)]

  lemma ConversionsDistinct()
    ensures forall k, m | 0 <= k < m < |ChikyuConversions| :: ChikyuConversions[k].column != ChikyuConversions[m].column
  {
  }

  /** Each listed column is read as a number and scaled by its own factor;
      every other column keeps its cells. */
  lemma ChikyuConverted(c: string, x: Cell)
    ensures (c == SiSpec || c == No3 || c == No3Sample) ==> Converted(ChikyuConversions, c, x) == ReadScale(x, 1000.0)
    ensures (c == RbSample || c == Rb || c == Nh4Sample || c == BrSample) ==> Converted(ChikyuConversions, c, x) == ReadScale(x, 0.001)
    ensures (forall k | 0 <= k < |ChikyuConversions| :: ChikyuConversions[k].column != c) ==> Converted(ChikyuConversions, c, x) == Success(x)
  {
    var C := ChikyuConversions;
    ConversionsDistinct();
    if c == SiSpec {
      ConvertedOnly(C, 0, c, x);
    } else if c == RbSample {
      ConvertedOnly(C, 1, c, x);
    } else if c == No3 {
      ConvertedOnly(C, 2, c, x);
    } else if c == Rb {
      ConvertedOnly(C, 3, c, x);
    } else if c == Nh4Sample {
      ConvertedOnly(C, 4, c, x);
    } else if c == BrSample {
      ConvertedOnly(C, 5, c, x);
    } else if c == No3Sample {
      ConvertedOnly(C, 6, c, x);
    } else {
      ConvertedUnlisted(C, c, x);
    }
  }

  /** The analyte columns, in the order the loader selects them. */
  const AnalyteColumns: seq<string> :=
    ["pore water chemistry; sample::refractive index nD: refractometer::number",
     "pore water chemistry; sample::chlorinity: titrator, potentiometric titration [mM]::number",
     "pore water chemistry; sample::Li concentration: ICP-AES [\U{B5}M]::number",
     "pore water chemistry; sample::B concentration: ICP-AES [\U{B5}M]::number",
     "pore water chemistry; sample::NH4 concentration: UV-Visible spectrophotometer [mM]::number",
     "pore water chemistry; sample::Na concentration: IC [mM]::number",
     "pore water chemistry; sample::Mg concentration: IC [mM]::number",
     "pore water chemistry; sample::Si concentration: ICP-AES [\U{B5}M]::number",
     "pore water chemistry; sample::Si concentration: UV-Visible spectrophotometer [mM]::number",
     "pore water chemistry; sample::PO4 concentration: UV-Visible spectrophotometer [\U{B5}M]::number",
     "pore water chemistry; sample::SO4 concentration: IC [mM]::number",
     "pore water chemistry; sample::K concentration: IC [mM]::number",
     "pore water chemistry; sample::Ca concentration: IC [mM]::number",
     "pore water chemistry; sample::Mn concentration: ICP-AES [\U{B5}M]::number",
     "pore water chemistry; sample::Fe concentration: ICP-AES [\U{B5}M]::number",
     "pore water chemistry; sample::Zn concentration: ICP-MS [nM]::number",
     "pore water chemistry; sample::Br concentration: IC [mM]::number",
     "pore water chemistry; sample::Rb concentration: ICP-MS [nM]::number",
     "pore water chemistry; sample::Sr concentration: ICP-AES [\U{B5}M]::number",
     "pore water chemistry; sample::Mo concentration: ICP-MS [nM]::number",
     "pore water chemistry; sample::Cs concentration: ICP-MS [nM]::number",
     "pore water chemistry; sample::Ba concentration: ICP-AES [\U{B5}M]::number",
     "pore water chemistry; sample::U concentration: ICP-MS [nM]::number",
     "pore water chemistry::pmH: pH electrode, attached to titrator::number",
     "pore water chemistry::alkalinity: titrator [mM]::number",
     "pore water chemistry; sample::V concentration: ICP-MS [nM]::number",
     "pore water chemistry; sample::Cu concentration: ICP-MS [nM]::number",
     "pore water chemistry; sample::Pb concentration: ICP-MS [nM]::number",
     "pore water chemistry::refractive index nD: refractometer::number",
     "pore water chemistry::salinity: refractometer [permil]::number",
     "pore water chemistry::PO4 concentration: UV-Visible spectrophotometer [\U{B5}M]::number",
     "pore water chemistry::NH4 concentration: UV-Visible spectrophotometer [mM]::number",
     "pore water chemistry::Cl concentration: IC [mM]::number",
     "pore water chemistry::Br concentration: IC [mM]::number",
     "pore water chemistry::NO3 concentration: IC [mM]::number",
     "pore water chemistry::SO4 concentration: IC [mM]::number",
     "pore water chemistry::Na concentration: IC [mM]::number",
     "pore water chemistry::K concentration: IC [mM]::number",
     "pore water chemistry::Mg concentration: IC [mM]::number",
     "pore water chemistry::Ca concentration: IC [mM]::number",
     "pore water chemistry::B concentration: ICP-AES [\U{B5}M]::number",
     "pore water chemistry::Ba concentration: ICP-AES [\U{B5}M]::number",
     "pore water chemistry::Fe concentration: ICP-AES [\U{B5}M]::number",
     "pore water chemistry::Li concentration: ICP-AES [\U{B5}M]::number",
     "pore water chemistry::Mn concentration: ICP-AES [\U{B5}M]::number",
     "pore water chemistry::Si concentration: ICP-AES [\U{B5}M]::number",
     "pore water chemistry::Sr concentration: ICP-AES [\U{B5}M]::number",
     "pore water chemistry::chlorinity: titrator, potentiometric titration [mM]::number",
     "pore water chemistry::V concentration: ICP-MS [nM]::number",
     "pore water chemistry::Cu concentration: ICP-MS [nM]::number",
     "pore water chemistry::Zn concentration: ICP-MS [nM]::number",
     "pore water chemistry::Rb concentration: ICP-MS [nM]::number",
     "pore water chemistry::Mo concentration: ICP-MS [nM]::number",
     "pore water chemistry::Cs concentration: ICP-MS [nM]::number",
     "pore water chemistry::Pb concentration: ICP-MS [nM]::number",
     "pore water chemistry::U concentration: ICP-MS [nM]::number",
     "pore water chemistry; sample::NH4 concentration: UV-Visible spectrophotometer [\U{B5}M]::number",
     "pore water chemistry; sample::Na concentration: ICP-AES [mM]::number",
     "pore water chemistry; sample::Mg concentration: ICP-AES [mM]::number",
     "pore water chemistry; sample::K concentration: ICP-AES [mM]::number",
     "pore water chemistry; sample::Ca concentration: ICP-AES [mM]::number",
     "pore water chemistry; sample::Br concentration: IC [\U{B5}M]::number",
     "pore water chemistry; sample::salinity: refractometer [permil]::number",
     "pore water chemistry; sample::Na concentration: charge balance [mM]::number",
     "pore water chemistry; sample::SO4 concentration: selected from IC without or with Cd(NO3)2 [mM]::number",
     "pore water chemistry; sample::SO4 concentration: IC with Cd(NO3)2 [mM]::number",
     "pore water chemistry; sample::Cl concentration: chlorinity - Br [mM]::number",
     "pore water chemistry; sample::Rb concentration: ICP-MS [\U{B5}M]::number",
     "pore water chemistry; sample::NO2 concentration: IC [mM]::number",
     "pore water chemistry; sample::NO3 concentration: IC [mM]::number",
     "pore water chemistry; sample::HS concentration: spectrophotometer, 3rd party [\U{B5}M]::number",
     "pore water chemistry; sample::Fe(II) concentration: spectrophotometer, 3rd party [\U{B5}M]::number",
     "pore water chemistry; sample::DIC concentration: coulometer, DIC-EXIT, 3rd party [mM]::number"]

  /** The canonical name of each analyte column, by position. */
  const AnalyteNames: seq<string> :=
    ["refractive_index", "Cl", "Li", "B", "NH4", "Na_ic", "Mg_ic", "Si", "Si_spec", "PO4", "SO4",
     "K_ic", "Ca_ic", "Mn", "Fe", "Zn", "Br", "Rb", "Sr", "Mo", "Cs", "Ba", "U", "pH", "alkalinity",
     "V", "Cu", "Pb", "refractive_index", "salinity", "PO4", "NH4", "Cl_ic", "Br", "NO3", "SO4",
     "Na_ic", "K_ic", "Mg_ic", "Ca_ic", "B", "Ba", "Fe", "Li", "Mn", "Si", "Sr", "Cl", "V", "Cu",
     "Zn", "Rb", "Mo", "Cs", "Pb", "U", "NH4", "Na", "Mg", "K", "Ca", "Br", "salinity", "Na",
     "SO4", "SO4", "Cl", "Rb", "NO2", "NO3", "sulfide", "Fe_spec", "DIC"]

  /** The numeric analyte table: a KeyError when an analyte column is
      absent, a ValueError when a cell is not a number. */
  function AnalyteTable(w: Frame, analytes: seq<string>): (r: Result<Frame>)
    ensures r.Success? ==> r.value.columns == analytes && |r.value.rows| == |w.rows|
  {
    var selected :- Select(w, analytes);
    ReadCells(selected)
  }

  /** Each cell of the analyte table is the converted cell read as a
      number. */
  lemma AnalyteTableGet(w: Frame, analytes: seq<string>, i: nat, c: string)
    requires AnalyteTable(w, analytes).Success? && i < |w.rows| && c in analytes
    ensures ReadFloat(Get(w, i, c)).Success?
    ensures Get(AnalyteTable(w, analytes).value, i, c) == ReadFloat(Get(w, i, c)).value
  {
    var selected := Select(w, analytes).value;
    ReadCellsGet(selected, i, c);
  }

  // ---------------------------------------------------------------------
  // the final table

  /** The label columns, and their names in the result. */
  const LabelColumns: seq<string> :=
    ["sample_key", "rep_key", "leg", "site", "hole", "sample_depth", "Sample comment",
     "pore water chemistry::comment on measurement::text"]
  const LabelNames: seq<string> :=
    ["sample_key", "rep_key", "leg", "site", "hole", "sample_depth", "Comments", "More _comments"]

  /** `pd.concat([a, b], axis=1)` on tables of one length: each row is the
      row of `a` followed by the row of `b`. */
  function Beside(a: Frame, b: Frame): (h: Frame)
    requires |a.rows| == |b.rows|
    ensures h.columns == a.columns + b.columns && |h.rows| == |a.rows|
  {
    Frame(a.columns + b.columns, seq(|a.rows|, i requires 0 <= i < |a.rows| =>
      Map(k => At(a.rows[i], k), Indices(|a.columns|)) + b.rows[i]))
  }

  lemma BesideGet(a: Frame, b: Frame, i: nat, c: string)
    requires |a.rows| == |b.rows| && i < |a.rows|
    ensures c in a.columns ==> Get(Beside(a, b), i, c) == Get(a, i, c)
    ensures c !in a.columns ==> Get(Beside(a, b), i, c) == Get(b, i, c)
  {
    var h := Beside(a, b);
    if c in a.columns {
      FindPrefix(a.columns, b.columns, c);
    } else {
      Chikyu.FindAfter(a.columns, b.columns, c);
      match Find(b.columns, c)
      case None =>
      case Some(k) =>
        assert At(h.rows[i], |a.columns| + k) == At(b.rows[i], k) by {
          if k < |b.rows[i]| {
            assert h.rows[i][|a.columns| + k] == b.rows[i][k];
          }
        }
    }
  }

  /** What the loader does with the merged table once keyed: the unit
      conversions, the analyte columns it selects and the canonical name of
      each. The proofs below hold for any layout whose conversions leave
      the label columns alone; `ChikyuLayout` is the loader's own. */
  datatype Layout = Layout(conversions: seq<Conversion>, analytes: seq<string>, names: seq<string>)

  const ChikyuLayout := Layout(ChikyuConversions, AnalyteColumns, AnalyteNames)

  /** No conversion names a label column. */
  predicate KeepsLabels(convs: seq<Conversion>) {
    forall k | 0 <= k < |convs| :: convs[k].column !in LabelColumns
  }

  lemma ChikyuKeepsLabels()
    ensures KeepsLabels(ChikyuConversions)
  {
  }

  /** The merged table of the files, keyed, converted, averaged and
      labelled. */
  function ChikyuFinish(data: Frame, layout: Layout): (r: Result<Frame>)
    ensures r.Success? ==> |r.value.rows| == |data.rows|
  {
    var w :- ConvertColumns(Keyed(data), layout.conversions);
    Averaged(w, layout)
  }

  /** The converted table's analytes averaged, its labels renamed and put
      in front. */
  function Averaged(w: Frame, layout: Layout): (r: Result<Frame>)
    ensures r.Success? ==> |r.value.rows| == |w.rows|
  {
    var numbers :- AnalyteTable(w, layout.analytes);
    var labels :- Select(w, LabelColumns);
    Success(Beside(Frame(LabelNames, labels.rows), Grouped(numbers, layout.names, MeanPresent)))
  }

  /** The converted table, when the conversions succeed. */
  function ConvertedTable(data: Frame, layout: Layout): Frame
    requires ConvertColumns(Keyed(data), layout.conversions).Success?
  {
    ConvertColumns(Keyed(data), layout.conversions).value
  }

  lemma FinishAveraged(data: Frame, layout: Layout)
    requires ChikyuFinish(data, layout).Success?
    ensures ConvertColumns(Keyed(data), layout.conversions).Success?
    ensures Averaged(ConvertedTable(data, layout), layout) == ChikyuFinish(data, layout)
  {
  }

  function ChikyuIw(holes: seq<HoleMeta>, files: seq<Chikyu.DataFile>, layout: Layout): (r: Result<Frame>)
    ensures r.Success? ==> ScanFiles(holes, files).Success? && ScanFiles(holes, files).value.count > 0
    ensures ScanFiles(holes, files).Success? && ScanFiles(holes, files).value.count == 0 ==> r.Failure?
  {
    var s :- ScanFiles(holes, files);
    if s.count == 0 then Failure("NameError: name 'chikyu_data' is not defined")
    else ChikyuFinish(s.data, layout)
  }

  /** `load_chikyu_iw` with its own layout. */
  function ChikyuIwTable(holes: seq<HoleMeta>, files: seq<Chikyu.DataFile>): Result<Frame> {
    ChikyuIw(holes, files, ChikyuLayout)
  }

  /** The directory loop with its counter, then the table's keys, units,
      analytes and labels. */
  method LoadChikyuIw(holes: seq<HoleMeta>, files: seq<Chikyu.DataFile>, layout: Layout) returns (r: Result<Frame>)
    ensures r == ChikyuIw(holes, files, layout)
  {
    var s := Scan(0, Frame([], []), None, None);
    for k := 0 to |files|
      invariant ScanFiles(holes, files[..k]) == Success(s)
    {
      assert files[..k + 1][..k] == files[..k];
      var next := ReadFile(holes, s, files[k]);
      if next.Failure? {
        ScanFilesFails(holes, files, k + 1);
        return Failure(next.error);
      }
      s := next.value;
    }
    assert files[..|files|] == files;
    if s.count == 0 {
      return Failure("NameError: name 'chikyu_data' is not defined");
    }
    r := ChikyuFinish(s.data, layout);
  }

  lemma LabelsDistinct()
    ensures NoDup(LabelNames) && NoDup(LabelColumns)
  {
  }

  lemma KeyLabels()
    ensures LabelNames[0] == "sample_key" && LabelColumns[0] == "sample_key"
    ensures LabelNames[1] == "rep_key" && LabelColumns[1] == "rep_key"
  {
  }

  lemma LabelsNotKeys(k: nat)
    requires 2 <= k < |LabelColumns|
    ensures LabelColumns[k] != "sample_key" && LabelColumns[k] != "rep_key"
  {
  }

  /** The label columns of the result are the converted table's label
      columns under their new names. */
  lemma AveragedLabel(w: Frame, layout: Layout, i: nat, k: nat)
    requires Averaged(w, layout).Success? && i < |w.rows| && k < |LabelNames|
    ensures LabelColumns[k] in w.columns
    ensures Get(Averaged(w, layout).value, i, LabelNames[k]) == Get(w, i, LabelColumns[k])
  {
    var t := AnalyteTable(w, layout.analytes).value;
    var labels := Select(w, LabelColumns).value;
    var named := Frame(LabelNames, labels.rows);
    LabelsDistinct();
    FindDistinct(LabelNames, k);
    FindDistinct(LabelColumns, k);
    BesideGet(named, Grouped(t, layout.names, MeanPresent), i, LabelNames[k]);
    assert LabelColumns[k] in LabelColumns;
  }

  /** A label column of the result holds the keyed table's cell. */
  lemma FinishLabel(data: Frame, layout: Layout, i: nat, k: nat)
    requires ChikyuFinish(data, layout).Success? && KeepsLabels(layout.conversions)
    requires i < |data.rows| && k < |LabelNames|
    ensures LabelColumns[k] in Keyed(data).columns
    ensures Get(ChikyuFinish(data, layout).value, i, LabelNames[k]) == Get(Keyed(data), i, LabelColumns[k])
  {
    FinishAveraged(data, layout);
    AveragedLabel(ConvertedTable(data, layout), layout, i, k);
    ConvertColumnsGet(Keyed(data), layout.conversions, i, LabelColumns[k]);
    assert LabelColumns[k] in LabelColumns;
    ConvertedUnlisted(layout.conversions, LabelColumns[k], Get(Keyed(data), i, LabelColumns[k]));
  }

  /** The sample key of row `i` is the key of merged row `i`. */
  lemma ChikyuSampleKey(data: Frame, layout: Layout, i: nat)
    requires ChikyuFinish(data, layout).Success? && KeepsLabels(layout.conversions)
    requires i < |data.rows| && "sample_key" !in data.columns
    ensures Get(ChikyuFinish(data, layout).value, i, "sample_key") == Textual(KeyCell(ChikyuKeys(data)[i]))
  {
    KeyLabels();
    FinishLabel(data, layout, i, 0);
    KeyedSampleKey(data, i);
  }

  /** The replicate key of row `i` is the replicate number of merged row
      `i` among the rows with its sample key. */
  lemma ChikyuRepKey(data: Frame, layout: Layout, i: nat)
    requires ChikyuFinish(data, layout).Success? && KeepsLabels(layout.conversions)
    requires i < |data.rows| && "sample_key" !in data.columns && "rep_key" !in data.columns
    ensures Get(ChikyuFinish(data, layout).value, i, "rep_key") == Textual(KeyCell(ChikyuReps(data)[i]))
  {
    KeyLabels();
    FinishLabel(data, layout, i, 1);
    KeyedRepKey(data, i);
  }

  /** The leg, site, hole, depth and comment columns of row `i` are the
      merged row's cells, stripped and as text; a merged table without one
      of them fails. */
  lemma ChikyuLabel(data: Frame, layout: Layout, i: nat, k: nat)
    requires ChikyuFinish(data, layout).Success? && KeepsLabels(layout.conversions)
    requires i < |data.rows| && 2 <= k < |LabelNames|
    ensures LabelColumns[k] in data.columns
    ensures Get(ChikyuFinish(data, layout).value, i, LabelNames[k]) == Cleaned(Get(data, i, LabelColumns[k]))
  {
    LabelsNotKeys(k);
    FinishLabel(data, layout, i, k);
    KeyedGet(data, i, LabelColumns[k]);
  }

  /** Each canonical analyte column of row `i` holds the mean of the
      numbers in the analyte columns mapped to it. */
  lemma ChikyuAnalyte(data: Frame, layout: Layout, i: nat, g: string)
    requires ChikyuFinish(data, layout).Success? && i < |data.rows| && g !in LabelNames
    ensures var t := AnalyteTable(ConvertColumns(Keyed(data), layout.conversions).value, layout.analytes).value;
      g in Grouped(t, layout.names, MeanPresent).columns ==>
        Get(ChikyuFinish(data, layout).value, i, g) == MeanPresent(GroupCells(t.columns, ZipMap(t.columns, layout.names), t.rows[i], g))
  {
    FinishAveraged(data, layout);
    var w := ConvertedTable(data, layout);
    var t := AnalyteTable(w, layout.analytes).value;
    var labels := Select(w, LabelColumns).value;
    var reduced := Grouped(t, layout.names, MeanPresent);
    BesideGet(Frame(LabelNames, labels.rows), reduced, i, g);
    if g in reduced.columns {
      GroupedGet(t, layout.names, MeanPresent, i, g);
    }
  }
}
