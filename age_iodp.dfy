/** The IODP age-control picks (age_depth.py, `load_iodp_age_depth`): the
    "Age Control" sheets of the LIMS workbooks stacked, their columns
    reduced by position to standard names, age ranges averaged, leg, site
    and hole read from the sample label, a depth window applied, the site
    keys joined, and a missing age filled from the age range. */
module AgeIodp {
  import opened Wrappers
  import opened Seqs
  import opened Frames
  import opened Units
  import opened Reshape
  import opened AgeDepth
  import Sorting
  import Text
  import Metadata
  import AgeOdp

  // ---------------------------------------------------------------------
  // gathering the sheets

  /** A workbook: the names of its sheets and the content of its "Age
      Control" sheet (read only when that sheet exists). */
  datatype Workbook = Workbook(sheets: seq<string>, ageControl: Frame)

  /** Python's order on text: code point by code point, a proper prefix
      first. */
  predicate NameLt(a: string, b: string)
    decreases |a|
  {
    |b| > 0 && (|a| == 0 || a[0] < b[0] || (a[0] == b[0] && NameLt(a[1..], b[1..])))
  }

  lemma {:induction false} NameLtIrreflexive(a: string)
    ensures !NameLt(a, a)
    decreases |a|
  {
    if |a| > 0 {
      NameLtIrreflexive(a[1..]);
    }
  }

  lemma {:induction false} NameLtTrans(a: string, b: string, c: string)
    requires NameLt(a, b) && NameLt(b, c)
    ensures NameLt(a, c)
    decreases |a|
  {
    if |a| > 0 && a[0] == b[0] && b[0] == c[0] {
      NameLtTrans(a[1..], b[1..], c[1..]);
    }
  }

  lemma {:induction false} NameLtTotal(a: string, b: string)
    requires a != b
    ensures NameLt(a, b) || NameLt(b, a)
    decreases |a|
  {
    if |a| > 0 && |b| > 0 && a[0] == b[0] {
      assert a == [a[0]] + a[1..] && b == [b[0]] + b[1..];
      NameLtTotal(a[1..], b[1..]);
    }
  }

  /** Column names in ascending order, each once. */
  predicate SortedNames(s: seq<string>) {
    forall i, j | 0 <= i < j < |s| :: NameLt(s[i], s[j])
  }

  /** Adds a name to a sorted header, at its place, unless it is there. */
  function InsertName(s: seq<string>, x: string): seq<string> {
    if x in s then s
    else if |s| == 0 then [x]
    else if NameLt(s[|s| - 1], x) then s + [x]
    else InsertName(s[..|s| - 1], x) + [s[|s| - 1]]
  }

  lemma {:induction false} InsertNameMembers(s: seq<string>, x: string)
    ensures forall c :: c in InsertName(s, x) <==> c in s || c == x
  {
    if x !in s && |s| > 0 && !NameLt(s[|s| - 1], x) {
      var init := s[..|s| - 1];
      assert x !in init;
      InsertNameMembers(init, x);
      assert s == init + [s[|s| - 1]];
    }
  }

  lemma {:induction false} InsertNameSorted(s: seq<string>, x: string)
    requires SortedNames(s)
    ensures SortedNames(InsertName(s, x))
  {
    if x !in s && |s| > 0 {
      var n := |s| - 1;
      var last := s[n];
      if NameLt(last, x) {
        forall i | 0 <= i < n ensures NameLt(s[i], x) {
          NameLtTrans(s[i], last, x);
        }
      } else {
        NameLtTotal(last, x);
        var init := s[..n];
        assert x !in init;
        InsertNameSorted(init, x);
        var ins := InsertName(init, x);
        InsertNameMembers(init, x);
        forall i | 0 <= i < |ins| ensures NameLt(ins[i], last) {
          assert ins[i] in ins;
          if ins[i] != x {
            var k :| 0 <= k < n && init[k] == ins[i];
          }
        }
      }
    }
  }

  /** The header of `pd.concat` with `sort=True`: the union of both
      headers, sorted. */
  function UnionSorted(s: seq<string>, names: seq<string>): seq<string>
    decreases |names|
  {
    if |names| == 0 then s else UnionSorted(InsertName(s, names[0]), names[1..])
  }

  lemma {:induction false} UnionSortedProps(s: seq<string>, names: seq<string>)
    requires SortedNames(s)
    ensures SortedNames(UnionSorted(s, names))
    ensures forall c :: c in UnionSorted(s, names) <==> c in s || c in names
    decreases |names|
  {
    if |names| > 0 {
      InsertNameSorted(s, names[0]);
      InsertNameMembers(s, names[0]);
      UnionSortedProps(InsertName(s, names[0]), names[1..]);
      assert names == [names[0]] + names[1..];
    }
  }

  /** `acc.append(sheet, sort=True)`: the rows of both, aligned by name
      under the sorted union of their headers. */
  function Append(acc: Frame, sheet: Frame): (r: Frame)
    ensures |r.rows| == |acc.rows| + |sheet.rows|
  {
    var cols := UnionSorted(acc.columns, sheet.columns);
    Frame(cols, Reindex(acc, cols).rows + Reindex(sheet, cols).rows)
  }

  const AgeControl := "Age Control"

  /** The stacked "Age Control" sheets of the workbooks, in order. */
  function Gathered(books: seq<Workbook>): Frame {
    if |books| == 0 then Frame([], [])
    else
      var acc := Gathered(books[..|books| - 1]);
      var b := books[|books| - 1];
      if AgeControl in b.sheets then Append(acc, b.ageControl) else acc
  }

  /** The row labels the stacked sheets keep: each sheet numbers its own
      rows from 0. */
  function SheetLabels(books: seq<Workbook>): (ls: seq<nat>)
    ensures |ls| == |Gathered(books).rows|
  {
    if |books| == 0 then []
    else
      var b := books[|books| - 1];
      SheetLabels(books[..|books| - 1]) + if AgeControl in b.sheets then Indices(|b.ageControl.rows|) else []
  }

  /** The stacked header is sorted and holds exactly the names of the
      sheets that were read. */
  lemma {:induction false} GatheredColumns(books: seq<Workbook>)
    ensures SortedNames(Gathered(books).columns)
    ensures forall c :: c in Gathered(books).columns <==>
      exists k | 0 <= k < |books| :: AgeControl in books[k].sheets && c in books[k].ageControl.columns
  {
    if |books| > 0 {
      var n := |books| - 1;
      var init := books[..n];
      GatheredColumns(init);
      var acc := Gathered(init);
      if AgeControl in books[n].sheets {
        UnionSortedProps(acc.columns, books[n].ageControl.columns);
      }
      forall c ensures c in Gathered(books).columns <==>
        exists k | 0 <= k < |books| :: AgeControl in books[k].sheets && c in books[k].ageControl.columns
      {
        if c in acc.columns {
          var k :| 0 <= k < n && AgeControl in init[k].sheets && c in init[k].ageControl.columns;
          assert books[k] == init[k];
        }
        if exists k | 0 <= k < |books| :: AgeControl in books[k].sheets && c in books[k].ageControl.columns {
          var k :| 0 <= k < |books| && AgeControl in books[k].sheets && c in books[k].ageControl.columns;
          if k < n {
            assert init[k] == books[k];
          }
        }
      }
    }
  }

  /** The loop over the workbooks: a workbook with an "Age Control" sheet
      adds that sheet's rows, the others are skipped. */
  method GatherAgeControl(books: seq<Workbook>) returns (data: Frame, labels: seq<nat>)
    ensures data == Gathered(books) && labels == SheetLabels(books)
  {
    data, labels := Frame([], []), [];
    var i := 0;
    while i < |books|
      invariant i <= |books|
      invariant data == Gathered(books[..i]) && labels == SheetLabels(books[..i])
    {
      assert books[..i + 1][..i] == books[..i];
      if AgeControl in books[i].sheets {
        data := Append(data, books[i].ageControl);
        labels := labels + Indices(|books[i].ageControl.rows|);
      }
      i := i + 1;
    }
    assert books[..i] == books;
  }

  /** `reset_index()`: the labels become a new first column, named "index",
      or "level_0" when a sheet already has an "index" column; a ValueError
      when both names are taken. */
  function WithIndex(f: Frame, labels: seq<nat>): (r: Result<Frame>)
    requires |labels| == |f.rows|
    ensures r.Success? <==> "index" !in f.columns || "level_0" !in f.columns
    ensures r.Success? ==> |r.value.columns| == |f.columns| + 1 && r.value.columns[1..] == f.columns
    ensures r.Success? ==> r.value.columns[0] !in f.columns
    ensures r.Success? ==> r.value.columns[0] == "index" || r.value.columns[0] == "level_0"
    ensures r.Success? && "index" !in f.columns ==> r.value.columns[0] == "index"
    ensures r.Success? ==> |r.value.rows| == |f.rows|
    ensures r.Success? ==> forall i | 0 <= i < |f.rows| :: r.value.rows[i] == [Num(labels[i] as real)] + f.rows[i]
  {
    var name := if "index" !in f.columns then "index" else "level_0";
    if name in f.columns then Failure("ValueError: cannot insert level_0, already exists")
    else Success(Frame([name] + f.columns, seq(|f.rows|, i requires 0 <= i < |f.rows| => [Num(labels[i] as real)] + f.rows[i])))
  }

  // ---------------------------------------------------------------------
  // cutting to the relevant data

  /** `Sample.str.contains('No data.*') == True`: text cells that mention
      "No data"; other cells give NaN, which is not True. */
  predicate NoDataRow(cols: seq<string>, r: Row) {
    var x := Value(cols, r, "Sample");
    x.Str? && Text.Contains(x.s, "No data")
  }

  function KeepSample(cols: seq<string>): Row -> bool {
    (r: Row) => !NoDataRow(cols, r)
  }

  /** Drops the rows whose sample says "No data": a KeyError without a
      Sample column, an AttributeError when the column holds no text. */
  function DropNoData(f: Frame): (r: Result<Frame>)
    ensures r.Success? <==> "Sample" in f.columns && IsObject(Column(f, "Sample"))
    ensures r.Success? ==> r.value == FilterRows(f, KeepSample(f.columns))
  {
    if "Sample" !in f.columns then Failure("KeyError: Sample")
    else if !IsObject(Column(f, "Sample")) then Failure("AttributeError: Can only use .str accessor with string values")
    else Success(FilterRows(f, KeepSample(f.columns)))
  }

  /** Column `k` holds some value that is not missing. */
  function HasValue(f: Frame): nat -> bool {
    (k: nat) => exists i | 0 <= i < |f.rows| :: At(f.rows[i], k) != Missing
  }

  /** `dropna(axis=1, how='all')`: the columns holding some value, in
      order. */
  function DropEmptyColumns(f: Frame): (g: Frame)
    ensures |g.rows| == |f.rows|
  {
    var keep := Filter(HasValue(f), Indices(|f.columns|));
    Frame(Map((k: nat) => if k < |f.columns| then f.columns[k] else "", keep),
          Map((r: Row) => Map((k: nat) => At(r, k), keep), f.rows))
  }

  /** Column `j` of the result is the `j`-th column of the input that holds a
      value, unchanged; every column left out is missing throughout. */
  lemma DropEmptyColumnsExact(f: Frame) returns (ix: seq<nat>)
    ensures var g := DropEmptyColumns(f);
      |g.columns| == |ix| &&
      (forall j | 0 <= j < |ix| :: ix[j] < |f.columns| && g.columns[j] == f.columns[ix[j]] && HasValue(f)(ix[j])) &&
      (forall j, i | 0 <= j < |ix| && 0 <= i < |f.rows| :: At(g.rows[i], j) == At(f.rows[i], ix[j])) &&
      (forall k, i | 0 <= k < |f.columns| && k !in ix && 0 <= i < |f.rows| :: At(f.rows[i], k) == Missing)
  {
    var idx := Indices(|f.columns|);
    FilterExact(HasValue(f), idx);
    ix := KeptIndices(HasValue(f), idx);
    forall j | 0 <= j < |ix| ensures idx[ix[j]] == ix[j] {
    }
    forall k | 0 <= k < |f.columns| && k !in ix ensures !HasValue(f)(k) {
      assert idx[k] == k;
    }
  }

  /** The standard name of each column of the stacked sheets, by position. */
  const IodpStd: seq<string> :=
    ["index", "aw", "depth_bottom", "depth_bottom", "bottom", "depth_bottom", "bottom", "core",
     "core_sect", "datum", "datum", "age", "age_old", "age_young", "age", "age_old", "age_young",
     "age_old", "age_young", "datum_author_year", "datum_author_year", "comment", "datum_group",
     "datum_group_code", "datum", "datum_generic", "datum_generic", "datum_region", "datum_status",
     "datum_type", "datum_val_comment", "leg", "sample_id_data", "file_data", "datum_generic", "hole",
     "label", "marker_species", "piece", "label", "section", "file_links", "site", "depth_top",
     "depth_top", "top", "depth_top", "top", "type", "misc1", "misc2", "age_old", "age_young",
     "datum_author_year", "datum_group", "datum_group_code", "datum", "datum_generic", "datum_status",
     "datum_type", "datum_val_comment", "comments_other"]

  const IodpReduced: seq<string> :=
    ["label", "leg", "site", "hole", "depth_bottom", "depth_top", "age", "age_old", "age_young"]

  /** The columns merged by standard name, each group keeping a row's first
      value present, then cut to the nine columns the loader uses. */
  function Reduced(f: Frame): (g: Frame)
    ensures g.columns == IodpReduced && |g.rows| == |f.rows|
  {
    Reindex(Grouped(f, IodpStd, FirstPresent), IodpReduced)
  }

  /** A reduced cell is the first value present among the row's columns
      whose position maps to that name; missing when no column maps to it. */
  lemma ReducedGet(f: Frame, i: nat, c: string)
    requires i < |f.rows| && c in IodpReduced
    ensures var m := ZipMap(f.columns, IodpStd);
      Get(Reduced(f), i, c) == if Mapped(f.columns, m, c) then FirstPresent(GroupCells(f.columns, m, f.rows[i], c)) else Missing
  {
    var g := Grouped(f, IodpStd, FirstPresent);
    GroupedColumns(f, IodpStd, FirstPresent, c);
    if c in g.columns {
      GroupedGet(f, IodpStd, FirstPresent, i, c);
    }
  }

  /** Some age, oldest age or youngest age is present. */
  predicate Dated(cols: seq<string>, r: Row) {
    Value(cols, r, "age") != Missing || Value(cols, r, "age_old") != Missing || Value(cols, r, "age_young") != Missing
  }

  function DatedRow(cols: seq<string>): Row -> bool {
    (r: Row) => Dated(cols, r)
  }

  // ---------------------------------------------------------------------
  // the age range

  /** The oldest age is kept only when the youngest is present. */
  function PairedOld(older: Cell, younger: Cell): Cell {
    if younger.Missing? then Missing else older
  }

  /** The youngest age is kept only when the (paired) oldest is present. */
  function PairedYoung(older: Cell, younger: Cell): Cell {
    if older.Missing? then Missing else younger
  }

  /** After the two assignments, a range has both ends or neither, and a
      complete range is unchanged. */
  lemma PairedRange(older: Cell, younger: Cell)
    ensures var o := PairedOld(older, younger);
      var y := PairedYoung(o, younger);
      (o.Missing? <==> y.Missing?) &&
      (older != Missing && younger != Missing ==> o == older && y == younger) &&
      (older == Missing || younger == Missing ==> o == Missing && y == Missing)
  {
  }

  function OldColumn(f: Frame): (c: seq<Cell>)
    ensures |c| == |f.rows|
  {
    seq(|f.rows|, i requires 0 <= i < |f.rows| => PairedOld(Get(f, i, "age_old"), Get(f, i, "age_young")))
  }

  function YoungColumn(f: Frame): (c: seq<Cell>)
    ensures |c| == |f.rows|
  {
    seq(|f.rows|, i requires 0 <= i < |f.rows| => PairedYoung(Get(f, i, "age_old"), Get(f, i, "age_young")))
  }

  /** The two `.loc` assignments that blank half-open ranges. */
  function Paired(f: Frame): (g: Frame)
    ensures |g.rows| == |f.rows|
  {
    var o := SetColumn(f, "age_old", OldColumn(f));
    SetColumn(o, "age_young", YoungColumn(o))
  }

  lemma PairedGet(f: Frame, i: nat)
    requires i < |f.rows|
    ensures var o := PairedOld(Get(f, i, "age_old"), Get(f, i, "age_young"));
      Get(Paired(f), i, "age_old") == o && Get(Paired(f), i, "age_young") == PairedYoung(o, Get(f, i, "age_young"))
    ensures forall c | c != "age_old" && c != "age_young" :: Get(Paired(f), i, c) == Get(f, i, c)
  {
  }

  /** `abs()` on the age column: a TypeError on text. */
  function AbsAge(x: Cell): (r: Result<Cell>)
    ensures r.Success? <==> !x.Str?
    ensures r.Success? && x.Num? ==> r.value.Num? && r.value.x >= 0.0 && (r.value.x == x.x || r.value.x == -x.x)
    ensures x.Missing? ==> r == Success(Missing)
  {
    match x
    case Num(v) => Success(Num(if v < 0.0 then -v else v))
    case Missing => Success(Missing)
    case Str(_) => Failure("TypeError: bad operand type for abs(): 'str'")
  }

  /** `astype(str)` and `.str.strip()` on the age and the youngest age. */
  function CleanAge(x: Cell): (r: Cell)
    ensures r != Missing
    ensures x.Str? ==> r == Str(Text.Strip(x.s))
  {
    StripText(Textual(x))
  }

  const MaChars: set<char> := {'M', 'a'}

  /** `astype(str)` and `.str.strip(to_strip='Ma')` on the oldest age: the
      letters M and a are trimmed from both ends, whitespace is not. */
  function CleanOld(x: Cell): (r: Cell)
    ensures r != Missing
    ensures x.Str? ==> r == Str(Text.StripChars(x.s, MaChars))
  {
    match Textual(x)
    case Str(s) => Str(Text.StripChars(s, MaChars))
    case y => y
  }

  /** On a cell that is not text both cleanings only write it as text:
      neither strip touches "nan" or the digits of a whole number. */
  lemma CleanedNotText(x: Cell)
    requires !x.Str?
    ensures CleanAge(x) == Textual(x) && CleanOld(x) == Textual(x)
  {
    if x.Missing? {
      Text.StripKeeps("nan");
      Text.TrimLeftKeeps("nan", MaChars);
      Text.TrimRightKeeps("nan", MaChars);
    } else if x.x.Floor as real == x.x {
      Text.IntTextUnstripped(x.x.Floor, Text.Whitespace);
      Text.IntTextUnstripped(x.x.Floor, MaChars);
    }
  }

  /** The sum of the parts read as numbers; None when a part is not one. */
  function SumParsed(parts: seq<string>): (v: Option<real>)
    ensures v.None? <==> exists p | p in parts :: Text.ParseDecimal(p).None?
  {
    if |parts| == 0 then Some(0.0)
    else
      var rest := SumParsed(parts[1..]);
      assert forall p | p in parts[1..] :: p in parts;
      assert forall p | p in parts && p != parts[0] :: p in parts[1..];
      match Text.ParseDecimal(parts[0])
      case None => None
      case Some(a) => if rest.Some? then Some(a + rest.value) else None
  }

  /** One cell of the range-averaging loop. Text with a dash is split on
      it: when some part is empty the cell becomes the second part, else the
      mean of the parts read as numbers (a ValueError when one is not). A
      negative number, written as text, starts with a dash and so loses its
      sign. */
  function RangeValue(x: Cell): (r: Result<Cell>)
    ensures x.Str? && '-' !in x.s ==> r == Success(x)
    ensures x.Num? ==> r == Success(Num(if x.x < 0.0 then -x.x else x.x))
    ensures x.Missing? ==> r == Success(x)
  {
    match x
    case Str(s) =>
      if '-' in s then
        var parts := Text.Split(s, '-');
        Text.SplitAtSeparator(s, '-');
        if "" in parts then Success(Str(parts[1]))
        else
          match SumParsed(parts)
          case Some(v) => Success(Num(v / (|parts| as real)))
          case None => Failure("ValueError: could not convert string to float")
      else Success(x)
    case Num(v) => Success(Num(if v < 0.0 then -v else v))
    case Missing => Success(x)
  }

  /** The range step fails exactly on text with a dash, no empty part, and
      some part that is not a number. */
  lemma RangeValueFails(x: Cell)
    ensures RangeValue(x).Failure? <==> (x.Str? && '-' in x.s && "" !in Text.Split(x.s, '-') &&
      exists p | p in Text.Split(x.s, '-') :: Text.ParseDecimal(p).None?)
  {
  }

  /** "a-b" with two numbers becomes their midpoint. */
  lemma RangeMidpoint(a: string, b: string, x: real, y: real)
    requires '-' !in a && '-' !in b && a != "" && b != ""
    requires Text.ParseDecimal(a) == Some(x) && Text.ParseDecimal(b) == Some(y)
    ensures RangeValue(Str(a + "-" + b)) == Success(Num((x + y) / 2.0))
  {
    var s := a + "-" + b;
    assert '-' in s by {
      assert s[|a|] == '-';
    }
    Text.SplitCons(a, '-', b);
    Text.SplitNone(b, '-');
    var parts := [a, b];
    assert Text.Split(s, '-') == parts;
    assert "" !in parts;
    assert parts[1..] == [b] && [b][1..] == [];
    assert SumParsed([b]) == Some(y + 0.0);
    assert SumParsed(parts) == Some(x + (y + 0.0));
  }

  /** "-b" (and so a negative number) becomes "b". */
  lemma RangeLeadingDash(b: string)
    requires '-' !in b
    ensures RangeValue(Str("-" + b)) == Success(Str(b))
  {
    Text.SplitCons("", '-', b);
    Text.SplitNone(b, '-');
    assert "" + ['-'] + b == "-" + b;
    assert Text.Split("-" + b, '-') == ["", b];
  }

  /** "a-" becomes the empty text, which no later step reads as a number. */
  lemma RangeTrailingDash(a: string)
    requires '-' !in a
    ensures RangeValue(Str(a + "-")) == Success(Str(""))
  {
    Text.SplitCons(a, '-', "");
    Text.SplitNone("", '-');
    assert a + ['-'] + "" == a + "-";
    assert Text.Split(a + "-", '-') == [a, ""];
  }

  /** The loop over the rows of one age column, as the source runs it for
      each of the three: every cell is replaced by its range value, and the
      first cell that cannot be read stops the loader. */
  method AverageRanges(col: array<Cell>) returns (ok: bool)
    modifies col
    ensures ok <==> forall i | 0 <= i < col.Length :: RangeValue(old(col[i])).Success?
    ensures ok ==> forall i | 0 <= i < col.Length :: col[i] == RangeValue(old(col[i])).value
  {
    ghost var before := col[..];
    var n := 0;
    while n < col.Length
      invariant n <= col.Length && before == old(col[..])
      invariant forall i | 0 <= i < n :: RangeValue(before[i]).Success? && col[i] == RangeValue(before[i]).value
      invariant forall i | n <= i < col.Length :: col[i] == before[i]
    {
      var r := RangeValue(col[n]);
      if r.Failure? {
        return false;
      }
      col[n] := r.value;
      n := n + 1;
    }
    return true;
  }

  const RangeSteps: seq<Conversion> :=
    [Conversion("age", RangeValue), Conversion("age_old", RangeValue), Conversion("age_young", RangeValue)]

  /** `abs` on the age, the three age columns as stripped text, and each
      range averaged. */
  function IodpAges(f: Frame): (r: Result<Frame>)
    requires f.columns == IodpReduced
    ensures r.Success? ==> r.value.columns == IodpReduced && |r.value.rows| == |f.rows|
  {
    var a :- MapColumnChecked(f, "age", AbsAge);
    var c := MapColumn(MapColumn(MapColumn(a, "age", CleanAge), "age_old", CleanOld), "age_young", CleanAge);
    ConvertColumns(c, RangeSteps)
  }

  // ---------------------------------------------------------------------
  // depth, leg, site and hole

  /** The depth of a pick: the mean of its bottom and top depths, skipping
      a missing one. */
  function PickDepth(bottom: Cell, top: Cell): (r: Cell)
    ensures !r.Str?
  {
    MeanPresent([bottom, top])
  }

  /** The depth is the midpoint of the interval when both ends are known,
      the known end when only one is, and missing otherwise. */
  lemma PickDepthCases(bottom: Cell, top: Cell)
    requires !bottom.Str? && !top.Str?
    ensures bottom.Num? && top.Num? ==> PickDepth(bottom, top) == AgeOdp.Mid(top, bottom)
    ensures bottom.Num? && top.Missing? ==> PickDepth(bottom, top) == bottom
    ensures bottom.Missing? && top.Num? ==> PickDepth(bottom, top) == top
    ensures bottom.Missing? && top.Missing? ==> PickDepth(bottom, top) == Missing
  {
    var xs := [bottom, top];
    assert xs[..1] == [bottom] && [bottom][..0] == [];
    assert CountPresent([bottom]) == (if bottom.Num? then 1 else 0);
    assert SumPresent([bottom]) == (if bottom.Num? then bottom.x else 0.0);
    assert CountPresent(xs) == CountPresent([bottom]) + (if top.Num? then 1 else 0);
    assert SumPresent(xs) == SumPresent([bottom]) + (if top.Num? then top.x else 0.0);
  }

  function Depths(f: Frame): (d: seq<Cell>)
    ensures |d| == |f.rows|
  {
    seq(|f.rows|, i requires 0 <= i < |f.rows| => PickDepth(Get(f, i, "depth_bottom"), Get(f, i, "depth_top")))
  }

  /** `astype(str)` and `.str.replace('\.0', '')` on the leg: a whole
      number is written without a fraction, and every ".0" is deleted
      from text. */
  function LegText(x: Cell): (r: Cell)
    ensures r != Missing
    ensures x.Str? ==> r == Str(Text.ReplaceAll(x.s, ".0", ""))
  {
    match Units.Textual(x)
    case Str(s) => Str(Text.ReplaceAll(s, ".0", ""))
    case y => y
  }

  /** A leg read as a float, "320.0", comes back as "320". */
  lemma LegFloatText(ds: string)
    requires Text.AllDigits(ds)
    ensures LegText(Str(ds + ".0")) == Str(ds)
  {
    assert '.' !in ds by {
      assert !Text.IsDigit('.');
    }
    Text.ReplaceSkip(ds, ".0", ".0", "");
    Text.ReplaceHead(".0", "", "");
    assert ".0" + "" == ".0";
    assert ds + "" == ds;
  }

  /** A leg read as a whole number comes back as its digits. */
  lemma LegWholeText(n: nat)
    ensures LegText(Num(n as real)) == Str(Text.NatText(n))
  {
    assert (n as real).Floor == n;
    var ds := Text.NatText(n);
    assert '.' !in ds by {
      assert !Text.IsDigit('.');
    }
    Text.ReplaceAbsent(ds, ".0", "");
  }

  /** Leg, site and hole of one pick. */
  datatype Place = Place(leg: Cell, site: Cell, hole: Cell)

  /** The fields the label loop reads from a sample label such as
      "320-U1331A-1H-2-W 10/12": the leg before the first dash, and the site
      (five characters) and hole (the sixth) from the part after it. A label
      "nan" is skipped; a label without a second part of six characters
      raises an IndexError. The label was written as text, so a number
      here is fractional; its text is not modelled and it is refused too,
      although the text of a negative one such as "-1234.5" would split. */
  function LabelFields(x: Cell): (r: Result<Option<Place>>)
    ensures x == Str("nan") || x.Missing? ==> r == Success(None)
    ensures x.Num? ==> r.Failure?
    ensures r.Success? && r.value.Some? ==>
      r.value.value.site.Str? && |r.value.value.site.s| == 5 && r.value.value.hole.Str? && |r.value.value.hole.s| == 1
  {
    match x
    case Str(s) =>
      if s == "nan" then Success(None)
      else
        var parts := Text.Split(s, '-');
        if |parts| < 2 || |parts[1]| < 6 then Failure("IndexError: string index out of range")
        else Success(Some(Place(Str(parts[0]), Str(parts[1][..5]), Str([parts[1][5]]))))
    case Num(_) => Failure("IndexError: list index out of range")
    case Missing => Success(None)
  }

  /** A label without a dash, or a number, stops the loader; "nan" is
      skipped. */
  lemma LabelWithoutDash(x: Cell)
    requires x.Num? || (x.Str? && '-' !in x.s && x.s != "nan")
    ensures LabelFields(x).Failure?
    ensures LabelFields(Str("nan")) == Success(None)
  {
    if x.Str? {
      Text.SplitNone(x.s, '-');
    }
  }

  /** A label whose first two dash-separated fields are a leg and a field
      of at least six characters gives that leg, the first five characters
      as the site and the sixth as the hole. */
  lemma LabelOfSample(lead: string, field: string, tail: string)
    requires '-' !in lead && '-' !in field && |field| >= 6
    requires tail == "" || tail[0] == '-'
    ensures LabelFields(Str(lead + "-" + field + tail)) ==
      Success(Some(Place(Str(lead), Str(field[..5]), Str([field[5]]))))
  {
    var s := lead + "-" + field + tail;
    LabelParts(lead, field, tail);
    assert s != "nan" by {
      assert s[|lead|] == '-';
    }
  }

  /** The first two parts of such a label are the leg and the field. */
  lemma LabelParts(lead: string, field: string, tail: string)
    requires '-' !in lead && '-' !in field
    requires tail == "" || tail[0] == '-'
    ensures var parts := Text.Split(lead + "-" + field + tail, '-');
      |parts| >= 2 && parts[0] == lead && parts[1] == field
  {
    var rest := field + tail;
    assert lead + "-" + field + tail == lead + ['-'] + rest;
    Text.SplitCons(lead, '-', rest);
    FieldFirst(field, tail);
  }

  /** The part before a dash, or before the end, is the first part. */
  lemma FieldFirst(field: string, tail: string)
    requires '-' !in field
    requires tail == "" || tail[0] == '-'
    ensures Text.Split(field + tail, '-')[0] == field
  {
    if tail == "" {
      Text.SplitNone(field, '-');
      assert field + tail == field;
    } else {
      var more := tail[1..];
      assert tail == ['-'] + more;
      assert field + tail == field + ['-'] + more;
      Text.SplitCons(field, '-', more);
    }
  }

  /** Leg, site and hole after the label loop has seen the row. */
  function PlaceOr(sample: Cell, before: Place): Place {
    match LabelFields(sample)
    case Success(Some(p)) => p
    case _ => before
  }

  /** The label loop: each row whose label is not "nan" gets the leg, site
      and hole its label names; the first label that cannot be read stops
      the loader. */
  method ParseLabels(labels: seq<Cell>, leg: array<Cell>, site: array<Cell>, hole: array<Cell>) returns (ok: bool)
    requires leg.Length == |labels| && site.Length == |labels| && hole.Length == |labels|
    requires leg != site && site != hole && leg != hole
    modifies leg, site, hole
    ensures ok <==> forall i | 0 <= i < |labels| :: LabelFields(labels[i]).Success?
    ensures ok ==> forall i | 0 <= i < |labels| ::
      Place(leg[i], site[i], hole[i]) == PlaceOr(labels[i], Place(old(leg[i]), old(site[i]), old(hole[i])))
  {
    var n := 0;
    while n < |labels|
      invariant n <= |labels|
      invariant forall i | 0 <= i < n ::
        LabelFields(labels[i]).Success? &&
        Place(leg[i], site[i], hole[i]) == PlaceOr(labels[i], Place(old(leg[i]), old(site[i]), old(hole[i])))
      invariant forall i | n <= i < |labels| :: leg[i] == old(leg[i]) && site[i] == old(site[i]) && hole[i] == old(hole[i])
    {
      var r := LabelFields(labels[n]);
      if r.Failure? {
        return false;
      }
      if r.value.Some? {
        var p := r.value.value;
        leg[n], site[n], hole[n] := p.leg, p.site, p.hole;
      }
      n := n + 1;
    }
    return true;
  }

  function Placed(f: Frame, i: nat): Place
    requires i < |f.rows|
  {
    PlaceOr(Get(f, i, "label"), Place(Get(f, i, "leg"), Get(f, i, "site"), Get(f, i, "hole")))
  }

  /** The frame after the label loop: an IndexError when some label cannot
      be read. */
  function Located(f: Frame): (r: Result<Frame>)
    ensures r.Success? <==> forall i | 0 <= i < |f.rows| :: LabelFields(Get(f, i, "label")).Success?
    ensures r.Success? ==> |r.value.rows| == |f.rows|
    ensures r.Success? && "leg" in f.columns && "site" in f.columns && "hole" in f.columns ==> r.value.columns == f.columns
  {
    if forall i | 0 <= i < |f.rows| :: LabelFields(Get(f, i, "label")).Success? then
      var legs := seq(|f.rows|, i requires 0 <= i < |f.rows| => Placed(f, i).leg);
      var sites := seq(|f.rows|, i requires 0 <= i < |f.rows| => Placed(f, i).site);
      var holes := seq(|f.rows|, i requires 0 <= i < |f.rows| => Placed(f, i).hole);
      Success(SetColumn(SetColumn(SetColumn(f, "leg", legs), "site", sites), "hole", holes))
    else Failure("IndexError: list index out of range")
  }

  /** After the label loop, each row holds the place its label names, and
      every other column keeps its cell. */
  lemma LocatedGet(f: Frame, i: nat, c: string)
    requires Located(f).Success? && i < |f.rows|
    ensures var g := Located(f).value;
      Place(Get(g, i, "leg"), Get(g, i, "site"), Get(g, i, "hole")) == Placed(f, i) &&
      (c != "leg" && c != "site" && c != "hole" ==> Get(g, i, c) == Get(f, i, c))
  {
    var legs := seq(|f.rows|, i requires 0 <= i < |f.rows| => Placed(f, i).leg);
    var sites := seq(|f.rows|, i requires 0 <= i < |f.rows| => Placed(f, i).site);
    var holes := seq(|f.rows|, i requires 0 <= i < |f.rows| => Placed(f, i).hole);
    assert Located(f).value == SetColumn(SetColumn(SetColumn(f, "leg", legs), "site", sites), "hole", holes);
    SetThreeGet(f, "leg", legs, "site", sites, "hole", holes, i, c);
    assert legs[i] == Placed(f, i).leg && sites[i] == Placed(f, i).site && holes[i] == Placed(f, i).hole;
  }

  /** The names the steps after the reduction rely on. */
  lemma ReducedNames()
    ensures "depth" !in IodpReduced
    ensures "label" in IodpReduced && "leg" in IodpReduced && "site" in IodpReduced && "hole" in IodpReduced
    ensures "depth_bottom" in IodpReduced && "depth_top" in IodpReduced
    ensures "age" in IodpReduced && "age_old" in IodpReduced && "age_young" in IodpReduced
  {
    assert IodpReduced[0] == "label" && IodpReduced[1] == "leg" && IodpReduced[2] == "site" && IodpReduced[3] == "hole";
    assert IodpReduced[4] == "depth_bottom" && IodpReduced[5] == "depth_top";
    assert IodpReduced[6] == "age" && IodpReduced[7] == "age_old" && IodpReduced[8] == "age_young";
  }

  /** The midpoint depth, and the leg and label as text. */
  function Relabeled(f: Frame): (m: Frame)
    requires "depth" !in f.columns && "leg" in f.columns && "label" in f.columns
    ensures m.columns == f.columns + ["depth"] && |m.rows| == |f.rows|
  {
    var d := SetColumn(f, "depth", Depths(f));
    MapColumn(MapColumn(d, "leg", LegText), "label", Textual)
  }

  lemma RelabeledGet(f: Frame, i: nat)
    requires "depth" !in f.columns && "leg" in f.columns && "label" in f.columns && i < |f.rows|
    ensures var m := Relabeled(f);
      Get(m, i, "depth") == PickDepth(Get(f, i, "depth_bottom"), Get(f, i, "depth_top")) &&
      Get(m, i, "label") == Textual(Get(f, i, "label")) && Get(m, i, "leg") == LegText(Get(f, i, "leg")) &&
      forall c | c != "depth" && c != "leg" && c != "label" :: Get(m, i, c) == Get(f, i, c)
  {
  }

  /** The midpoint depth, the leg and label as text, and the places read
      from the labels. */
  function IodpPlaced(f: Frame): (r: Result<Frame>)
    requires f.columns == IodpReduced
    ensures r.Success? ==> r.value.columns == IodpPlacedColumns && |r.value.rows| == |f.rows|
  {
    ReducedNames();
    Located(Relabeled(f))
  }

  const IodpPlacedColumns: seq<string> := IodpReduced + ["depth"]

  /** After the depth, leg, label and place steps, row `i` holds the mean
      depth and the place its label names (or its leg as text and its own
      site and hole when the label is "nan"). */
  lemma IodpPlacedGet(f: Frame, i: nat)
    requires f.columns == IodpReduced && IodpPlaced(f).Success? && i < |f.rows|
    ensures var p := IodpPlaced(f).value;
      Get(p, i, "depth") == PickDepth(Get(f, i, "depth_bottom"), Get(f, i, "depth_top")) &&
      Place(Get(p, i, "leg"), Get(p, i, "site"), Get(p, i, "hole")) ==
        PlaceOr(Textual(Get(f, i, "label")), Place(LegText(Get(f, i, "leg")), Get(f, i, "site"), Get(f, i, "hole")))
  {
    ReducedNames();
    var m := Relabeled(f);
    RelabeledGet(f, i);
    LocatedGet(m, i, "depth");
    assert Placed(m, i) == PlaceOr(Textual(Get(f, i, "label")), Place(LegText(Get(f, i, "leg")), Get(f, i, "site"), Get(f, i, "hole")));
  }

  /** Every column those steps do not write keeps its cell. */
  lemma IodpPlacedKeep(f: Frame, i: nat, c: string)
    requires f.columns == IodpReduced && IodpPlaced(f).Success? && i < |f.rows|
    requires c != "depth" && c != "leg" && c != "site" && c != "hole" && c != "label"
    ensures Get(IodpPlaced(f).value, i, c) == Get(f, i, c)
  {
    ReducedNames();
    RelabeledGet(f, i);
    LocatedGet(Relabeled(f), i, c);
  }

  // ---------------------------------------------------------------------
  // the depth window

  /** The depth range of a pick, bottom minus top, is below 11 m. */
  function IodpInWindow(cols: seq<string>): Row -> bool {
    (r: Row) => AgeOdp.InWindow(Value(cols, r, "depth_top"), Value(cols, r, "depth_bottom"))
  }

  /** `fdf.iloc[diff[diff < 11].index]` with `diff = depth_bottom -
      depth_top`: a KeyError without both columns, a TypeError when either
      holds text. */
  function IodpWindow(f: Frame): (r: Result<Frame>)
    ensures r.Success? <==> ("depth_bottom" in f.columns && "depth_top" in f.columns &&
      Sorting.NoText(f, "depth_bottom") && Sorting.NoText(f, "depth_top"))
    ensures r.Success? ==> r.value == FilterRows(f, IodpInWindow(f.columns))
  {
    if "depth_bottom" !in f.columns || "depth_top" !in f.columns then Failure("KeyError: depth_bottom, depth_top")
    else if !Sorting.NoText(f, "depth_bottom") || !Sorting.NoText(f, "depth_top") then
      Failure("TypeError: unsupported operand type(s) for -")
    else Success(FilterRows(f, IodpInWindow(f.columns)))
  }

  /** Row `m` of the window is the `m`-th row `i` of its input whose depth
      range is below 11 m. */
  lemma IodpWindowGet(f: Frame, m: nat) returns (i: nat)
    requires IodpWindow(f).Success? && m < |IodpWindow(f).value.rows|
    ensures FilterExactAt(f, m, i)
    ensures i < |f.rows| && AgeOdp.InWindow(Get(f, i, "depth_top"), Get(f, i, "depth_bottom"))
  {
    var keep := IodpInWindow(f.columns);
    FilterExact(keep, f.rows);
    i := KeptIndices(keep, f.rows)[m];
  }

  /** Each cell of that row is the input's, unchanged. */
  lemma IodpWindowCell(f: Frame, m: nat, i: nat, c: string)
    requires IodpWindow(f).Success? && FilterExactAt(f, m, i)
    ensures m < |IodpWindow(f).value.rows| && i < |f.rows|
    ensures Get(IodpWindow(f).value, m, c) == Get(f, i, c)
  {
    FilterRowsGet(f, IodpInWindow(f.columns), m, c);
  }

  // ---------------------------------------------------------------------
  // site keys and ages

  const IodpFull: seq<string> := ["site_key", "leg", "site", "hole", "depth", "age", "age_old", "age_young"]
  const IodpOut: seq<string> := ["site_key", "leg", "site", "hole", "depth", "age"]

  /** `astype(float)` on the three age columns. */
  const AgeReads: seq<Conversion> :=
    [Conversion("age_old", ReadFloat), Conversion("age_young", ReadFloat), Conversion("age", ReadFloat)]

  /** The age-filling loop on one row: a missing age is taken from the
      range, the oldest age when the youngest is missing, the youngest when
      the oldest is, and their midpoint otherwise. */
  function FilledAge(age: Cell, older: Cell, younger: Cell): (r: Cell)
    ensures r == age || r == older || r == younger || r == AgeOdp.Mid(older, younger)
  {
    if !age.Missing? then age
    else if younger.Missing? then older
    else if older.Missing? then younger
    else AgeOdp.Mid(older, younger)
  }

  /** A present age is kept; a filled age is missing only when the whole
      range is. */
  lemma FilledAgeMissing(age: Cell, older: Cell, younger: Cell)
    requires !age.Str? && !older.Str? && !younger.Str?
    ensures age != Missing ==> FilledAge(age, older, younger) == age
    ensures FilledAge(age, older, younger) == Missing <==> age == Missing && older == Missing && younger == Missing
  {
  }

  /** An age filled from a complete range lies inside the range, at its
      midpoint. */
  lemma FilledWithinRange(older: real, younger: real)
    requires younger <= older
    ensures var r := FilledAge(Missing, Num(older), Num(younger));
      r == Num((older + younger) / 2.0) && younger <= r.x <= older
  {
  }

  /** The loop over the rows of the joined table. */
  method FillAges(age: array<Cell>, older: seq<Cell>, younger: seq<Cell>)
    requires |older| == age.Length && |younger| == age.Length
    modifies age
    ensures forall i | 0 <= i < age.Length :: age[i] == FilledAge(old(age[i]), older[i], younger[i])
  {
    ghost var before := age[..];
    var n := 0;
    while n < age.Length
      invariant n <= age.Length && before == old(age[..])
      invariant forall i | 0 <= i < n :: age[i] == FilledAge(before[i], older[i], younger[i])
      invariant forall i | n <= i < age.Length :: age[i] == before[i]
    {
      if age[n].Missing? {
        if younger[n].Missing? {
          age[n] := older[n];
        } else if older[n].Missing? {
          age[n] := younger[n];
        } else {
          age[n] := AgeOdp.Mid(older[n], younger[n]);
        }
      }
      n := n + 1;
    }
  }

  function Fills(f: Frame): (a: seq<Cell>)
    ensures |a| == |f.rows|
  {
    seq(|f.rows|, i requires 0 <= i < |f.rows| => FilledAge(Get(f, i, "age"), Get(f, i, "age_old"), Get(f, i, "age_young")))
  }

  /** `replace('nan', np.nan)`, the filled ages, the age in years and the
      six output columns. */
  function IodpDated(j: Frame): (out: Frame)
    ensures out.columns == IodpOut && |out.rows| == |j.rows|
  {
    var c := MapCells(j, NanToMissing);
    var filled := SetColumn(c, "age", Fills(c));
    Reindex(MapColumn(filled, "age", Years), IodpOut)
  }

  lemma IodpDatedKeep(j: Frame, n: nat, c: string)
    requires n < |j.rows| && c in IodpOut && c in j.columns && c != "age"
    ensures Get(IodpDated(j), n, c) == NanToMissing(Get(j, n, c))
  {
  }

  lemma IodpDatedAge(j: Frame, n: nat)
    requires n < |j.rows| && "age" in IodpOut && "age" in j.columns
    requires "age_old" in j.columns && "age_young" in j.columns
    ensures Get(IodpDated(j), n, "age") ==
      Years(FilledAge(NanToMissing(Get(j, n, "age")), NanToMissing(Get(j, n, "age_old")), NanToMissing(Get(j, n, "age_young"))))
  {
  }

  /** The join to the site keys, the ages read as numbers and filled. */
  function IodpJoined(t: seq<SiteKey>, w: Frame): (r: Result<Frame>)
    ensures r.Success? ==> r.value.columns == IodpOut
  {
    var j :- ReadJoin(t, w);
    Success(IodpDated(j))
  }

  /** One column of the joined table after the reads. */
  lemma IodpRead(j: Frame, n: nat, c: string)
    requires ConvertColumns(j, AgeReads).Success? && n < |j.rows|
    ensures AgeColumn(c) ==> ReadFloat(Get(j, n, c)).Success?
    ensures Get(ConvertColumns(j, AgeReads).value, n, c) ==
      if AgeColumn(c) then ReadFloat(Get(j, n, c)).value else Get(j, n, c)
  {
    if AgeColumn(c) {
      IodpReadAge(j, n, c);
    } else {
      IodpReadOther(j, n, c);
    }
  }

  /** An age column after the reads: its cell read as a number. */
  lemma IodpReadAge(j: Frame, n: nat, c: string)
    requires ConvertColumns(j, AgeReads).Success? && n < |j.rows| && AgeColumn(c)
    ensures ReadFloat(Get(j, n, c)).Success?
    ensures Get(ConvertColumns(j, AgeReads).value, n, c) == ReadFloat(Get(j, n, c)).value
  {
    var k := if c == "age_old" then 0 else if c == "age_young" then 1 else 2;
    AgeReadsApart(k);
    ConvertColumnsAt(j, AgeReads, k, n);
  }

  /** The three reads name three different columns, each read as a number. */
  lemma AgeReadsApart(k: nat)
    requires k < 3
    ensures AgeReads[k].column == (if k == 0 then "age_old" else if k == 1 then "age_young" else "age")
    ensures AgeReads[k].convert == ReadFloat
    ensures forall m | 0 <= m < 3 && m != k :: AgeReads[m].column != AgeReads[k].column
  {
  }

  /** Any other column keeps its cell. */
  lemma IodpReadOther(j: Frame, n: nat, c: string)
    requires ConvertColumns(j, AgeReads).Success? && n < |j.rows| && !AgeColumn(c)
    ensures Get(ConvertColumns(j, AgeReads).value, n, c) == Get(j, n, c)
  {
    ConvertColumnsGet(j, AgeReads, n, c);
    ConvertedUnlisted(AgeReads, c, Get(j, n, c));
  }

  /** The three age columns the reads convert. */
  predicate AgeColumn(c: string) {
    c == "age" || c == "age_old" || c == "age_young"
  }

  lemma FullNames()
    ensures "site_key" in IodpFull && "leg" in IodpFull && "site" in IodpFull && "hole" in IodpFull
    ensures "depth" in IodpFull && "age" in IodpFull && "age_old" in IodpFull && "age_young" in IodpFull
    ensures "site_key" in IodpOut && "leg" in IodpOut && "site" in IodpOut && "hole" in IodpOut
    ensures "depth" in IodpOut && "age" in IodpOut
  {
    assert IodpFull[0] == "site_key" && IodpFull[1] == "leg" && IodpFull[2] == "site" && IodpFull[3] == "hole";
    assert IodpFull[4] == "depth" && IodpFull[5] == "age" && IodpFull[6] == "age_old" && IodpFull[7] == "age_young";
    assert IodpOut[0] == "site_key" && IodpOut[1] == "leg" && IodpOut[2] == "site" && IodpOut[3] == "hole";
    assert IodpOut[4] == "depth" && IodpOut[5] == "age";
  }

  /** The joined table with the ages read. */
  function ReadJoin(t: seq<SiteKey>, w: Frame): (r: Result<Frame>)
    ensures r.Success? ==> r.value.columns == IodpFull && |r.value.rows| == |SiteJoin(t, w).rows|
  {
    ConvertColumns(Reindex(SiteJoin(t, w), IodpFull), AgeReads)
  }

  /** A column the read leaves alone: row `n` holds the cell of the data
      row the join paired it with. */
  lemma JoinedPlain(t: seq<SiteKey>, w: Frame, n: nat, c: string) returns (e: nat, i: nat)
    requires ConvertColumns(Reindex(SiteJoin(t, w), IodpFull), AgeReads).Success?
    requires n < |SiteJoin(t, w).rows| && c in IodpFull
    requires c != "site_key" && c != "age" && c != "age_old" && c != "age_young"
    ensures JoinPlan(t, Column(w, "site"))[n] == (e, i)
    ensures i < |w.rows|
    ensures Get(ConvertColumns(Reindex(SiteJoin(t, w), IodpFull), AgeReads).value, n, c) == Get(w, i, c)
  {
    var j0 := Reindex(SiteJoin(t, w), IodpFull);
    e, i := JoinedGet(t, w, IodpFull, n, c);
    IodpRead(j0, n, c);
  }

  /** An age column: row `n` holds the paired data row's cell read as a
      number. */
  lemma JoinedAge(t: seq<SiteKey>, w: Frame, n: nat, c: string) returns (e: nat, i: nat)
    requires ConvertColumns(Reindex(SiteJoin(t, w), IodpFull), AgeReads).Success?
    requires n < |SiteJoin(t, w).rows| && c in IodpFull
    requires c == "age" || c == "age_old" || c == "age_young"
    ensures JoinPlan(t, Column(w, "site"))[n] == (e, i)
    ensures i < |w.rows| && ReadFloat(Get(w, i, c)).Success?
    ensures Get(ConvertColumns(Reindex(SiteJoin(t, w), IodpFull), AgeReads).value, n, c) == ReadFloat(Get(w, i, c)).value
  {
    var j0 := Reindex(SiteJoin(t, w), IodpFull);
    e, i := JoinedGet(t, w, IodpFull, n, c);
    IodpRead(j0, n, c);
  }

  /** The key column: row `n` holds the key of the paired site-table entry,
      whose site is the data row's site. */
  lemma JoinedKey(t: seq<SiteKey>, w: Frame, n: nat) returns (e: nat, i: nat)
    requires ConvertColumns(Reindex(SiteJoin(t, w), IodpFull), AgeReads).Success?
    requires n < |SiteJoin(t, w).rows|
    ensures JoinPlan(t, Column(w, "site"))[n] == (e, i)
    ensures e < |t| && i < |w.rows| && Get(w, i, "site") == t[e].site
    ensures Get(ConvertColumns(Reindex(SiteJoin(t, w), IodpFull), AgeReads).value, n, "site_key") == t[e].key
  {
    var j0 := Reindex(SiteJoin(t, w), IodpFull);
    FullNames();
    e, i := JoinedGet(t, w, IodpFull, n, "site_key");
    IodpRead(j0, n, "site_key");
  }

  /** Row `n` of the joined table outside the age: the key of entry `e`
      and the cells of data row `i`. */
  lemma IodpJoinedPlace(t: seq<SiteKey>, w: Frame, n: nat) returns (e: nat, i: nat)
    requires IodpJoined(t, w).Success? && n < |IodpJoined(t, w).value.rows|
    ensures JoinPlan(t, Column(w, "site"))[n] == (e, i)
    ensures e < |t| && i < |w.rows| && Get(w, i, "site") == t[e].site
    ensures var out := IodpJoined(t, w).value;
      Get(out, n, "site_key") == NanToMissing(t[e].key) &&
      Get(out, n, "leg") == NanToMissing(Get(w, i, "leg")) &&
      Get(out, n, "site") == NanToMissing(Get(w, i, "site")) &&
      Get(out, n, "hole") == NanToMissing(Get(w, i, "hole")) &&
      Get(out, n, "depth") == NanToMissing(Get(w, i, "depth"))
  {
    var j := ReadJoin(t, w).value;
    FullNames();
    e, i := JoinedKey(t, w, n);
    var e1, i1 := JoinedPlain(t, w, n, "leg");
    var e2, i2 := JoinedPlain(t, w, n, "site");
    var e3, i3 := JoinedPlain(t, w, n, "hole");
    var e4, i4 := JoinedPlain(t, w, n, "depth");
    IodpDatedKeep(j, n, "site_key");
    IodpDatedKeep(j, n, "leg");
    IodpDatedKeep(j, n, "site");
    IodpDatedKeep(j, n, "hole");
    IodpDatedKeep(j, n, "depth");
  }

  /** The age of row `n` of the joined table, from data row `i`. */
  lemma IodpJoinedAge(t: seq<SiteKey>, w: Frame, n: nat) returns (e: nat, i: nat)
    requires IodpJoined(t, w).Success? && n < |IodpJoined(t, w).value.rows|
    ensures JoinPlan(t, Column(w, "site"))[n] == (e, i)
    ensures i < |w.rows|
    ensures ReadFloat(Get(w, i, "age")).Success? && ReadFloat(Get(w, i, "age_old")).Success? &&
      ReadFloat(Get(w, i, "age_young")).Success?
    ensures Get(IodpJoined(t, w).value, n, "age") == Years(FilledAge(ReadFloat(Get(w, i, "age")).value,
        ReadFloat(Get(w, i, "age_old")).value, ReadFloat(Get(w, i, "age_young")).value))
  {
    var j := ReadJoin(t, w).value;
    FullNames();
    e, i := JoinedAge(t, w, n, "age");
    var e6, i6 := JoinedAge(t, w, n, "age_old");
    var e7, i7 := JoinedAge(t, w, n, "age_young");
    assert i6 == i && i7 == i;
    assert IodpJoined(t, w).value == IodpDated(j);
    IodpDatedAge(j, n);
    ReadKeepsNan(Get(w, i, "age"));
    ReadKeepsNan(Get(w, i, "age_old"));
    ReadKeepsNan(Get(w, i, "age_young"));
  }

  /** A number read from a cell is no "nan" text for the replace to hit. */
  lemma ReadKeepsNan(x: Cell)
    requires ReadFloat(x).Success?
    ensures NanToMissing(ReadFloat(x).value) == ReadFloat(x).value
  {
  }

  /** Row `n` of the joined table: the key of site-table entry `e` and the
      cells of window row `i`, which share a site, with the ages read as
      numbers and a missing age filled from the range. */
  lemma IodpJoinedGet(t: seq<SiteKey>, w: Frame, n: nat) returns (e: nat, i: nat)
    requires IodpJoined(t, w).Success? && n < |IodpJoined(t, w).value.rows|
    ensures e < |t| && i < |w.rows| && Get(w, i, "site") == t[e].site
    ensures ReadFloat(Get(w, i, "age")).Success? && ReadFloat(Get(w, i, "age_old")).Success? &&
      ReadFloat(Get(w, i, "age_young")).Success?
    ensures var out := IodpJoined(t, w).value;
      Get(out, n, "site_key") == NanToMissing(t[e].key) &&
      Get(out, n, "leg") == NanToMissing(Get(w, i, "leg")) &&
      Get(out, n, "site") == NanToMissing(Get(w, i, "site")) &&
      Get(out, n, "hole") == NanToMissing(Get(w, i, "hole")) &&
      Get(out, n, "depth") == NanToMissing(Get(w, i, "depth")) &&
      Get(out, n, "age") == Years(FilledAge(ReadFloat(Get(w, i, "age")).value,
        ReadFloat(Get(w, i, "age_old")).value, ReadFloat(Get(w, i, "age_young")).value))
  {
    e, i := IodpJoinedPlace(t, w, n);
    var e1, i1 := IodpJoinedAge(t, w, n);
  }

  // ---------------------------------------------------------------------
  // the loader

  /** The empty columns dropped, the columns reduced to the nine standard
      ones, the undated picks dropped and the ranges paired. */
  function IodpTable(f: Frame): (g: Frame)
    ensures g.columns == IodpReduced
  {
    ReducedNames();
    Paired(FilterRows(Reduced(DropEmptyColumns(f)), DatedRow(IodpReduced)))
  }

  /** The sheets stacked and cut to dated picks with cleaned ages. */
  function IodpAged(books: seq<Workbook>): (r: Result<Frame>)
    ensures r.Success? ==> r.value.columns == IodpReduced
  {
    var f :- WithIndex(Gathered(books), SheetLabels(books));
    var f :- DropNoData(f);
    IodpAges(IodpTable(f))
  }

  /** `load_iodp_age_depth`, with the workbooks found by the glob given as
      a parameter and the metadata table as another. */
  function LoadIodpAgeDepth(books: seq<Workbook>, meta: Frame): (r: Result<Frame>)
    ensures r.Success? ==> r.value.columns == IodpOut
  {
    var g :- IodpAged(books);
    var p :- IodpPlaced(g);
    var w :- IodpWindow(p);
    var t :- SiteTable(meta);
    IodpJoined(t, w)
  }

  lemma IodpSteps(books: seq<Workbook>, meta: Frame)
    requires LoadIodpAgeDepth(books, meta).Success?
    ensures IodpAged(books).Success? && IodpPlaced(IodpAged(books).value).Success?
    ensures IodpWindow(IodpPlaced(IodpAged(books).value).value).Success? && SiteTable(meta).Success?
    ensures LoadIodpAgeDepth(books, meta) ==
      IodpJoined(SiteTable(meta).value, IodpWindow(IodpPlaced(IodpAged(books).value).value).value)
  {
  }

  /** The leg, site and hole a pick ends up with: those its label names,
      or its own when the label is missing. */
  function LabelPlace(g: Frame, i: nat): Place
    requires i < |g.rows|
  {
    PlaceOr(Textual(Get(g, i, "label")), Place(LegText(Get(g, i, "leg")), Get(g, i, "site"), Get(g, i, "hole")))
  }

  /** Row `m` of the window is the `m`-th row kept. */
  predicate FilterExactAt(f: Frame, m: nat, i: nat) {
    var ix := KeptIndices(IodpInWindow(f.columns), f.rows);
    m < |ix| && ix[m] == i
  }

  /** Row `m` of the depth window is pick `i` of the cleaned table. */
  lemma IodpWindowRow(g: Frame, m: nat) returns (i: nat)
    requires g.columns == IodpReduced && IodpPlaced(g).Success? && IodpWindow(IodpPlaced(g).value).Success?
    requires m < |IodpWindow(IodpPlaced(g).value).value.rows|
    ensures i < |g.rows| && AgeOdp.InWindow(Get(g, i, "depth_top"), Get(g, i, "depth_bottom"))
    ensures var w := IodpWindow(IodpPlaced(g).value).value;
      Get(w, m, "depth") == PickDepth(Get(g, i, "depth_bottom"), Get(g, i, "depth_top")) &&
      Place(Get(w, m, "leg"), Get(w, m, "site"), Get(w, m, "hole")) == LabelPlace(g, i) &&
      Get(w, m, "age") == Get(g, i, "age") && Get(w, m, "age_old") == Get(g, i, "age_old") &&
      Get(w, m, "age_young") == Get(g, i, "age_young")
  {
    var p := IodpPlaced(g).value;
    var w := IodpWindow(p).value;
    i := PlacedWindowRow(g, p, w, m);
    var i' := PlacedWindowAges(g, p, w, m);
  }

  /** The window row facts, with the placed table and the window named. */
  lemma PlacedWindowRow(g: Frame, p: Frame, w: Frame, m: nat) returns (i: nat)
    requires g.columns == IodpReduced && IodpPlaced(g) == Success(p) && IodpWindow(p) == Success(w)
    requires m < |w.rows|
    ensures FilterExactAt(p, m, i)
    ensures i < |g.rows| && AgeOdp.InWindow(Get(g, i, "depth_top"), Get(g, i, "depth_bottom"))
    ensures Get(w, m, "depth") == PickDepth(Get(g, i, "depth_bottom"), Get(g, i, "depth_top"))
    ensures Place(Get(w, m, "leg"), Get(w, m, "site"), Get(w, m, "hole")) == LabelPlace(g, i)
  {
    i := IodpWindowGet(p, m);
    IodpPlacedGet(g, i);
    IodpPlacedKeep(g, i, "depth_top");
    IodpPlacedKeep(g, i, "depth_bottom");
    IodpWindowCell(p, m, i, "depth");
    IodpWindowCell(p, m, i, "leg");
    IodpWindowCell(p, m, i, "site");
    IodpWindowCell(p, m, i, "hole");
  }

  /** The window row's ages, with the placed table and the window named. */
  lemma PlacedWindowAges(g: Frame, p: Frame, w: Frame, m: nat) returns (i: nat)
    requires g.columns == IodpReduced && IodpPlaced(g) == Success(p) && IodpWindow(p) == Success(w)
    requires m < |w.rows|
    ensures FilterExactAt(p, m, i)
    ensures i < |g.rows|
    ensures Get(w, m, "age") == Get(g, i, "age") && Get(w, m, "age_old") == Get(g, i, "age_old")
    ensures Get(w, m, "age_young") == Get(g, i, "age_young")
  {
    i := IodpWindowGet(p, m);
    IodpPlacedKeep(g, i, "age");
    IodpPlacedKeep(g, i, "age_old");
    IodpPlacedKeep(g, i, "age_young");
    IodpWindowCell(p, m, i, "age");
    IodpWindowCell(p, m, i, "age_old");
    IodpWindowCell(p, m, i, "age_young");
  }

  /** Row `n` of the IODP table is a dated pick `i` whose depth range is
      below 11 m, at a site its label names and the metadata knows, with
      that site's key: its depth is the mean of its bottom and top depths,
      and its age, in years, is the age read as a number or, when that is
      missing, the one filled from the age range. */
  lemma IodpPoint(books: seq<Workbook>, meta: Frame, n: nat) returns (e: nat, i: nat)
    requires LoadIodpAgeDepth(books, meta).Success? && n < |LoadIodpAgeDepth(books, meta).value.rows|
    ensures IodpAged(books).Success? && SiteTable(meta).Success?
    ensures i < |IodpAged(books).value.rows| && e < |SiteTable(meta).value|
    ensures var g := IodpAged(books).value;
      var t := SiteTable(meta).value;
      var out := LoadIodpAgeDepth(books, meta).value;
      var pl := LabelPlace(g, i);
      AgeOdp.InWindow(Get(g, i, "depth_top"), Get(g, i, "depth_bottom")) &&
      pl.site == t[e].site &&
      Get(out, n, "site_key") == NanToMissing(t[e].key) &&
      Get(out, n, "leg") == NanToMissing(pl.leg) &&
      Get(out, n, "site") == NanToMissing(pl.site) &&
      Get(out, n, "hole") == NanToMissing(pl.hole) &&
      Get(out, n, "depth") == PickDepth(Get(g, i, "depth_bottom"), Get(g, i, "depth_top")) &&
      ReadFloat(Get(g, i, "age")).Success? && ReadFloat(Get(g, i, "age_old")).Success? &&
      ReadFloat(Get(g, i, "age_young")).Success? &&
      Get(out, n, "age") == Years(FilledAge(ReadFloat(Get(g, i, "age")).value,
        ReadFloat(Get(g, i, "age_old")).value, ReadFloat(Get(g, i, "age_young")).value))
  {
    IodpSteps(books, meta);
    var g := IodpAged(books).value;
    var w := IodpWindow(IodpPlaced(g).value).value;
    var t := SiteTable(meta).value;
    var m: nat;
    e, m := IodpJoinedGet(t, w, n);
    i := IodpWindowRow(g, m);
  }
}
