/** The IODP interstitial-water loader (iw_chem.py `load_iodp_iw`). Every
    cell of the file is read as text, stripped and normalised (placeholders
    for "below detection" become 0, unreadable markers become missing); the
    first thirteen columns identify the sample; every data cell is split on
    commas not followed by whitespace into replicate rows; the long tables
    are outer-merged on (sample_key, rep_key), read as numbers, converted to
    standard units and averaged into canonical analyte columns; the sample
    labels, the sample depth and the comments are joined on. */
module IwIodp {
  import opened Wrappers
  import opened Seqs
  import opened Frames
  import opened Keys
  import opened Reshape
  import opened Units
  import opened IwChem
  import opened IwSplit
  import Text
  import Chikyu

  // ---------------------------------------------------------------------
  // cell normalisation

  /** The cells that are replaced by 0 as a whole. */
  const BelowTokens: seq<string> :=
    ["nd", "n.d.", "ND", "N.D.", "bdl", "BLD", "bld", "bd", "BD", "BDL", "b.d.l.", "B.D.L."]

  /** The cells that become missing; the last is an encoding artefact. */
  const Unreadable: seq<string> := ["-", "invalid", "\U{C3}\U{A2}\U{C2}\U{BF}\U{C2}\U{BF}"]

  /** The pattern `<\S+` occurs: a '<' followed by a character that is not
      whitespace. */
  predicate LessThanMark(s: string)
    ensures LessThanMark(s) ==> '<' in s
  {
    exists i | 0 <= i < |s| - 1 :: s[i] == '<' && !Text.IsSpace(s[i + 1])
  }

  /** The pattern `-\d+` occurs (and with it every match of `-\d+\.\d+`):
      a '-' followed by a digit. */
  predicate MinusDigit(s: string)
    ensures MinusDigit(s) ==> '-' in s
  {
    exists i | 0 <= i < |s| - 1 :: s[i] == '-' && Text.IsDigit(s[i + 1])
  }

  /** A regular-expression replacement by a number replaces the whole cell
      when its pattern occurs anywhere in it. */
  predicate BelowMark(s: string)
    ensures BelowMark(s) ==> !Text.AllDigits(s)
  {
    assert Text.Contains(s, "bld") || Text.Contains(s, "bdl") ==> 'b' in s by {
      if Text.Contains(s, "bld") || Text.Contains(s, "bdl") {
        var i: nat :| i <= |s| && (Text.OccursAt(s, "bld", i) || Text.OccursAt(s, "bdl", i));
        var sub := if Text.OccursAt(s, "bld", i) then "bld" else "bdl";
        assert Text.OccursAt(s, sub, i) && |sub| == 3 && sub[0] == 'b';
        assert s[i..i + |sub|] == sub && s[i] in s;
      }
    }
    Text.Contains(s, "bld") || Text.Contains(s, "bdl") || LessThanMark(s) || MinusDigit(s)
  }

  /** Among whole numbers, the marks select exactly the negative ones. */
  lemma WholeNumberMarks(n: int)
    ensures BelowMark(Text.IntText(n)) <==> n < 0
  {
    var s := Text.IntText(n);
    if n < 0 {
      var ds := Text.NatText(-n);
      assert s == "-" + ds && ds[0] in ds;
      assert s[0] == '-' && Text.IsDigit(s[1]);
    } else {
      assert Text.AllDigits(s);
      assert !Text.IsDigit('b');
      Text.NotContainsChar(s, "bld", 0);
      Text.NotContainsChar(s, "bdl", 0);
    }
  }

  /** The replacements in the order the loader applies them: the one
      relabelled expedition, the exact below-detection tokens, the
      below-detection patterns, then the unreadable markers. A replaced
      cell is never touched again, so the chain of `if`s is the sequence of
      replacements. */
  function Normalised(s: string): (r: string)
    ensures r == s || r == "321" || r == "0" || r == "nan"
  {
    if s == "320(321)" then "321"
    else if s in BelowTokens then "0"
    else if BelowMark(s) then "0"
    else if s in Unreadable then "nan"
    else s
  }

  /** Text none of the replacements touches. */
  predicate Clean(s: string) {
    s != "320(321)" && s !in BelowTokens && !BelowMark(s) && s !in Unreadable
  }

  lemma CleanResults()
    ensures Clean("321") && Clean("0") && Clean("nan")
  {
    Text.NotContainsChar("321", "bld", 0);
    Text.NotContainsChar("321", "bdl", 0);
    Text.NotContainsChar("0", "bld", 0);
    Text.NotContainsChar("0", "bdl", 0);
    Text.NotContainsChar("nan", "bld", 0);
    Text.NotContainsChar("nan", "bdl", 0);
  }

  /** No placeholder survives the normalisation. */
  lemma NormalisedClean(s: string)
    ensures Clean(Normalised(s))
  {
    CleanResults();
  }

  /** The normalisation changes exactly the text that holds a placeholder. */
  lemma NormalisedFixed(s: string)
    ensures Normalised(s) == s <==> Clean(s)
  {
    CleanResults();
  }

  /** Normalising twice is normalising once. */
  lemma NormalisedIdempotent(s: string)
    ensures Normalised(Normalised(s)) == Normalised(s)
  {
    NormalisedClean(s);
    NormalisedFixed(Normalised(s));
  }

  // ---------------------------------------------------------------------
  // numbers: `str()` writes them before the replacements

  /** The text `str()` writes for a number holds a '-' followed by a digit
      when the number is negative, and also when it is positive but below
      0.0001, which Python writes with a negative exponent ("5e-05"). */
  predicate WrittenWithMinusDigit(v: real) {
    v < 0.0 || (0.0 < v < 0.0001)
  }

  /** What the replacements do to a number, as written: the `-\d+` pattern
      zeroes negative readings and tiny positive ones alike. */
  function NumberAsWritten(v: real): (r: real)
    ensures WrittenWithMinusDigit(v) ==> r == 0.0
    ensures !WrittenWithMinusDigit(v) ==> r == v
  {
    if WrittenWithMinusDigit(v) then 0.0 else v
  }

  /** What the `-\d+` patterns evidently aim at: negative readings become
      0, every other number is kept. */
  function NumberIntended(v: real): (r: real)
    ensures r >= 0.0
    ensures v >= 0.0 ==> r == v
  {
    if v < 0.0 then 0.0 else v
  }

  /** A positive reading below 0.0001 is zeroed as written, and kept by the
      intended rule. */
  lemma TinyReadingZeroed()
    ensures NumberAsWritten(0.00005) == 0.0
    ensures NumberIntended(0.00005) == 0.00005
  {
  }

  /** The two rules differ exactly on the tiny positive readings. */
  lemma NumberRulesDiffer(v: real)
    ensures NumberAsWritten(v) != NumberIntended(v) <==> 0.0 < v < 0.0001
  {
  }

  /** One cell as the loader cleans it, with the intended rule for numbers:
      `applymap(str)`, strip, the replacements, then `applymap(str)` again,
      so that a whole number ends as its text. */
  function IodpCell(x: Cell): (r: Cell)
    ensures r != Missing
  {
    match x
    case Missing => Str(Normalised("nan"))
    case Str(s) => Str(Normalised(Text.Strip(s)))
    case Num(v) => Textual(Num(NumberIntended(v)))
  }

  /** The cell as written, with the as-written rule for numbers. */
  function IodpCellAsWritten(x: Cell): (r: Cell)
    ensures !x.Num? ==> r == IodpCell(x)
  {
    match x
    case Num(v) => Textual(Num(NumberAsWritten(v)))
    case _ => IodpCell(x)
  }

  /** No token and no unreadable marker starts with a digit. */
  lemma TokensStartOff()
    ensures forall t | t in BelowTokens :: |t| > 0 && !Text.IsDigit(t[0])
    ensures forall t | t in Unreadable :: |t| > 0 && !Text.IsDigit(t[0])
  {
  }

  /** The text of a whole number that is not negative is clean. */
  lemma WholeTextClean(n: nat)
    ensures Clean(Text.IntText(n))
  {
    var s := Text.IntText(n);
    WholeNumberMarks(n);
    Text.IntTextEnds(n);
    TokensStartOff();
    assert Text.IsDigit(s[0]) && s[0] != '-';
    assert s !in BelowTokens && s !in Unreadable;
  }

  /** A whole number is cleaned exactly as its text: the number the rule
      gives is written in digits, and a negative one becomes the text "0"
      the `-\d+` pattern gives its text. */
  lemma IodpCellWhole(n: int)
    ensures IodpCell(Num(n as real)).Str?
    ensures IodpCell(Num(n as real)) == IodpCell(Str(Text.IntText(n)))
  {
    var s := Text.IntText(n);
    Text.WhitespacePlain();
    Text.IntTextUnstripped(n, Text.Whitespace);
    WholeNumberMarks(n);
    Text.IntTextEnds(n);
    if n < 0 {
      assert (0.0).Floor == 0;
      assert Text.IntText(0) == "0";
      assert s[0] == '-';
      assert s != "320(321)";
      forall t | t in BelowTokens
        ensures s != t
      {
        assert t[0] != '-';
      }
    } else {
      assert (n as real).Floor == n;
      WholeTextClean(n);
    }
  }

  /** A cleaned cell holds no placeholder and no negative number. */
  lemma IodpCellClean(x: Cell)
    ensures IodpCell(x).Str? ==> Clean(IodpCell(x).s)
    ensures IodpCell(x).Num? ==> IodpCell(x).x >= 0.0
  {
    if x.Str? {
      NormalisedClean(Text.Strip(x.s));
    } else if x.Missing? {
      NormalisedClean("nan");
    } else {
      var v := NumberIntended(x.x);
      if v.Floor as real == v {
        WholeTextClean(v.Floor);
      }
    }
  }

  /** Cleaning a cleaned cell changes nothing. */
  lemma IodpCellIdempotent(x: Cell)
    ensures IodpCell(IodpCell(x)) == IodpCell(x)
  {
    IodpCellClean(x);
    var y := IodpCell(x);
    if y.Str? {
      StripNormalised(x);
      NormalisedFixed(y.s);
    }
  }

  /** The text of a cleaned cell has no surrounding whitespace. */
  lemma StripNormalised(x: Cell)
    requires IodpCell(x).Str?
    ensures Text.Strip(IodpCell(x).s) == IodpCell(x).s
  {
    Text.WhitespacePlain();
    Text.StripKeeps("321");
    Text.StripKeeps("0");
    Text.StripKeeps("nan");
    if x.Str? {
      Text.StripCharsIdempotent(x.s, Text.Whitespace);
    } else if x.Num? {
      var n := NumberIntended(x.x).Floor;
      Text.IntTextUnstripped(n, Text.Whitespace);
    }
  }

  // ---------------------------------------------------------------------
  // the cleaned file, its samples and its data columns

  function IodpFrame(raw: Frame): (f: Frame)
    ensures f.columns == raw.columns && |f.rows| == |raw.rows|
  {
    MapCells(raw, IodpCell)
  }

  /** The first thirteen columns identify a sample. */
  function IdColumns(cols: seq<string>): (ids: seq<string>)
    ensures |ids| == if |cols| < 13 then |cols| else 13
    ensures forall p | 0 <= p < |ids| :: ids[p] == cols[p]
  {
    if |cols| < 13 then cols else cols[..13]
  }

  /** `columns[13:-6]` after the merge appended `sample_key`: the columns
      between the identifiers and the last five. */
  function DataColumns(cols: seq<string>): (data: seq<string>)
    ensures |data| == if |cols| > 18 then |cols| - 18 else 0
    ensures forall t | 0 <= t < |data| :: data[t] == cols[13 + t]
  {
    if |cols| > 18 then cols[13..|cols| - 5] else []
  }

  /** Row `r`'s identifying cells. */
  function IdTuple(cols: seq<string>, r: Row): (t: Row)
    ensures |t| == |IdColumns(cols)| && forall p | 0 <= p < |t| :: t[p] == At(r, p)
  {
    seq(|IdColumns(cols)|, p requires 0 <= p < |IdColumns(cols)| => At(r, p))
  }

  function IodpTuples(f: Frame): (ts: seq<Row>)
    ensures |ts| == |f.rows| && forall i | 0 <= i < |f.rows| :: ts[i] == IdTuple(f.columns, f.rows[i])
  {
    Map((r: Row) => IdTuple(f.columns, r), f.rows)
  }

  /** `iodp_unique`: the distinct identifying tuples, numbered by first
      occurrence. */
  function IodpSamples(f: Frame): seq<Row> {
    Distinct(IodpTuples(f))
  }

  function IodpKeys(f: Frame): (keys: seq<nat>)
    ensures |keys| == |f.rows| && forall i | 0 <= i < |keys| :: keys[i] < |IodpSamples(f)|
  {
    SampleKeys(IodpTuples(f))
  }

  /** `.str.split('[,](?!\s)')` on a cell. */
  function SplitComma(x: Cell): (ps: seq<Cell>)
    ensures |ps| >= 1
  {
    if x.Str? then Map((t: string) => Str(t), Text.SplitCommas(x.s)) else [x]
  }

  function WideHeader(data: seq<string>): seq<string> {
    ["sample_key", "rep_key"] + data
  }

  /** `iodp_data_std`: the outer merge of the split data columns. */
  function IodpWide(f: Frame): (w: Frame)
    ensures w.columns == WideHeader(DataColumns(f.columns))
    ensures |w.rows| == |IodpRowKeys(f)|
  {
    var data := DataColumns(f.columns);
    SplitWide(f, IodpKeys(f), data, SplitComma, [], IodpSamples(f), WideHeader(data))
  }

  /** The key grid of the merged rows. */
  function IodpRowKeys(f: Frame): (keys: seq<(nat, nat)>)
    ensures forall k | 0 <= k < |keys| :: keys[k].0 < |IodpSamples(f)|
  {
    var data := DataColumns(f.columns);
    MergedKeysBounded(SplitReadings(f, IodpKeys(f), data, SplitComma), |IodpSamples(f)|,
      Longest(SplitTables(f, IodpKeys(f), data, SplitComma)));
    SplitKeys(f, IodpKeys(f), data, SplitComma, |IodpSamples(f)|)
  }

  // ---------------------------------------------------------------------
  // numbers, units and canonical analytes

  function PerThousand(x: Cell): Result<Cell> {
    ParseScale(x, 0.001)
  }

  function ByThousand(x: Cell): Result<Cell> {
    ParseScale(x, 1000.0)
  }

  /** The micromolar aluminium and ammonium columns. */
  const PerThousandColumns: seq<string> :=
    ["Al (uM) 309.3 nm ICPAES", "Ammonium (\U{C2}\U{B5}M) SPEC", "AMMONIUM (\U{C2}\U{B5}M) SPEC",
     "ammonium (\U{C2}\U{B5}M) SPEC"]

  /** The millimolar nitrate, nitrite, phosphate and silica columns. */
  const ByThousandColumns: seq<string> :=
    ["NITRATE_CD (mM) DA", "NITRATE_LOW (mM) DA", "NITRITES_TEST (mM) DA", "PHOSPHATE (mM) DA",
     "Phosphate (mM) DA", "SILICA (mM) DA", "Silica (mM) DA", "SILICAPD (mM) DA"]

  function ConversionsOf(cols: seq<string>, g: Cell -> Result<Cell>): (cs: seq<Conversion>)
    ensures |cs| == |cols| && forall k | 0 <= k < |cols| :: cs[k] == Conversion(cols[k], g)
  {
    seq(|cols|, k requires 0 <= k < |cols| => Conversion(cols[k], g))
  }

  /** The conversions in the order the loader writes them. */
  const IodpConversions: seq<Conversion> :=
    ConversionsOf(PerThousandColumns, PerThousand) + ConversionsOf(ByThousandColumns, ByThousand)

  /** The canonical name of each column of the merged table, by position. */
  const IodpAssign: seq<string> :=
    ["sample_key_temp", "0", "rep_key_temp", "0", "Al", "alkalinity", "NH4", "NH4", "NH4", "NH4",
     "NH4", "0", "B", "B", "B", "B", "B", "B", "B", "Ba", "Ba", "Ba", "Ba", "Ba", "Ba", "Ba", "Ba",
     "Ba", "Ba", "Br", "Br", "Ca", "Ca", "Ca", "Ca", "Ca", "Ca", "Ca", "Ca", "Ca_ic", "Ca_ic",
     "Cl_ic", "Cl_ic", "Cl", "Cl_ic", "Cs", "DIC", "Fe", "Fe", "Fe", "Fe", "Fe", "Fe", "0", "K",
     "K", "K", "K", "Li", "Li", "Li", "Li", "Li", "Mg_ic", "Mg_ic", "Mg", "Mg", "Mg", "Mg", "Mg",
     "Mg", "Mn", "Mn", "Mn", "Mn", "Mn", "Mn", "Mo", "Na_ic", "Na", "Na", "Na", "Na", "Na", "NO3",
     "NO3_NO2", "NO3", "NO3", "0", "0", "PO4", "PO4", "PO4", "PO4", "K_ic", "K_ic", "Rb", "S", "S",
     "salinity", "Si", "Si", "Si", "Si", "Si", "Si", "Si_spec", "Si_spec", "Si_spec", "Si_spec",
     "0", "0", "Na_ic", "Na_ic", "Sr", "Sr", "Sr", "Sr", "Sr", "Sr", "SO4", "SO4", "sulfide",
     "sulfide", "0", "0", "U", "V"]

  /** The numeric table, converted and averaged into canonical columns. */
  function IodpReduced(w: Frame): (r: Result<Frame>)
    ensures r.Success? ==> |r.value.rows| == |w.rows|
  {
    var numbers :- ReadCells(w);
    var analytes :- ConvertColumns(numbers, IodpConversions);
    Success(Grouped(analytes, IodpAssign, MeanPresent))
  }

  // ---------------------------------------------------------------------
  // sample depth

  const TopName := "Top depth CSF-A (m)"
  const BottomName := "Bottom depth CSF-A (m)"

  /** `iodp_unique[name].astype(float)`: a KeyError when the identifiers do
      not include the column, a ValueError when one of its cells is not a
      number. */
  function DepthColumn(ids: seq<string>, samples: seq<Row>, name: string): (r: Result<seq<Cell>>)
    ensures r.Success? ==> |r.value| == |samples| && forall s | 0 <= s < |samples| :: !r.value[s].Str?
  {
    match Find(ids, name)
    case None => Failure("KeyError: " + name)
    case Some(p) =>
      if forall s | 0 <= s < |samples| :: ReadFloat(At(samples[s], p)).Success? then
        Success(seq(|samples|, s requires 0 <= s < |samples| => ReadFloat(At(samples[s], p)).value))
      else Failure("ValueError: could not convert string to float")
  }

  /** The depth of every sample: the average of its top and bottom depths,
      missing when either is. The columns are read inside the loop, so a
      table without samples reads neither. */
  function SampleDepths(ids: seq<string>, samples: seq<Row>): (r: Result<seq<Cell>>)
    ensures r.Success? ==> |r.value| == |samples|
  {
    if |samples| == 0 then Success([])
    else
      var tops :- DepthColumn(ids, samples, TopName);
      var bottoms :- DepthColumn(ids, samples, BottomName);
      Success(seq(|samples|, s requires 0 <= s < |samples| => Chikyu.Midpoint(tops[s], bottoms[s]).value))
  }

  /** The loop that fills `sample_depth` sample by sample. */
  method FillSampleDepths(ids: seq<string>, samples: seq<Row>) returns (r: Result<seq<Cell>>)
    ensures r == SampleDepths(ids, samples)
  {
    var depths: seq<Cell> := [];
    var x := 0;
    while x < |samples|
      invariant x <= |samples| && |depths| == x
      invariant x > 0 ==> DepthColumn(ids, samples, TopName).Success? && DepthColumn(ids, samples, BottomName).Success?
      invariant forall s | 0 <= s < x ::
        depths[s] == Chikyu.Midpoint(DepthColumn(ids, samples, TopName).value[s], DepthColumn(ids, samples, BottomName).value[s]).value
    {
      var tops :- DepthColumn(ids, samples, TopName);
      var bottoms :- DepthColumn(ids, samples, BottomName);
      depths := depths + [Chikyu.Midpoint(tops[x], bottoms[x]).value];
      x := x + 1;
    }
    r := Success(depths);
    if |samples| > 0 {
      var tops, bottoms := DepthColumn(ids, samples, TopName).value, DepthColumn(ids, samples, BottomName).value;
      assert depths == seq(|samples|, s requires 0 <= s < |samples| => Chikyu.Midpoint(tops[s], bottoms[s]).value);
    }
  }

  // ---------------------------------------------------------------------
  // the final table

  const StdLabels: seq<string> := ["leg", "site", "hole", "core", "type", "section", "aw", "top", "bottom"]

  const IodpAnalytes: seq<string> :=
    ["Al", "alkalinity", "NH4", "B", "Ba", "Br", "Ca", "Ca_ic", "Cl_ic", "Cl", "Cs", "DIC", "Fe", "K",
     "Li", "Mg_ic", "Mg", "Mn", "Mo", "Na", "Na_ic", "NO3", "NO3_NO2", "K_ic", "PO4", "Rb", "S",
     "salinity", "Si", "Si_spec", "Sr", "SO4", "sulfide", "U", "V"]

  const IodpFinalHeader: seq<string> :=
    ["sample_key", "rep_key"] + StdLabels + ["sample_depth"] + IodpAnalytes + ["proceedings_label", "Comments"]

  /** The comment cells of sample `s`, from the sample's first row. */
  function CommentCells(f: Frame, s: nat): (cs: Row)
    ensures |cs| == 2
  {
    var tuples := IodpTuples(f);
    var samples := IodpSamples(f);
    if s < |samples| && samples[s] in tuples then
      var n := IndexOf(tuples, samples[s]);
      [Get(f, n, "Proceedings label"), Get(f, n, "Comments")]
    else [Missing, Missing]
  }

  /** The first nine identifying cells, renamed to the standard labels. */
  function LabelCells(sample: Row): (cs: Row)
    ensures |cs| == |StdLabels| && forall p | 0 <= p < |cs| :: cs[p] == At(sample, p)
  {
    seq(|StdLabels|, p requires 0 <= p < |StdLabels| => At(sample, p))
  }

  /** A final row: the keys as text (`applymap(str)` on the sample table,
      `.map(int).map(str)` on the replicate numbers), the sample's labels and
      depth, the averaged analytes and the sample's comments. */
  function FinalRow(key: (nat, nat), sample: Row, depth: Cell, analytes: Row, comments: Row): (row: Row)
    ensures |row| == 3 + |StdLabels| + |analytes| + |comments|
    ensures row[0] == Textual(KeyCell(key.0)) && row[1] == Textual(KeyCell(key.1))
    ensures forall p | 0 <= p < |StdLabels| :: row[2 + p] == At(sample, p)
    ensures row[2 + |StdLabels|] == depth
    ensures forall a | 0 <= a < |analytes| :: row[3 + |StdLabels| + a] == analytes[a]
    ensures forall m | 0 <= m < |comments| :: row[3 + |StdLabels| + |analytes| + m] == comments[m]
  {
    [Textual(KeyCell(key.0)), Textual(KeyCell(key.1))] + LabelCells(sample) + [depth] + analytes + comments
  }

  /** The final row of merged row `k`. */
  function MergedFinalRow(f: Frame, reduced: Frame, depths: seq<Cell>, k: nat): Row
    requires k < |IodpRowKeys(f)| == |reduced.rows|
  {
    var key := IodpRowKeys(f)[k];
    var samples := IodpSamples(f);
    FinalRow(key, if key.0 < |samples| then samples[key.0] else [], At(depths, key.0),
      AnalyteCells(reduced, k), CommentCells(f, key.0))
  }

  /** Row `k`'s cells in the canonical analyte columns. */
  function AnalyteCells(reduced: Frame, k: nat): (cs: Row)
    requires k < |reduced.rows|
    ensures |cs| == |IodpAnalytes| && forall a | 0 <= a < |cs| :: cs[a] == Get(reduced, k, IodpAnalytes[a])
  {
    seq(|IodpAnalytes|, a requires 0 <= a < |IodpAnalytes| => Get(reduced, k, IodpAnalytes[a]))
  }

  /** The samples no merged row carries, which the outer merge with the
      comments brings back with nothing but their key and comments. */
  function Unmatched(f: Frame): seq<nat> {
    var keys := IodpRowKeys(f);
    Filter((s: nat) => forall k | 0 <= k < |keys| :: keys[k].0 != s, Indices(|IodpSamples(f)|))
  }

  function CommentOnlyRow(f: Frame, s: nat): Row {
    [Textual(KeyCell(s))] + seq(3 + |StdLabels| + |IodpAnalytes| - 1, _ => Missing) + CommentCells(f, s)
  }

  function IodpFinal(f: Frame, reduced: Frame, depths: seq<Cell>): (g: Frame)
    requires |reduced.rows| == |IodpRowKeys(f)|
    ensures g.columns == IodpFinalHeader
    ensures |g.rows| == |IodpRowKeys(f)| + |Unmatched(f)|
  {
    var keys := IodpRowKeys(f);
    Frame(IodpFinalHeader,
      seq(|keys|, k requires 0 <= k < |keys| => MergedFinalRow(f, reduced, depths, k))
      + Map((s: nat) => CommentOnlyRow(f, s), Unmatched(f)))
  }

  function LoadIodpIw(raw: Frame): (r: Result<Frame>)
    ensures r.Success? ==> r.value.columns == IodpFinalHeader
    ensures r.Success? ==> |r.value.rows| >= |IodpRowKeys(IodpFrame(raw))|
  {
    var f := IodpFrame(raw);
    var reduced :- IodpReduced(IodpWide(f));
    var depths :- SampleDepths(IdColumns(f.columns), IodpSamples(f));
    IodpAssemble(f, reduced, depths)
  }

  /** The label rename, the joins on `sample_key` and the final column
      selection: a KeyError when a column they name is absent. */
  function IodpAssemble(f: Frame, reduced: Frame, depths: seq<Cell>): (r: Result<Frame>)
    requires |reduced.rows| == |IodpRowKeys(f)|
    ensures r.Success? <==> (|IdColumns(f.columns)| >= |StdLabels| && "Proceedings label" in f.columns &&
      "Comments" in f.columns && forall a | 0 <= a < |IodpAnalytes| :: IodpAnalytes[a] in reduced.columns)
    ensures r.Success? ==> r.value == IodpFinal(f, reduced, depths)
  {
    if |IdColumns(f.columns)| < |StdLabels| then Failure("KeyError: label column")
    else if "Proceedings label" !in f.columns || "Comments" !in f.columns then Failure("KeyError: comment column")
    else if exists a | 0 <= a < |IodpAnalytes| :: IodpAnalytes[a] !in reduced.columns then Failure("KeyError: analyte column")
    else Success(IodpFinal(f, reduced, depths))
  }

  // ---------------------------------------------------------------------
  // the split and merged data

  /** A header `read_csv` can produce: no name twice, and neither key name
      among the file's own columns. */
  predicate PlainHeader(cols: seq<string>) {
    NoDup(cols) && "sample_key" !in cols && "rep_key" !in cols
  }

  lemma DataColumnsPlain(cols: seq<string>)
    requires PlainHeader(cols)
    ensures NoDup(DataColumns(cols))
    ensures forall t | 0 <= t < |DataColumns(cols)| :: DataColumns(cols)[t] != "sample_key" && DataColumns(cols)[t] != "rep_key"
  {
    var data := DataColumns(cols);
    forall t | 0 <= t < |data| ensures data[t] in cols {
      assert data[t] == cols[13 + t];
    }
  }

  /** The `j`-th comma-separated piece of row `n`'s cell in data column `t`
      lands on the merged row of that sample (and of replicate `j + 1` when
      no other row has the same identifiers), in the column's own name. */
  lemma IodpWideField(f: Frame, t: nat, n: nat, j: nat) returns (k: nat)
    requires PlainHeader(f.columns)
    requires t < |DataColumns(f.columns)| && n < |f.rows|
    requires j < |SplitComma(Get(f, n, DataColumns(f.columns)[t]))|
    ensures var w := IodpWide(f); var keys := IodpKeys(f); var c := DataColumns(f.columns)[t];
      k < |w.rows| && Get(w, k, "sample_key") == KeyCell(keys[n]) &&
      Get(w, k, c) == SplitComma(Get(f, n, c))[j] &&
      ((forall i | 0 <= i < |keys| && i != n :: keys[i] != keys[n]) ==> Get(w, k, "rep_key") == KeyCell(j + 1))
  {
    var data := DataColumns(f.columns);
    DataColumnsPlain(f.columns);
    k := SplitField(f, IodpKeys(f), data, SplitComma, [], IodpSamples(f), WideHeader(data), t, n, j);
  }

  /** The merged rows are the keys of the split columns, in key order: a
      sample has a row for replicate `r` exactly when one of its data cells
      splits into at least `r` pieces. */
  lemma IodpWideRows(f: Frame, k: nat, s: nat, r: nat)
    ensures var w := IodpWide(f); var keys := IodpRowKeys(f);
      Ascending(keys) &&
      (k < |keys| ==> Get(w, k, "sample_key") == KeyCell(keys[k].0) && Get(w, k, "rep_key") == KeyCell(keys[k].1)) &&
      ((s, r) in keys <==> exists t | 0 <= t < |DataColumns(f.columns)| ::
        1 <= r <= PieceCount(IodpKeys(f), ColumnPieces(f, DataColumns(f.columns)[t], SplitComma), s))
  {
    var data := DataColumns(f.columns);
    var keys := IodpRowKeys(f);
    assert Ascending(keys) && ((s, r) in keys <==> exists t | 0 <= t < |data| ::
        1 <= r <= PieceCount(IodpKeys(f), ColumnPieces(f, data[t], SplitComma), s)) by {
      SplitRows(f, IodpKeys(f), data, SplitComma, |IodpSamples(f)|, s, r);
    }
    if k < |keys| {
      SplitWideKeys(f, IodpKeys(f), data, SplitComma, [], IodpSamples(f), WideHeader(data), k);
    }
  }

  // ---------------------------------------------------------------------
  // reading, converting and averaging

  /** The converted table of a successful reduction. */
  function IodpAnalyteTable(w: Frame): Frame
    requires IodpReduced(w).Success?
  {
    ConvertColumns(ReadCells(w).value, IodpConversions).value
  }

  /** Each converted cell is the merged cell read as a number and put
      through the conversion its column has. */
  lemma IodpAnalyteGet(w: Frame, i: nat, c: string)
    requires IodpReduced(w).Success? && i < |w.rows| && c in w.columns
    ensures Converted(IodpConversions, c, ReadFloat(Get(w, i, c)).value).Success?
    ensures Get(IodpAnalyteTable(w), i, c) == Converted(IodpConversions, c, ReadFloat(Get(w, i, c)).value).value
  {
    ReadCellsGet(w, i, c);
    ConvertColumnsGet(ReadCells(w).value, IodpConversions, i, c);
  }

  /** Each canonical analyte is the mean of the numbers among the converted
      cells of the columns assigned to it, position by position. */
  lemma IodpReducedGet(w: Frame, i: nat, a: string)
    requires IodpReduced(w).Success? && i < |w.rows| && a in IodpReduced(w).value.columns
    ensures var t := IodpAnalyteTable(w);
      Get(IodpReduced(w).value, i, a) == MeanPresent(GroupCells(t.columns, ZipMap(t.columns, IodpAssign), t.rows[i], a))
  {
    GroupedGet(IodpAnalyteTable(w), IodpAssign, MeanPresent, i, a);
  }

  lemma ScaledColumnsDistinct()
    ensures NoDup(PerThousandColumns + ByThousandColumns)
  {
  }

  /** The micromolar aluminium and ammonium columns are divided by 1000, the
      millimolar nitrate, nitrite, phosphate and silica columns multiplied
      by 1000; no other column changes. */
  lemma IodpConverted(c: string, x: Cell)
    ensures c in PerThousandColumns ==> Converted(IodpConversions, c, x) == ParseScale(x, 0.001)
    ensures c in ByThousandColumns ==> Converted(IodpConversions, c, x) == ParseScale(x, 1000.0)
    ensures c !in PerThousandColumns && c !in ByThousandColumns ==> Converted(IodpConversions, c, x) == Success(x)
  {
    var C := IodpConversions;
    var names := PerThousandColumns + ByThousandColumns;
    assert forall k | 0 <= k < |C| :: C[k].column == names[k];
    if c in names {
      ScaledColumnsDistinct();
      var k := IndexOf(names, c);
      ConvertedOnly(C, k, c, x);
    } else {
      ConvertedUnlisted(C, c, x);
    }
  }

  // ---------------------------------------------------------------------
  // sample depths

  /** A sample's depth is the midpoint of its top and bottom depths when
      both are numbers, and missing otherwise. */
  lemma SampleDepthAt(ids: seq<string>, samples: seq<Row>, s: nat)
    requires SampleDepths(ids, samples).Success? && s < |samples|
    ensures Find(ids, TopName).Some? && Find(ids, BottomName).Some?
    ensures var top := ReadFloat(At(samples[s], Find(ids, TopName).value));
      var bottom := ReadFloat(At(samples[s], Find(ids, BottomName).value));
      var d := SampleDepths(ids, samples).value[s];
      top.Success? && bottom.Success? &&
      (d.Num? <==> top.value.Num? && bottom.value.Num?) &&
      (d.Num? ==> (2.0 * d.x == top.value.x + bottom.value.x &&
        (top.value.x <= d.x <= bottom.value.x || bottom.value.x <= d.x <= top.value.x)))
  {
  }

  // ---------------------------------------------------------------------
  // what the loaded table holds

  /** The stages of a successful load. */
  lemma IodpLoaded(raw: Frame)
    requires LoadIodpIw(raw).Success?
    ensures var f := IodpFrame(raw);
      IodpReduced(IodpWide(f)).Success? && SampleDepths(IdColumns(f.columns), IodpSamples(f)).Success? &&
      |IdColumns(f.columns)| >= |StdLabels| && "Proceedings label" in f.columns && "Comments" in f.columns &&
      (forall a | 0 <= a < |IodpAnalytes| :: IodpAnalytes[a] in IodpReduced(IodpWide(f)).value.columns) &&
      LoadIodpIw(raw).value == IodpFinal(f, IodpReduced(IodpWide(f)).value, SampleDepths(IdColumns(f.columns), IodpSamples(f)).value)
  {
    var f := IodpFrame(raw);
    var reduced := IodpReduced(IodpWide(f));
    assert reduced.Success?;
    var depths := SampleDepths(IdColumns(f.columns), IodpSamples(f));
    assert depths.Success?;
    assert LoadIodpIw(raw) == IodpAssemble(f, reduced.value, depths.value);
  }

  /** Row `k` of the final table, cell by cell. */
  lemma FinalRowAt(f: Frame, reduced: Frame, depths: seq<Cell>, k: nat)
    requires |reduced.rows| == |IodpRowKeys(f)| && k < |IodpRowKeys(f)|
    ensures var row := IodpFinal(f, reduced, depths).rows[k]; var key := IodpRowKeys(f)[k];
      var samples := IodpSamples(f); var sample := if key.0 < |samples| then samples[key.0] else [];
      At(row, 0) == Textual(KeyCell(key.0)) && At(row, 1) == Textual(KeyCell(key.1)) &&
      (forall p | 0 <= p < |StdLabels| :: At(row, 2 + p) == At(sample, p)) &&
      At(row, 11) == At(depths, key.0) &&
      (forall a | 0 <= a < |IodpAnalytes| :: At(row, 12 + a) == Get(reduced, k, IodpAnalytes[a])) &&
      At(row, 47) == CommentCells(f, key.0)[0] && At(row, 48) == CommentCells(f, key.0)[1]
  {
    var row := IodpFinal(f, reduced, depths).rows[k];
    assert row == MergedFinalRow(f, reduced, depths, k);
    assert |StdLabels| == 9 && |IodpAnalytes| == 35;
  }

  /** The final header, position by position. */
  lemma FinalHeaderAt()
    ensures |IodpFinalHeader| == 49
    ensures IodpFinalHeader[0] == "sample_key" && IodpFinalHeader[1] == "rep_key"
    ensures forall p | 0 <= p < |StdLabels| :: IodpFinalHeader[2 + p] == StdLabels[p]
    ensures IodpFinalHeader[11] == "sample_depth"
    ensures forall a | 0 <= a < |IodpAnalytes| :: IodpFinalHeader[12 + a] == IodpAnalytes[a]
    ensures IodpFinalHeader[47] == "proceedings_label" && IodpFinalHeader[48] == "Comments"
  {
  }

  /** Every merged row of a loaded table carries its keys, the standard
      labels of its file row, the analyte means and the sample's depth. */
  lemma IodpLoadedLabel(raw: Frame, k: nat, n: nat, p: nat)
    requires LoadIodpIw(raw).Success? && k < |IodpRowKeys(IodpFrame(raw))| && n < |raw.rows| && p < |StdLabels|
    requires IodpRowKeys(IodpFrame(raw))[k].0 == IodpKeys(IodpFrame(raw))[n]
    ensures var row := LoadIodpIw(raw).value.rows[k];
      At(row, 0) == Textual(KeyCell(IodpKeys(IodpFrame(raw))[n])) && At(row, 1) == Textual(KeyCell(IodpRowKeys(IodpFrame(raw))[k].1)) &&
      At(row, 2 + p) == IodpCell(At(raw.rows[n], p))
  {
    IodpLoaded(raw);
    var f := IodpFrame(raw);
    var reduced := IodpReduced(IodpWide(f)).value;
    var depths := SampleDepths(IdColumns(f.columns), IodpSamples(f)).value;
    FinalRowAt(f, reduced, depths, k);
    var samples := IodpSamples(f);
    var key := IodpKeys(f)[n];
    assert samples[key] == IodpTuples(f)[n] == IdTuple(f.columns, f.rows[n]);
    assert At(samples[key], p) == At(f.rows[n], p);
    MapCellsAt(raw, IodpCell, n, p);
  }

  /** A merged row's analyte is the mean of the numbers its assigned
      columns hold, read and converted. */
  lemma IodpLoadedAnalyte(raw: Frame, k: nat, a: nat)
    requires LoadIodpIw(raw).Success? && k < |IodpRowKeys(IodpFrame(raw))| && a < |IodpAnalytes|
    ensures var w := IodpWide(IodpFrame(raw)); var t := IodpAnalyteTable(w);
      At(LoadIodpIw(raw).value.rows[k], 12 + a) ==
      MeanPresent(GroupCells(t.columns, ZipMap(t.columns, IodpAssign), t.rows[k], IodpAnalytes[a]))
  {
    IodpLoaded(raw);
    var f := IodpFrame(raw);
    var w := IodpWide(f);
    var reduced := IodpReduced(w).value;
    var depths := SampleDepths(IdColumns(f.columns), IodpSamples(f)).value;
    FinalRowAt(f, reduced, depths, k);
    IodpReducedGet(w, k, IodpAnalytes[a]);
  }

  /** A merged row's depth is the midpoint of its sample's top and bottom
      depths, and missing when either is. */
  lemma IodpLoadedDepth(raw: Frame, k: nat)
    requires LoadIodpIw(raw).Success? && k < |IodpRowKeys(IodpFrame(raw))|
    ensures var f := IodpFrame(raw); var ids := IdColumns(f.columns); var s := IodpRowKeys(f)[k].0;
      var samples := IodpSamples(f); var d := At(LoadIodpIw(raw).value.rows[k], 11);
      s < |samples| && Find(ids, TopName).Some? && Find(ids, BottomName).Some? &&
      var top := ReadFloat(At(samples[s], Find(ids, TopName).value));
      var bottom := ReadFloat(At(samples[s], Find(ids, BottomName).value));
      top.Success? && bottom.Success? &&
      (d.Num? <==> top.value.Num? && bottom.value.Num?) &&
      (d.Num? ==> 2.0 * d.x == top.value.x + bottom.value.x)
  {
    IodpLoaded(raw);
    var f := IodpFrame(raw);
    var reduced := IodpReduced(IodpWide(f)).value;
    var ids := IdColumns(f.columns);
    var depths := SampleDepths(ids, IodpSamples(f)).value;
    FinalRowAt(f, reduced, depths, k);
    var s := IodpRowKeys(f)[k].0;
    SampleDepthAt(ids, IodpSamples(f), s);
  }
}
