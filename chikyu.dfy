/** What the Chikyu loaders share. A Chikyu data file does not say which
    hole it comes from: the loaders read the expedition summary, split each
    HOLENAME into site and hole, and search the file's text columns for the
    hole names. Analyte columns are recognised by substrings of their
    headers. */
module Chikyu {
  import opened Wrappers
  import opened Seqs
  import opened Frames
  import Text

  // ---------------------------------------------------------------------
  // the expedition summary

  /** One summary row: the expedition (EXPNAME) and the HOLENAME split into
      site and hole. */
  datatype HoleEntry = HoleEntry(leg: Cell, site: string, hole: string)

  /** `hole_id[:-1]` and `hole_id[-1]`: a HOLENAME that is not non-empty
      text raises (IndexError on '', TypeError on NaN or a number). */
  function SplitHoleName(name: Cell): (r: Result<(string, string)>)
    ensures r.Success? <==> name.Str? && |name.s| > 0
    ensures r.Success? ==> r.value.0 + r.value.1 == name.s && |r.value.1| == 1
  {
    if name.Str? && |name.s| > 0 then
      var s := name.s;
      assert s[..|s| - 1] + s[|s| - 1..] == s;
      Success((s[..|s| - 1], s[|s| - 1..]))
    else Failure("HOLENAME is not a hole name")
  }

  /** `summary['site'].map(str) + summary['hole']`. */
  function HoleId(e: HoleEntry): string {
    e.site + e.hole
  }

  function Entry(leg: Cell, name: Cell): Result<HoleEntry> {
    var parts :- SplitHoleName(name);
    Success(HoleEntry(leg, parts.0, parts.1))
  }

  /** The summary after `iloc[1:]`, `leg = EXPNAME` and the HOLENAME split:
      every row but the first, in order. */
  function SummaryEntries(summary: Frame): (r: Result<seq<HoleEntry>>)
    ensures r.Success? ==> |r.value| == if |summary.rows| == 0 then 0 else |summary.rows| - 1
  {
    if "EXPNAME" !in summary.columns || "HOLENAME" !in summary.columns then Failure("KeyError")
    else
      var body := if |summary.rows| == 0 then [] else summary.rows[1..];
      EntriesOf(summary.columns, body)
  }

  function EntriesOf(cols: seq<string>, rows: seq<Row>): (r: Result<seq<HoleEntry>>)
    ensures r.Success? ==> |r.value| == |rows|
  {
    if |rows| == 0 then Success([])
    else
      var init :- EntriesOf(cols, rows[..|rows| - 1]);
      var last := rows[|rows| - 1];
      var e :- Entry(Value(cols, last, "EXPNAME"), Value(cols, last, "HOLENAME"));
      Success(init + [e])
  }

  /** A summary entry names back its own HOLENAME: site + hole is the
      HOLENAME it was split from, and the hole is one character. */
  lemma HoleIdRoundTrip(summary: Frame, n: nat)
    requires SummaryEntries(summary).Success? && n < |SummaryEntries(summary).value|
    ensures var e := SummaryEntries(summary).value[n];
      e.leg == Value(summary.columns, summary.rows[n + 1], "EXPNAME") &&
      Value(summary.columns, summary.rows[n + 1], "HOLENAME") == Str(HoleId(e)) &&
      |e.hole| == 1
  {
    EntriesOfAt(summary.columns, summary.rows[1..], n);
  }

  lemma {:induction false} EntriesOfAt(cols: seq<string>, rows: seq<Row>, n: nat)
    requires EntriesOf(cols, rows).Success? && n < |rows|
    ensures Entry(Value(cols, rows[n], "EXPNAME"), Value(cols, rows[n], "HOLENAME")).Success?
    ensures EntriesOf(cols, rows).value[n] ==
      Entry(Value(cols, rows[n], "EXPNAME"), Value(cols, rows[n], "HOLENAME")).value
  {
    if n < |rows| - 1 {
      EntriesOfAt(cols, rows[..|rows| - 1], n);
    }
  }

  /** The summary loop: every row after the first, its HOLENAME split into
      hole (last character) and site (the rest). */
  method ReadSummary(summary: Frame) returns (r: Result<seq<HoleEntry>>)
    ensures r == SummaryEntries(summary)
  {
    if "EXPNAME" !in summary.columns || "HOLENAME" !in summary.columns {
      return Failure("KeyError");
    }
    var body := if |summary.rows| == 0 then [] else summary.rows[1..];
    var entries := [];
    var n := 0;
    while n < |body|
      invariant n <= |body|
      invariant EntriesOf(summary.columns, body[..n]) == Success(entries)
    {
      assert body[..n + 1][..n] == body[..n];
      var e := Entry(Value(summary.columns, body[n], "EXPNAME"), Value(summary.columns, body[n], "HOLENAME"));
      if e.Failure? {
        EntriesOfFails(summary.columns, body, n + 1);
        assert body[..n + 1] == body[..n + 1];
        return Failure(e.error);
      }
      entries := entries + [e.value];
      n := n + 1;
    }
    assert body[..n] == body;
    r := Success(entries);
  }

  /** Once a prefix of the rows fails to split, the whole summary fails with
      the same error. */
  lemma {:induction false} EntriesOfFails(cols: seq<string>, rows: seq<Row>, n: nat)
    requires n <= |rows| && EntriesOf(cols, rows[..n]).Failure?
    ensures EntriesOf(cols, rows) == EntriesOf(cols, rows[..n])
    decreases |rows| - n
  {
    if n < |rows| {
      assert rows[..n + 1][..n] == rows[..n];
      EntriesOfFails(cols, rows, n + 1);
    } else {
      assert rows[..n] == rows;
    }
  }

  // ---------------------------------------------------------------------
  // finding the hole a file belongs to

  /** `df.select_dtypes(object)`: the columns that hold text, in order. */
  function ObjectColumns(f: Frame): (cols: seq<seq<Cell>>)
    ensures forall j | 0 <= j < |cols| :: IsObject(cols[j]) && |cols[j]| == |f.rows|
  {
    var keep := (k: nat) => IsObject(ColumnAt(f, k));
    var ks := Filter(keep, Indices(|f.columns|));
    FilterMembers(keep, Indices(|f.columns|));
    assert forall j | 0 <= j < |ks| :: ks[j] in ks;
    Map((k: nat) => ColumnAt(f, k), ks)
  }

  /** `col.str.contains(id).any()`: some text cell of the column contains
      the hole name. */
  predicate Mentions(col: seq<Cell>, id: string) {
    exists x | x in col :: x.Str? && Text.Contains(x.s, id)
  }

  /** The inner loop over summary rows: each row whose hole name the column
      mentions overwrites the current hole. */
  function ScanEntries(col: seq<Cell>, entries: seq<HoleEntry>, cur: Option<HoleEntry>): Option<HoleEntry> {
    if |entries| == 0 then cur
    else
      var before := ScanEntries(col, entries[..|entries| - 1], cur);
      var e := entries[|entries| - 1];
      if Mentions(col, HoleId(e)) then Some(e) else before
  }

  /** The outer loop over the file's text columns. */
  function ScanColumns(cols: seq<seq<Cell>>, entries: seq<HoleEntry>, cur: Option<HoleEntry>): Option<HoleEntry> {
    if |cols| == 0 then cur
    else ScanEntries(cols[|cols| - 1], entries, ScanColumns(cols[..|cols| - 1], entries, cur))
  }

  predicate Match(cols: seq<seq<Cell>>, entries: seq<HoleEntry>, c: nat, n: nat) {
    c < |cols| && n < |entries| && Mentions(cols[c], HoleId(entries[n]))
  }

  /** (c2, n2) comes after (c, n) in the search order: column by column,
      and summary row by summary row within a column. */
  predicate After(c2: nat, n2: nat, c: nat, n: nat) {
    c2 > c || (c2 == c && n2 > n)
  }

  lemma {:induction false} ScanEntriesNone(col: seq<Cell>, entries: seq<HoleEntry>, cur: Option<HoleEntry>, from: nat)
    requires forall n | from <= n < |entries| :: !Mentions(col, HoleId(entries[n]))
    requires from <= |entries|
    ensures ScanEntries(col, entries, cur) == ScanEntries(col, entries[..from], cur)
    decreases |entries|
  {
    if |entries| > from {
      ScanEntriesNone(col, entries[..|entries| - 1], cur, from);
      assert entries[..|entries| - 1][..from] == entries[..from];
    } else {
      assert entries[..from] == entries;
    }
  }

  lemma {:induction false} ScanEntriesLast(col: seq<Cell>, entries: seq<HoleEntry>, cur: Option<HoleEntry>, n: nat)
    requires n < |entries| && Mentions(col, HoleId(entries[n]))
    requires forall m | n < m < |entries| :: !Mentions(col, HoleId(entries[m]))
    ensures ScanEntries(col, entries, cur) == Some(entries[n])
  {
    ScanEntriesNone(col, entries, cur, n + 1);
    assert entries[..n + 1][..n] == entries[..n];
  }

  lemma {:induction false} ScanColumnsNone(cols: seq<seq<Cell>>, entries: seq<HoleEntry>, cur: Option<HoleEntry>, from: nat)
    requires from <= |cols|
    requires forall c: nat, n: nat | from <= c < |cols| && n < |entries| :: !Match(cols, entries, c, n)
    ensures ScanColumns(cols, entries, cur) == ScanColumns(cols[..from], entries, cur)
    decreases |cols|
  {
    if |cols| > from {
      var init := cols[..|cols| - 1];
      forall c: nat, n: nat | from <= c < |init| && n < |entries| ensures !Match(init, entries, c, n) {
        assert !Match(cols, entries, c, n);
      }
      ScanColumnsNone(init, entries, cur, from);
      assert init[..from] == cols[..from];
      assert forall n | 0 <= n < |entries| :: !Mentions(cols[|cols| - 1], HoleId(entries[n])) by {
        forall n | 0 <= n < |entries| ensures !Mentions(cols[|cols| - 1], HoleId(entries[n])) {
          assert !Match(cols, entries, |cols| - 1, n);
        }
      }
      ScanEntriesNone(cols[|cols| - 1], entries, ScanColumns(init, entries, cur), 0);
    } else {
      assert cols[..from] == cols;
    }
  }

  /** The search ends on the last match in search order; with no match at
      all the hole found in earlier files is kept. */
  lemma HoleSearchLastMatch(cols: seq<seq<Cell>>, entries: seq<HoleEntry>, cur: Option<HoleEntry>, c: nat, n: nat)
    requires Match(cols, entries, c, n)
    requires forall c2: nat, n2: nat | After(c2, n2, c, n) :: !Match(cols, entries, c2, n2)
    ensures ScanColumns(cols, entries, cur) == Some(entries[n])
  {
    forall c2: nat, n2: nat | c + 1 <= c2 < |cols| && n2 < |entries| ensures !Match(cols, entries, c2, n2) {
      assert After(c2, n2, c, n);
    }
    ScanColumnsNone(cols, entries, cur, c + 1);
    var init := cols[..c + 1];
    assert init[..c] == cols[..c];
    forall m | n < m < |entries| ensures !Mentions(cols[c], HoleId(entries[m])) {
      assert After(c, m, c, n);
      assert !Match(cols, entries, c, m);
    }
    ScanEntriesLast(cols[c], entries, ScanColumns(cols[..c], entries, cur), n);
  }

  lemma HoleSearchNoMatch(cols: seq<seq<Cell>>, entries: seq<HoleEntry>, cur: Option<HoleEntry>)
    requires forall c: nat, n: nat | c < |cols| && n < |entries| :: !Match(cols, entries, c, n)
    ensures ScanColumns(cols, entries, cur) == cur
  {
    ScanColumnsNone(cols, entries, cur, 0);
  }

  lemma {:induction false} ScanEntriesFrom(col: seq<Cell>, entries: seq<HoleEntry>, cur: Option<HoleEntry>)
    ensures var r := ScanEntries(col, entries, cur); r == cur || (r.Some? && r.value in entries)
  {
    if |entries| > 0 {
      ScanEntriesFrom(col, entries[..|entries| - 1], cur);
    }
  }

  /** The hole a search settles on is the one it started from or one of the
      summary's holes. */
  lemma {:induction false} ScanColumnsFrom(cols: seq<seq<Cell>>, entries: seq<HoleEntry>, cur: Option<HoleEntry>)
    ensures var r := ScanColumns(cols, entries, cur); r == cur || (r.Some? && r.value in entries)
  {
    if |cols| > 0 {
      ScanColumnsFrom(cols[..|cols| - 1], entries, cur);
      ScanEntriesFrom(cols[|cols| - 1], entries, ScanColumns(cols[..|cols| - 1], entries, cur));
    }
  }

  /** The nested search loop of one file: every text column, every summary
      row, the last match wins, and nothing is reset from the previous
      file. */
  method SearchHole(f: Frame, entries: seq<HoleEntry>, cur: Option<HoleEntry>) returns (found: Option<HoleEntry>)
    ensures found == ScanColumns(ObjectColumns(f), entries, cur)
  {
    var cols := ObjectColumns(f);
    found := cur;
    var c := 0;
    while c < |cols|
      invariant c <= |cols|
      invariant found == ScanColumns(cols[..c], entries, cur)
    {
      assert cols[..c + 1][..c] == cols[..c];
      var before := found;
      var n := 0;
      while n < |entries|
        invariant n <= |entries|
        invariant found == ScanEntries(cols[c], entries[..n], before)
      {
        assert entries[..n + 1][..n] == entries[..n];
        if Mentions(cols[c], HoleId(entries[n])) {
          found := Some(entries[n]);
        }
        n := n + 1;
      }
      assert entries[..n] == entries;
      c := c + 1;
    }
    assert cols[..c] == cols;
  }

  // ---------------------------------------------------------------------
  // renaming analyte columns by substring

  /** `if pattern in col: rename col to target`, one branch of an elif chain. */
  datatype Rule = Rule(pattern: string, target: string)

  /** The elif chain: the first rule whose pattern the header contains
      decides the new name; a header no rule matches keeps its name. */
  function RuleName(rules: seq<Rule>, col: string): string {
    if |rules| == 0 then col
    else if Text.Contains(col, rules[0].pattern) then rules[0].target
    else RuleName(rules[1..], col)
  }

  /** The rule that decides a header's name is the first one whose pattern
      the header contains; when there is none the header keeps its name. */
  lemma {:induction false} RuleNameFirst(rules: seq<Rule>, col: string) returns (i: nat)
    ensures i <= |rules|
    ensures forall j | 0 <= j < i :: !Text.Contains(col, rules[j].pattern)
    ensures i < |rules| ==> Text.Contains(col, rules[i].pattern) && RuleName(rules, col) == rules[i].target
    ensures i == |rules| ==> RuleName(rules, col) == col
  {
    if |rules| == 0 {
      i := 0;
    } else if Text.Contains(col, rules[0].pattern) {
      i := 0;
    } else {
      var k := RuleNameFirst(rules[1..], col);
      i := k + 1;
      forall j | 0 <= j < i
        ensures !Text.Contains(col, rules[j].pattern)
      {
        if j > 0 {
          assert rules[j] == rules[1..][j - 1];
        }
      }
    }
  }

  /** The rules leave every target name as it is, so a renamed header is
      not renamed again. */
  predicate Stable(rules: seq<Rule>) {
    forall i | 0 <= i < |rules| :: RuleName(rules, rules[i].target) == rules[i].target
  }

  /** A header that contains no pattern keeps its name. */
  lemma {:induction false} RuleNameUnmatched(rules: seq<Rule>, col: string)
    requires forall j | 0 <= j < |rules| :: !Text.Contains(col, rules[j].pattern)
    ensures RuleName(rules, col) == col
  {
    if |rules| > 0 {
      RuleNameUnmatched(rules[1..], col);
    }
  }

  /** Renaming twice renames once. */
  lemma RuleNameIdempotent(rules: seq<Rule>, col: string)
    requires Stable(rules)
    ensures RuleName(rules, RuleName(rules, col)) == RuleName(rules, col)
  {
    var i := RuleNameFirst(rules, col);
  }

  /** `data.rename(columns={col: new})` renames every column named `col`. */
  function RenameAll(header: seq<string>, col: string, target: string): (h: seq<string>)
    ensures |h| == |header|
    ensures forall j | 0 <= j < |header| :: h[j] == if header[j] == col then target else header[j]
  {
    Map((c: string) => if c == col then target else c, header)
  }

  /** Every header renamed by the rules on its own. */
  function RenameHeader(rules: seq<Rule>, header: seq<string>): (h: seq<string>)
    ensures |h| == |header| && forall j | 0 <= j < |header| :: h[j] == RuleName(rules, header[j])
  {
    Map((c: string) => RuleName(rules, c), header)
  }

  /** With stable rules, renaming a renamed header changes nothing. */
  lemma RenameHeaderIdempotent(rules: seq<Rule>, header: seq<string>)
    requires Stable(rules)
    ensures RenameHeader(rules, RenameHeader(rules, header)) == RenameHeader(rules, header)
  {
    var h := RenameHeader(rules, header);
    forall j | 0 <= j < |header| ensures RuleName(rules, h[j]) == h[j] {
      RuleNameIdempotent(rules, header[j]);
    }
  }

  /** The renaming loop: for each original header in turn, every column
      currently carrying that name is renamed by the rules. With stable
      rules this renames each header independently. */
  method RenameByRules(header: seq<string>, rules: seq<Rule>) returns (h: seq<string>)
    requires Stable(rules)
    ensures h == RenameHeader(rules, header)
  {
    h := header;
    var k := 0;
    while k < |header|
      invariant k <= |header| && |h| == |header|
      invariant forall j | 0 <= j < k :: h[j] == RuleName(rules, header[j])
      invariant forall j | k <= j < |header| :: h[j] == header[j] || h[j] == RuleName(rules, header[j])
    {
      var col := header[k];
      var renamed := RuleName(rules, col);
      if renamed != col {
        ghost var old_h := h;
        h := RenameAll(h, col, renamed);
        forall j | 0 <= j < |header| && old_h[j] == col
          ensures renamed == RuleName(rules, header[j])
        {
          if old_h[j] != header[j] {
            RuleNameIdempotent(rules, header[j]);
          }
        }
      }
      k := k + 1;
    }
  }

  // ---------------------------------------------------------------------
  // the per-file frame

  const TopDepth := "Top Depth DSF, MSF, WSF and CSF-A [m]"
  const BottomDepth := "Bottom Depth DSF, MSF, WSF and CSF-A [m]"

  /** `(top + bottom) / 2` on two cells: missing when either is; text
      raises a TypeError. */
  function Midpoint(top: Cell, bottom: Cell): (r: Result<Cell>)
    ensures r.Success? <==> !top.Str? && !bottom.Str?
    ensures r.Success? && top.Num? && bottom.Num? ==>
      r.value.Num? && 2.0 * r.value.x == top.x + bottom.x
    ensures r.Success? && !(top.Num? && bottom.Num?) ==> r.value == Missing
  {
    if top.Str? || bottom.Str? then Failure("TypeError")
    else if top.Num? && bottom.Num? then Success(Num((top.x + bottom.x) / 2.0))
    else Success(Missing)
  }

  /** The sample depths of a data file, row by row. */
  function SampleDepths(f: Frame): (r: Result<seq<Cell>>)
    ensures r.Success? <==> (TopDepth in f.columns && BottomDepth in f.columns &&
      forall i | 0 <= i < |f.rows| :: Midpoint(Get(f, i, TopDepth), Get(f, i, BottomDepth)).Success?)
    ensures r.Success? ==> (|r.value| == |f.rows| &&
      forall i | 0 <= i < |f.rows| :: r.value[i] == Midpoint(Get(f, i, TopDepth), Get(f, i, BottomDepth)).value)
  {
    if TopDepth !in f.columns || BottomDepth !in f.columns then Failure("KeyError")
    else if forall i | 0 <= i < |f.rows| :: Midpoint(Get(f, i, TopDepth), Get(f, i, BottomDepth)).Success? then
      Success(seq(|f.rows|, i requires 0 <= i < |f.rows| => Midpoint(Get(f, i, TopDepth), Get(f, i, BottomDepth)).value))
    else Failure("TypeError")
  }

  const Labels: seq<string> := ["leg", "site", "hole", "sample_depth"]

  /** `pd.concat([leglist, sitelist, holelist, sample_depth, data_add],
      axis=1)`: the hole found and the depth in front of the file's own
      columns, on every row. */
  function WithHole(f: Frame, e: HoleEntry, depths: seq<Cell>): (g: Frame)
    requires |depths| == |f.rows|
    ensures g.columns == Labels + f.columns && |g.rows| == |f.rows|
  {
    Frame(Labels + f.columns, seq(|f.rows|, i requires 0 <= i < |f.rows| =>
      [e.leg, Str(e.site), Str(e.hole), depths[i]] + Map(k => At(f.rows[i], k), Indices(|f.columns|))))
  }

  /** Every row carries the hole found and its own depth. */
  lemma WithHoleLabels(f: Frame, e: HoleEntry, depths: seq<Cell>, i: nat)
    requires |depths| == |f.rows| && i < |f.rows|
    ensures var g := WithHole(f, e, depths);
      Get(g, i, "leg") == e.leg && Get(g, i, "site") == Str(e.site) &&
      Get(g, i, "hole") == Str(e.hole) && Get(g, i, "sample_depth") == depths[i]
  {
    var g := WithHole(f, e, depths);
    var row := g.rows[i];
    assert row[..4] == [e.leg, Str(e.site), Str(e.hole), depths[i]];
    LabelsFind(f.columns);
  }

  lemma LabelsFind(cols: seq<string>)
    ensures Find(Labels + cols, "leg") == Some(0)
    ensures Find(Labels + cols, "site") == Some(1)
    ensures Find(Labels + cols, "hole") == Some(2)
    ensures Find(Labels + cols, "sample_depth") == Some(3)
  {
    assert Find(Labels, "site") == Some(1) by {
      assert Labels[1..] == ["site", "hole", "sample_depth"];
    }
    assert Find(Labels, "hole") == Some(2) by {
      assert Labels[1..][1..] == ["hole", "sample_depth"];
    }
    assert Find(Labels, "sample_depth") == Some(3) by {
      assert Labels[1..][1..][1..] == ["sample_depth"];
    }
    FindPrefix(Labels, cols, "leg");
    FindPrefix(Labels, cols, "site");
    FindPrefix(Labels, cols, "hole");
    FindPrefix(Labels, cols, "sample_depth");
  }

  /** The file's own columns are unchanged. */
  lemma WithHoleOthers(f: Frame, e: HoleEntry, depths: seq<Cell>, i: nat, c: string)
    requires |depths| == |f.rows| && i < |f.rows| && c !in Labels
    ensures Get(WithHole(f, e, depths), i, c) == Get(f, i, c)
  {
    FindAfter(Labels, f.columns, c);
  }

  lemma {:induction false} FindAfter(a: seq<string>, b: seq<string>, c: string)
    requires c !in a
    ensures Find(a + b, c) == (match Find(b, c) case None => None case Some(k) => Some(k + |a|))
  {
    if |a| > 0 {
      assert (a + b)[0] == a[0] != c;
      assert (a + b)[1..] == a[1..] + b;
      FindAfter(a[1..], b, c);
      assert Find(a + b, c) == (match Find(a[1..] + b, c) case None => None case Some(k) => Some(k + 1));
    } else {
      assert a + b == b;
    }
  }

  /** The rules leave the four label names alone. */
  predicate KeepsLabels(rules: seq<Rule>) {
    forall l | l in Labels :: RuleName(rules, l) == l
  }

  /** One data file made ready for concatenation: the hole's labels and
      the sample depth in front of the file's own columns, then the
      analyte headers renamed by the rules. */
  function Labelled(f: Frame, e: HoleEntry, rules: seq<Rule>): (r: Result<Frame>)
    ensures r.Success? <==> SampleDepths(f).Success?
    ensures r.Success? ==> |r.value.columns| == 4 + |f.columns| && |r.value.rows| == |f.rows|
  {
    var depths :- SampleDepths(f);
    var g := WithHole(f, e, depths);
    Success(Frame(RenameHeader(rules, g.columns), g.rows))
  }

  lemma RenameHeaderLabels(rules: seq<Rule>, cols: seq<string>)
    requires KeepsLabels(rules)
    ensures RenameHeader(rules, Labels + cols) == Labels + RenameHeader(rules, cols)
  {
    var a := RenameHeader(rules, Labels + cols);
    var b := Labels + RenameHeader(rules, cols);
    forall j | 0 <= j < |a| ensures a[j] == b[j] {
      if j >= 4 {
        assert (Labels + cols)[j] == cols[j - 4];
      } else {
        assert (Labels + cols)[j] == Labels[j];
      }
    }
  }

  /** Every row of a labelled file carries the hole found and its own
      depth, whatever the file's headers are. */
  lemma LabelledLabels(f: Frame, e: HoleEntry, rules: seq<Rule>, i: nat)
    requires Labelled(f, e, rules).Success? && KeepsLabels(rules) && i < |f.rows|
    ensures var g := Labelled(f, e, rules).value;
      Get(g, i, "leg") == e.leg && Get(g, i, "site") == Str(e.site) &&
      Get(g, i, "hole") == Str(e.hole) && Get(g, i, "sample_depth") == SampleDepths(f).value[i]
  {
    var depths := SampleDepths(f).value;
    var w := WithHole(f, e, depths);
    RenameHeaderLabels(rules, f.columns);
    WithHoleLabels(f, e, depths, i);
    LabelsFind(f.columns);
    LabelsFind(RenameHeader(rules, f.columns));
  }

  /** An analyte column of a labelled file holds, row by row, the file's
      cells under the first header the rules rename to that name. */
  lemma LabelledColumn(f: Frame, e: HoleEntry, rules: seq<Rule>, t: string, i: nat)
    requires Labelled(f, e, rules).Success? && KeepsLabels(rules) && t !in Labels && i < |f.rows|
    ensures Get(Labelled(f, e, rules).value, i, t) == Value(RenameHeader(rules, f.columns), f.rows[i], t)
  {
    var depths := SampleDepths(f).value;
    var header := RenameHeader(rules, f.columns);
    RenameHeaderLabels(rules, f.columns);
    WithHoleUnder(f, e, depths, header, i, t);
  }

  /** Under any header for the file's own columns, the labelled row reads
      like the file's row outside the four labels. */
  lemma WithHoleUnder(f: Frame, e: HoleEntry, depths: seq<Cell>, header: seq<string>, i: nat, t: string)
    requires |depths| == |f.rows| && |header| == |f.columns| && t !in Labels && i < |f.rows|
    ensures Value(Labels + header, WithHole(f, e, depths).rows[i], t) == Value(header, f.rows[i], t)
  {
    var w := WithHole(f, e, depths);
    FindAfter(Labels, header, t);
    match Find(header, t)
    case None =>
    case Some(k) =>
      assert w.rows[i][4 + k] == At(f.rows[i], k);
  }

  /** A data file counts when its name ends in ".csv". */
  predicate IsCsv(name: string) {
    |name| >= 4 && name[|name| - 4..] == ".csv"
  }

  datatype DataFile = DataFile(name: string, frame: Frame)
}
