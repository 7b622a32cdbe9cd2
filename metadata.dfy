/** Hole metadata: one row per drilled hole from the four programmes' hole
    summaries, brought to seven canonical columns, with coordinates in
    signed decimal degrees, a handful of hand corrections, and surrogate
    keys for holes and sites. */
module Metadata {
  import opened Wrappers
  import opened Seqs
  import opened Frames
  import opened Keys
  import opened Units
  import Chikyu
  import Text

  /** The seven canonical columns every summary is brought to. */
  const StdColumns: seq<string> := ["leg", "site", "hole", "lat", "lon", "water_depth", "total_penetration"]

  const DsdpColumns: seq<string> :=
    ["leg", "site", "hole", "latitude", "longitude", "water depth(m)", "total penetration(m)"]

  const IodpColumns: seq<string> :=
    ["Exp", "Site", "Hole", "Latitude", "Longitude", "Water depth (m)", "Penetration DSF (m)"]

  const ChikyuColumns: seq<string> := ["EXPNAME", "HOLENAME", "hole", "LAT", "LON", "WTRDEPTH", "pen"]

  /** The published table. */
  const OutColumns: seq<string> :=
    ["hole_key", "site_key", "leg", "site", "hole", "lat", "lon", "water_depth", "total_penetration"]

  /** Positions of the canonical columns in a row. */
  const Width: nat := 7
  const LegAt: nat := 0
  const SiteAt: nat := 1
  const HoleAt: nat := 2
  const DepthAt: nat := 5

  lemma StdColumnsDistinct()
    ensures NoDup(StdColumns)
  {
  }

  /** Under the canonical header, a column name reads its own position. */
  lemma StdValue(r: Row, k: nat)
    requires k < Width
    ensures Value(StdColumns, r, StdColumns[k]) == At(r, k)
  {
    StdColumnsDistinct();
    FindDistinct(StdColumns, k);
  }

  // ---------------------------------------------------------------------
  // bringing a summary to the canonical columns

  /** `raw.loc[:, cols].rename(columns=dict(zip(cols, StdColumns)))`: a
      KeyError unless every listed column exists. The listed names are
      distinct, so the dictionary relabels the selected columns position
      by position. */
  function Standardise(raw: Frame, cols: seq<string>): (r: Result<Frame>)
    requires |cols| == Width
    ensures r.Success? <==> forall c | c in cols :: c in raw.columns
    ensures r.Success? ==> r.value.columns == StdColumns && |r.value.rows| == |raw.rows|
  {
    var f :- Select(raw, cols);
    Success(Frame(StdColumns, f.rows))
  }

  /** The k-th canonical column holds the k-th listed source column. */
  lemma StandardiseGet(raw: Frame, cols: seq<string>, k: nat, i: nat)
    requires |cols| == Width && NoDup(cols) && Standardise(raw, cols).Success?
    requires k < Width && i < |raw.rows|
    ensures Get(Standardise(raw, cols).value, i, StdColumns[k]) == Get(raw, i, cols[k])
  {
    var f := Select(raw, cols).value;
    FindDistinct(cols, k);
    StdValue(f.rows[i], k);
    assert Get(f, i, cols[k]) == Get(raw, i, cols[k]);
  }

  function LoadDsdp(raw: Frame): (r: Result<Frame>)
    ensures r.Success? <==> forall c | c in DsdpColumns :: c in raw.columns
    ensures r.Success? ==> r.value.columns == StdColumns && |r.value.rows| == |raw.rows|
  {
    Standardise(raw, DsdpColumns)
  }

  function LoadIodp(raw: Frame): (r: Result<Frame>)
    ensures r.Success? <==> forall c | c in IodpColumns :: c in raw.columns
    ensures r.Success? ==> r.value.columns == StdColumns && |r.value.rows| == |raw.rows|
  {
    Standardise(raw, IodpColumns)
  }

  // ---------------------------------------------------------------------
  // ODP: headers found by pattern, old legs dropped, water depth read

  /** The characters `\b` treats as part of a word (ASCII). */
  predicate IsWordChar(c: char) {
    'a' <= c <= 'z' || 'A' <= c <= 'Z' || '0' <= c <= '9' || c == '_'
  }

  /** `\bw\b` matches at position i of h. */
  predicate WordAt(h: string, w: string, i: nat) {
    Text.OccursAt(h, w, i) &&
    (i == 0 || !IsWordChar(h[i - 1])) &&
    (i + |w| == |h| || !IsWordChar(h[i + |w|]))
  }

  /** `re.search(r'\bw\b', h)` succeeds. */
  predicate HasWord(h: string, w: string) {
    exists i: nat | i <= |h| :: WordAt(h, w, i)
  }

  predicate LatitudeHeader(h: string) { HasWord(h, "Latitude") }
  /** The longitude pattern is spelled "Longtitude". */
  predicate LongitudeHeader(h: string) { HasWord(h, "Longtitude") }
  predicate WaterDepthHeader(h: string) { HasWord(h, "Water Depth") }
  /** `.*Total Penetration \(m\).*` matches wherever the phrase occurs. */
  predicate PenetrationHeader(h: string) { Text.Contains(h, "Total Penetration (m)") }

  /** `list(filter(regex.search, header))[0]`: the first matching header,
      an IndexError when none matches. */
  function FirstHeader(header: seq<string>, matches: string -> bool): Result<string> {
    var found := Filter(matches, header);
    if |found| == 0 then Failure("IndexError: list index out of range") else Success(found[0])
  }

  /** The header found is the first one that matches. */
  lemma FirstHeaderAt(header: seq<string>, matches: string -> bool) returns (k: nat)
    requires FirstHeader(header, matches).Success?
    ensures k < |header| && header[k] == FirstHeader(header, matches).value && matches(header[k])
    ensures forall j | 0 <= j < k :: !matches(header[j])
  {
    var ix := KeptIndices(matches, header);
    FilterExact(matches, header);
    k := ix[0];
  }

  /** The search fails only when no header matches. */
  lemma FirstHeaderFound(header: seq<string>, matches: string -> bool, k: nat)
    requires k < |header| && matches(header[k])
    ensures FirstHeader(header, matches).Success?
  {
    FilterMembers(matches, header);
    assert header[k] in Filter(matches, header);
  }

  /** The ODP source columns, in canonical order. */
  function OdpColumns(header: seq<string>): (r: Result<seq<string>>)
    ensures r.Success? ==> |r.value| == Width && r.value[..3] == ["Leg", "Site", "Hole"]
  {
    var lat :- FirstHeader(header, h => LatitudeHeader(h));
    var lon :- FirstHeader(header, h => LongitudeHeader(h));
    var wd :- FirstHeader(header, h => WaterDepthHeader(h));
    var pen :- FirstHeader(header, h => PenetrationHeader(h));
    Success(["Leg", "Site", "Hole", lat, lon, wd, pen])
  }

  /** `odp_db['leg'] >= 100` as a row mask: NaN compares false. */
  predicate OdpLegKept(r: Row) {
    var leg := At(r, LegAt);
    leg.Num? && leg.x >= 100.0
  }

  /** `.str.strip().replace('', nan).astype(float)` on a water depth in a
      text column: text is stripped and read as a number, a blank becomes
      missing, and a cell that is not text becomes missing. */
  function WaterDepth(x: Cell): (r: Result<Cell>)
    ensures r.Success? ==> !r.value.Str?
  {
    ToNumber(BlankToMissing(StripCell(x)))
  }

  /** The ODP summary before its rows are filtered. */
  function OdpStandard(raw: Frame): (r: Result<Frame>)
    ensures r.Success? ==> r.value.columns == StdColumns && |r.value.rows| == |raw.rows|
  {
    var cols :- OdpColumns(raw.columns);
    Standardise(raw, cols)
  }

  /** Legs below 100 are dropped (comparing text with a number is a
      TypeError), then the water depth is read; the `.str` accessor refuses
      a column that held no text when it was read. */
  function LoadOdp(raw: Frame): (r: Result<Frame>)
    ensures r.Success? ==> r.value.columns == StdColumns
  {
    var f :- OdpStandard(raw);
    if exists i | 0 <= i < |f.rows| :: At(f.rows[i], LegAt).Str? then
      Failure("TypeError: '>=' not supported between instances of 'str' and 'int'")
    else if !IsObject(Column(f, "water_depth")) then
      Failure("AttributeError: Can only use .str accessor with string values")
    else
      MapColumnChecked(FilterRows(f, OdpLegKept), "water_depth", WaterDepth)
  }

  /** The ODP table holds, in order, exactly the rows whose leg is a number
      of at least 100; water depths are read as numbers and the other
      columns are unchanged. */
  lemma OdpRows(raw: Frame, k: nat, c: string)
    requires LoadOdp(raw).Success?
    ensures var f := OdpStandard(raw).value;
      |LoadOdp(raw).value.rows| == |KeptIndices(OdpLegKept, f.rows)|
    ensures var f := OdpStandard(raw).value;
      var ix := KeptIndices(OdpLegKept, f.rows);
      var out := LoadOdp(raw).value;
      k < |ix| ==>
        At(f.rows[ix[k]], LegAt).Num? && At(f.rows[ix[k]], LegAt).x >= 100.0 &&
        (c != "water_depth" ==> Get(out, k, c) == Get(f, ix[k], c)) &&
        (c == "water_depth" ==> WaterDepth(Get(f, ix[k], c)).Success? &&
                                Get(out, k, c) == WaterDepth(Get(f, ix[k], c)).value)
  {
    var f := OdpStandard(raw).value;
    var g := FilterRows(f, OdpLegKept);
    var ix := KeptIndices(OdpLegKept, f.rows);
    assert LoadOdp(raw) == MapColumnChecked(g, "water_depth", WaterDepth);
    assert |g.rows| == |ix| by { FilterExact(OdpLegKept, f.rows); }
    if k < |ix| {
      assert OdpLegKept(f.rows[ix[k]]);
      assert Get(g, k, c) == Get(f, ix[k], c) by { FilterRowsGet(f, OdpLegKept, k, c); }
    }
  }

  /** Water depth round trip: the text of a whole number of metres, with
      surrounding blanks, reads back as that number; a blank is missing. */
  lemma WaterDepthText(n: nat)
    ensures WaterDepth(Str(" " + Text.NatText(n) + " ")) == Success(Num(n as real))
    ensures WaterDepth(Str("  ")) == Success(Missing)
  {
    var ds := Text.NatText(n);
    var s := " " + ds + " ";
    assert Text.Strip(s) == ds by {
      StripPadded(ds);
    }
    ToNumberIntText(n);
    assert Text.Strip("  ") == "" by {
      assert Text.TrimLeft("  ", Text.Whitespace) == "";
    }
  }

  /** Blanks on either side of digits are stripped. */
  lemma StripPadded(ds: string)
    requires |ds| >= 1 && Text.AllDigits(ds)
    ensures Text.Strip(" " + ds + " ") == ds
  {
    var s := " " + ds + " ";
    assert ds[0] in ds && ds[|ds| - 1] in ds;
    assert Text.TrimLeft(s, Text.Whitespace) == Text.TrimLeft(ds + " ", Text.Whitespace) by {
      assert s[1..] == ds + " ";
    }
    Text.TrimLeftKeeps(ds + " ", Text.Whitespace);
    var t := ds + " ";
    assert t[..|t| - 1] == ds;
    assert Text.TrimRight(t, Text.Whitespace) == Text.TrimRight(ds, Text.Whitespace);
    Text.TrimRightKeeps(ds, Text.Whitespace);
  }

  // ---------------------------------------------------------------------
  // Chikyu: HOLENAME split into site and hole

  /** A column of missing values, one per row. */
  function Blank(n: nat): (col: seq<Cell>)
    ensures |col| == n && forall i | 0 <= i < n :: col[i] == Missing
  {
    seq(n, i requires 0 <= i < n => Missing)
  }

  /** `hole` and `pen` are added as missing columns, the canonical columns
      are selected and the first data row is dropped. */
  function ChikyuStandard(raw: Frame): (r: Result<Frame>)
    ensures r.Success? ==> r.value.columns == StdColumns
    ensures r.Success? ==> |r.value.rows| == (if |raw.rows| == 0 then 0 else |raw.rows| - 1)
  {
    var withHole := SetColumn(raw, "hole", Blank(|raw.rows|));
    var f := SetColumn(withHole, "pen", Blank(|raw.rows|));
    var g :- Standardise(f, ChikyuColumns);
    Success(Frame(StdColumns, if |g.rows| == 0 then [] else g.rows[1..]))
  }

  /** One row with its HOLENAME, which the rename put under `site`, split:
      the last character is written to `hole`, the rest to `site`. */
  function SplitRow(r: Row): Result<Row> {
    var parts :- Chikyu.SplitHoleName(At(r, SiteAt));
    Success(PutAt(PutAt(r, Width, HoleAt, Str(parts.1)), Width, SiteAt, Str(parts.0)))
  }

  /** The loop over the rows: the first row that cannot be split ends it. */
  function SplitRows(rows: seq<Row>): (r: Result<seq<Row>>)
    ensures r.Success? ==> |r.value| == |rows|
  {
    if |rows| == 0 then Success([])
    else
      var init :- SplitRows(rows[..|rows| - 1]);
      var last :- SplitRow(rows[|rows| - 1]);
      Success(init + [last])
  }

  function SplitNames(f: Frame): (r: Result<Frame>)
    ensures r.Success? ==> r.value.columns == f.columns && |r.value.rows| == |f.rows|
  {
    var rows :- SplitRows(f.rows);
    Success(Frame(f.columns, rows))
  }

  function LoadChikyu(raw: Frame): (r: Result<Frame>)
    ensures r.Success? ==> r.value.columns == StdColumns
  {
    var f :- ChikyuStandard(raw);
    SplitNames(f)
  }

  /** The split succeeds exactly when every row's HOLENAME is non-empty
      text, and then row n is row n split. */
  lemma {:induction false} SplitRowsAt(rows: seq<Row>, n: nat)
    requires n < |rows|
    ensures SplitRow(rows[n]).Failure? ==> SplitRows(rows).Failure?
    ensures SplitRows(rows).Success? ==> SplitRow(rows[n]).Success? && SplitRows(rows).value[n] == SplitRow(rows[n]).value
  {
    var m := |rows| - 1;
    var init := rows[..m];
    if n < m {
      SplitRowsAt(init, n);
    }
  }

  lemma {:induction false} SplitRowsOk(rows: seq<Row>)
    requires forall n | 0 <= n < |rows| :: SplitRow(rows[n]).Success?
    ensures SplitRows(rows).Success?
  {
    if |rows| > 0 {
      var init := rows[..|rows| - 1];
      assert forall n | 0 <= n < |init| :: init[n] == rows[n];
      SplitRowsOk(init);
    }
  }

  lemma {:induction false} SplitRowsFails(rows: seq<Row>, n: nat)
    requires n <= |rows| && SplitRows(rows[..n]).Failure?
    ensures SplitRows(rows) == SplitRows(rows[..n])
    decreases |rows| - n
  {
    if n < |rows| {
      assert rows[..n + 1][..n] == rows[..n];
      SplitRowsFails(rows, n + 1);
    } else {
      assert rows[..n] == rows;
    }
  }

  /** A split row reads back its HOLENAME: site followed by hole is the
      name, the hole is one character, and the other columns are as they
      were. */
  lemma SplitRowGet(r: Row, k: nat)
    requires SplitRow(r).Success? && k < Width
    ensures var r' := SplitRow(r).value;
      At(r', SiteAt).Str? && At(r', HoleAt).Str? &&
      At(r, SiteAt) == Str(At(r', SiteAt).s + At(r', HoleAt).s) && |At(r', HoleAt).s| == 1 &&
      (k != SiteAt && k != HoleAt ==> At(r', k) == At(r, k))
  {
  }

  /** The Chikyu loop, writing each split back into its row in place. */
  method SplitHoleNames(f: Frame) returns (r: Result<Frame>)
    ensures r == SplitNames(f)
  {
    var a := new Row[|f.rows|](i requires 0 <= i < |f.rows| => f.rows[i]);
    for n := 0 to a.Length
      invariant a.Length == |f.rows|
      invariant a[n..] == f.rows[n..]
      invariant SplitRows(f.rows[..n]) == Success(a[..n])
    {
      assert f.rows[..n + 1][..n] == f.rows[..n];
      assert a[n] == f.rows[n];
      var holeId := At(a[n], SiteAt);
      var parts := Chikyu.SplitHoleName(holeId);
      if parts.Failure? {
        assert SplitRow(f.rows[n]) == Failure(parts.error);
        assert f.rows[..n + 1][n] == f.rows[n];
        assert SplitRows(f.rows[..n + 1]) == Failure(parts.error);
        SplitRowsFails(f.rows, n + 1);
        assert SplitRows(f.rows) == Failure(parts.error);
        return Failure(parts.error);
      }
      a[n] := PutAt(a[n], Width, HoleAt, Str(parts.value.1));
      a[n] := PutAt(a[n], Width, SiteAt, Str(parts.value.0));
      assert a[..n + 1] == a[..n] + [a[n]];
    }
    assert f.rows[..a.Length] == f.rows && a[..a.Length] == a[..];
    assert SplitRows(f.rows) == Success(a[..]);
    r := Success(Frame(f.columns, a[..]));
  }

  // ---------------------------------------------------------------------
  // coordinates

  /** The text removed from ODP and IODP coordinates, in this order. */
  const BadChars: seq<string> := ["Â°", "'", "N", "S", "E", "W"]

  /** South and west are negative. */
  /** The factor pandas multiplies a coordinate by: 1 or -1. */
  type Sign = k: int | k == 1 || k == -1 witness 1

  function HemisphereSign(coord: string): (k: Sign)
    ensures k == -1 <==> 'S' in coord || 'W' in coord
  {
    if 'S' in coord then -1 else if 'W' in coord then -1 else 1
  }

  /** The signs of a column of coordinates; `'S' in coord` raises on a cell
      that is not text. */
  function SignsOf(col: seq<Cell>): (r: Result<seq<Sign>>)
    ensures r.Success? <==> forall i | 0 <= i < |col| :: col[i].Str?
    ensures r.Success? ==> |r.value| == |col|
  {
    if forall i | 0 <= i < |col| :: col[i].Str? then
      Success(seq(|col|, i requires 0 <= i < |col| => HemisphereSign(col[i].s)))
    else Result<seq<Sign>>.Failure("TypeError: argument of type 'float' is not iterable")
  }

  /** The loop that appends one sign per coordinate. */
  method Signs(col: seq<Cell>) returns (r: Result<seq<Sign>>)
    ensures r == SignsOf(col)
  {
    var signs: seq<Sign> := [];
    for x := 0 to |col|
      invariant |signs| == x
      invariant forall j | 0 <= j < x :: col[j].Str? && signs[j] == HemisphereSign(col[j].s)
    {
      var coord := col[x];
      if !coord.Str? {
        assert !col[x].Str?;
        return Failure("TypeError: argument of type 'float' is not iterable");
      }
      if 'S' in coord.s {
        signs := signs + [-1];
      } else if 'W' in coord.s {
        signs := signs + [-1];
      } else {
        signs := signs + [1];
      }
    }
    assert signs == seq(|col|, i requires 0 <= i < |col| => HemisphereSign(col[i].s));
    r := Success(signs);
  }

  /** `s.replace(c, '')` for the first n entries of `BadChars`, in turn. */
  function RemoveBad(s: string, n: nat): string
    requires n <= |BadChars|
  {
    if n == 0 then s else Text.ReplaceAll(RemoveBad(s, n - 1), BadChars[n - 1], [])
  }

  /** The loop that removes each bad character from the whole column. */
  method StripCoords(ser: seq<string>) returns (out: seq<string>)
    ensures |out| == |ser| && forall i | 0 <= i < |ser| :: out[i] == RemoveBad(ser[i], |BadChars|)
  {
    out := ser;
    for k := 0 to |BadChars|
      invariant |out| == |ser| && forall i | 0 <= i < |ser| :: out[i] == RemoveBad(ser[i], k)
    {
      var pat := BadChars[k];
      out := seq(|out|, i requires 0 <= i < |out| => Text.ReplaceAll(out[i], pat, []));
    }
  }

  /** No apostrophe or hemisphere letter survives, and nothing is added. */
  lemma {:induction false} RemoveBadChars(s: string, n: nat, x: char)
    requires n <= |BadChars| && x in RemoveBad(s, n)
    ensures x in s
    ensures n == |BadChars| ==> x !in "'NSEW"
  {
    if n > 0 {
      var t := RemoveBad(s, n - 1);
      Text.DeleteKeepsChars(t, BadChars[n - 1], x);
      RemoveBadChars(s, n - 1, x);
      if n == |BadChars| {
        RemoveBadLast(s, x);
      }
    }
  }

  lemma RemoveBadLast(s: string, x: char)
    requires x in RemoveBad(s, |BadChars|)
    ensures x !in "'NSEW"
  {
    var t5 := RemoveBad(s, 5);
    Text.RemoveCharExact(t5, 'W');
    assert x != 'W';
    var t4 := RemoveBad(s, 4);
    Text.RemoveCharExact(t4, 'E');
    Text.DeleteKeepsChars(t5, "W", x);
    assert x != 'E';
    var t3 := RemoveBad(s, 3);
    Text.RemoveCharExact(t3, 'S');
    Text.DeleteKeepsChars(t4, "E", x);
    assert x != 'S';
    var t2 := RemoveBad(s, 2);
    Text.RemoveCharExact(t2, 'N');
    Text.DeleteKeepsChars(t3, "S", x);
    assert x != 'N';
    var t1 := RemoveBad(s, 1);
    Text.RemoveCharExact(t1, '\'');
    Text.DeleteKeepsChars(t2, "N", x);
    assert x != '\'';
  }

  /** `str.extract(r'([^\s]+)')`: the first run of non-whitespace
      characters, None when there is none. */
  function FirstRun(t: string): Option<string> {
    var u := Text.TrimLeft(t, Text.Whitespace);
    if |u| == 0 then None else Some(Run(u))
  }

  /** The longest prefix without whitespace. */
  function Run(u: string): (r: string)
    ensures |r| <= |u|
  {
    if |u| == 0 || Text.IsSpace(u[0]) then [] else [u[0]] + Run(u[1..])
  }

  /** `str.extract(r'(\s.*)')`: from the first whitespace character to the
      end of its line, None when there is no whitespace. */
  function FromSpace(t: string): Option<string> {
    if |t| == 0 then None
    else if Text.IsSpace(t[0]) then Some([t[0]] + Line(t[1..]))
    else FromSpace(t[1..])
  }

  /** `.*`: everything up to the next newline. */
  function Line(u: string): string {
    if |u| == 0 || u[0] == '\n' then [] else [u[0]] + Line(u[1..])
  }

  /** `.astype(float)` on an extracted group; no match stays missing. */
  function GroupNumber(g: Option<string>): (r: Result<Cell>)
    ensures r.Success? ==> !r.value.Str?
  {
    match g
    case None => Success(Missing)
    case Some(s) => ToNumber(Str(s))
  }

  /** `coord_clean` on one stripped coordinate, then the sign: degrees plus
      minutes over 60, missing when either part is missing. */
  /** Multiplying a magnitude by a hemisphere sign of 1 or -1. */
  function Signed(sign: Sign, v: real): real {
    if sign == -1 then -v else v
  }

  function CleanCoord(sign: Sign, stripped: string): Result<Cell> {
    var t := Text.Strip(stripped);
    var degs :- GroupNumber(FirstRun(t));
    var mins :- GroupNumber(FromSpace(t));
    if degs.Num? && mins.Num? then Success(Num(Signed(sign, degs.x + mins.x / 60.0)))
    else Success(Missing)
  }

  function CoordValue(sign: Sign, coord: string): Result<Cell> {
    CleanCoord(sign, RemoveBad(coord, |BadChars|))
  }

  /** `coord_transform` on a column: the signs are taken first, then every
      coordinate is cleaned; one unreadable part fails the column. */
  function CoordTransform(col: seq<Cell>): (r: Result<seq<Cell>>)
    ensures r.Success? ==> |r.value| == |col|
  {
    var signs :- SignsOf(col);
    if forall i | 0 <= i < |col| :: CoordValue(signs[i], col[i].s).Success? then
      Success(seq(|col|, i requires 0 <= i < |col| => CoordValue(signs[i], col[i].s).value))
    else Failure("ValueError: could not convert string to float")
  }

  /** Coordinate round trip: degrees and minutes written as
      `<d>Â° <m>' <h>` read back as d + m/60 decimal degrees, negative in the
      southern and western hemispheres. */
  lemma CoordOfText(d: nat, m: nat, h: char)
    requires h in "NSEW"
    ensures var text := Text.NatText(d) + "Â° " + Text.NatText(m) + "' " + [h];
      var v := d as real + m as real / 60.0;
      CoordValue(HemisphereSign(text), text) == Success(Num(if h == 'S' || h == 'W' then -v else v))
  {
    var D, M := Text.NatText(d), Text.NatText(m);
    SignOfText(D, M, h);
    RemoveBadText(D, M, h);
    CoordDegreesMinutes(d, m, h, D + "Â° " + M + "' " + [h]);
  }

  lemma CoordDegreesMinutes(d: nat, m: nat, h: char, text: string)
    requires RemoveBad(text, |BadChars|) == Text.NatText(d) + " " + Text.NatText(m) + " "
    requires HemisphereSign(text) == if h == 'S' || h == 'W' then -1 else 1
    ensures var v := d as real + m as real / 60.0;
      CoordValue(HemisphereSign(text), text) == Success(Num(if h == 'S' || h == 'W' then -v else v))
  {
    var sign := HemisphereSign(text);
    CleanDegreesMinutes(sign, d, m, Text.NatText(d), Text.NatText(m));
    CoordValueOf(sign, text, Text.NatText(d) + " " + Text.NatText(m) + " ");
  }

  lemma CoordValueOf(sign: Sign, coord: string, cleaned: string)
    requires RemoveBad(coord, |BadChars|) == cleaned
    ensures CoordValue(sign, coord) == CleanCoord(sign, cleaned)
  {
  }


  lemma SignOfText(D: string, M: string, h: char)
    requires Text.AllDigits(D) && Text.AllDigits(M) && h in "NSEW"
    ensures HemisphereSign(D + "Â° " + M + "' " + [h]) == if h == 'S' || h == 'W' then -1 else 1
  {
    var text := D + "Â° " + M + "' " + [h];
    assert 'S' !in D && 'S' !in M && 'W' !in D && 'W' !in M;
    assert 'S' in text <==> h == 'S';
    assert 'W' in text <==> h == 'W';
  }

  /** The cleaned text `<d> <m> ` gives d + m/60, signed. */
  lemma CleanDegreesMinutes(sign: Sign, d: nat, m: nat, D: string, M: string)
    requires D == Text.NatText(d) && M == Text.NatText(m)
    ensures CleanCoord(sign, D + " " + M + " ") == Success(Num(Signed(sign, d as real + m as real / 60.0)))
  {
    var t := D + " " + M;
    StripDegreesMinutes(D, M);
    assert Text.Strip(D + " " + M + " ") == t;
    DegreesGroup(D, M);
    Units.ToNumberIntText(d);
    assert GroupNumber(FirstRun(t)) == Success(Num(d as real));
    MinutesGroup(D, M);
    MinutesNumber(M, m);
    assert GroupNumber(FromSpace(t)) == Success(Num(m as real));
    CleanCoordOf(sign, D + " " + M + " ", t, d as real, m as real);
  }

  lemma CleanCoordOf(sign: Sign, s: string, t: string, a: real, b: real)
    requires Text.Strip(s) == t
    requires GroupNumber(FirstRun(t)) == Success(Num(a))
    requires GroupNumber(FromSpace(t)) == Success(Num(b))
    ensures CleanCoord(sign, s) == Success(Num(Signed(sign, a + b / 60.0)))
  {
  }

  lemma DegreesGroup(D: string, M: string)
    requires |D| >= 1 && Text.AllDigits(D)
    ensures FirstRun(D + " " + M) == Some(D)
  {
    var t := D + " " + M;
    assert D[0] in D;
    Text.TrimLeftKeeps(t, Text.Whitespace);
    RunDigits(D, " " + M);
    assert t == D + (" " + M);
  }

  lemma MinutesGroup(D: string, M: string)
    requires Text.AllDigits(D) && Text.AllDigits(M)
    ensures FromSpace(D + " " + M) == Some(" " + M)
  {
    assert D + " " + M == D + (" " + M);
    FromSpaceDigits(D, " " + M);
    LineDigits(M);
    assert (" " + M)[1..] == M;
  }

  /** The removals leave degrees and minutes separated by blanks. */
  lemma RemoveBadText(D: string, M: string, h: char)
    requires Text.AllDigits(D) && Text.AllDigits(M) && h in "NSEW"
    ensures RemoveBad(D + "Â° " + M + "' " + [h], |BadChars|) == D + " " + M + " "
  {
    var text := D + "Â° " + M + "' " + [h];
    var Q := D + " " + M + " ";
    DropDegreeSign(D, M, h);
    assert RemoveBad(text, 1) == D + " " + M + "' " + [h];
    DropQuote(D, M, h);
    assert RemoveBad(text, 2) == Q + [h];
    DropLetters(text, Q, h);
  }

  lemma DropDegreeSign(D: string, M: string, h: char)
    requires Text.AllDigits(D) && Text.AllDigits(M) && h in "NSEW"
    ensures Text.ReplaceAll(D + "Â° " + M + "' " + [h], "Â°", []) == D + " " + M + "' " + [h]
  {
    var X := " " + M + "' " + [h];
    assert D + "Â° " + M + "' " + [h] == D + ("Â°" + X);
    assert Text.ReplaceAll(D + ("Â°" + X), "Â°", []) == D + X by {
      assert 'Â' !in X by { assert 'Â' !in M; }
      DropOnce(D, "Â°", X);
    }
    assert D + X == D + " " + M + "' " + [h];
  }

  lemma DropQuote(D: string, M: string, h: char)
    requires Text.AllDigits(D) && Text.AllDigits(M) && h in "NSEW"
    ensures Text.ReplaceAll(D + " " + M + "' " + [h], "'", []) == D + " " + M + " " + [h]
  {
    var P := D + " " + M;
    assert D + " " + M + "' " + [h] == P + ("'" + (" " + [h]));
    assert '\'' !in M;
    DropOnce(P, "'", " " + [h]);
  }

  /** A pattern that occurs once, between text free of its first character,
      is deleted. */
  lemma DropOnce(P: string, pat: string, X: string)
    requires |pat| > 0 && pat[0] !in P && pat[0] !in X
    ensures Text.ReplaceAll(P + (pat + X), pat, []) == P + X
  {
    Text.ReplaceSkip(P, pat + X, pat, []);
    Text.ReplaceHead(pat, X, []);
    Text.ReplaceAbsent(X, pat, []);
  }

  /** Removing N, S, E and W in turn from Q + [h] leaves Q. */
  lemma DropLetters(text: string, Q: string, h: char)
    requires 'N' !in Q && 'S' !in Q && 'E' !in Q && 'W' !in Q && h in "NSEW"
    requires RemoveBad(text, 2) == Q + [h]
    ensures RemoveBad(text, |BadChars|) == Q
  {
    var t3 := Q + (if h == 'N' then [] else [h]);
    var t4 := Q + (if h == 'N' || h == 'S' then [] else [h]);
    var t5 := Q + (if h == 'W' then [h] else []);
    DropLetter(Q, [h], 'N');
    DropLetter(Q, if h == 'N' then [] else [h], 'S');
    DropLetter(Q, if h == 'N' || h == 'S' then [] else [h], 'E');
    DropLetter(Q, if h == 'W' then [h] else [], 'W');
    assert RemoveBad(text, 3) == t3;
    assert RemoveBad(text, 4) == t4;
    assert RemoveBad(text, 5) == t5;
  }

  /** Deleting a letter that the front lacks affects only the tail. */
  lemma DropLetter(P: string, tail: string, c: char)
    requires c !in P && |tail| <= 1
    ensures Text.ReplaceAll(P + tail, [c], []) == P + (if tail == [c] then [] else tail)
  {
    Text.ReplaceSkip(P, tail, [c], []);
    if tail == [c] {
      Text.ReplaceHead([c], [], []);
      assert tail == [c] + [];
    } else if |tail| == 1 {
      Text.ReplaceAbsent(tail, [c], []);
    }
  }

  lemma StripDegreesMinutes(D: string, M: string)
    requires |D| >= 1 && |M| >= 1 && Text.AllDigits(D) && Text.AllDigits(M)
    ensures Text.Strip(D + " " + M + " ") == D + " " + M
  {
    var t := D + " " + M;
    assert D[0] in D && M[|M| - 1] in M;
    Text.TrimLeftKeeps(t + " ", Text.Whitespace);
    assert (t + " ")[..|t|] == t;
    assert Text.TrimRight(t + " ", Text.Whitespace) == Text.TrimRight(t, Text.Whitespace);
    Text.TrimRightKeeps(t, Text.Whitespace);
  }

  lemma {:induction false} RunDigits(D: string, rest: string)
    requires Text.AllDigits(D) && (rest == [] || Text.IsSpace(rest[0]))
    ensures Run(D + rest) == D
  {
    if |D| > 0 {
      assert (D + rest)[1..] == D[1..] + rest;
      assert D[0] in D;
      RunDigits(D[1..], rest);
    } else {
      assert D + rest == rest;
    }
  }

  lemma {:induction false} FromSpaceDigits(D: string, rest: string)
    requires Text.AllDigits(D)
    ensures FromSpace(D + rest) == FromSpace(rest)
  {
    if |D| > 0 {
      assert (D + rest)[1..] == D[1..] + rest;
      assert D[0] in D;
      FromSpaceDigits(D[1..], rest);
    } else {
      assert D + rest == rest;
    }
  }

  lemma {:induction false} LineDigits(M: string)
    requires Text.AllDigits(M)
    ensures Line(M) == M
  {
    if |M| > 0 {
      assert M[0] in M;
      LineDigits(M[1..]);
    }
  }

  /** The minutes group keeps its leading blank, which float() ignores. */
  lemma MinutesNumber(M: string, m: nat)
    requires M == Text.NatText(m)
    ensures GroupNumber(Some(" " + M)) == Success(Num(m as real))
  {
    assert M[0] in M && M[|M| - 1] in M;
    Text.WhitespacePlain();
    Text.StripKeeps(M);
    assert Text.TrimLeft(" " + M, Text.Whitespace) == Text.TrimLeft(M, Text.Whitespace) by {
      assert (" " + M)[1..] == M;
    }
    assert Text.Strip(" " + M) == M;
    Units.ToNumberIntText(m);
  }

  /** A whole-degree coordinate without a minutes part has no whitespace
      after cleaning, so the minutes group is missing and the sum with it
      is missing too. */
  lemma CoordWithoutMinutes(d: nat, h: char)
    requires h in "NSEW"
    ensures var text := Text.NatText(d) + "Â°" + [h];
      CoordValue(HemisphereSign(text), text) == Success(Missing)
  {
    var D := Text.NatText(d);
    var text := D + "Â°" + [h];
    RemoveBadDegrees(D, h);
    CleanDegreesOnly(HemisphereSign(text), d, D);
    CoordValueOf(HemisphereSign(text), text, D);
  }

  lemma RemoveBadDegrees(D: string, h: char)
    requires Text.AllDigits(D) && h in "NSEW"
    ensures RemoveBad(D + "Â°" + [h], |BadChars|) == D
  {
    var text := D + "Â°" + [h];
    DigitsLackMarks(D);
    assert RemoveBad(text, 1) == D + [h] by {
      assert RemoveBad(text, 1) == Text.ReplaceAll(text, "Â°", []);
      assert text == D + ("Â°" + [h]);
      assert 'Â' !in [h];
      DropOnce(D, "Â°", [h]);
    }
    assert RemoveBad(text, 2) == D + [h] by {
      assert RemoveBad(text, 2) == Text.ReplaceAll(D + [h], "'", []);
      assert '\'' !in D + [h];
      Text.ReplaceAbsent(D + [h], "'", []);
    }
    DropLetters(text, D, h);
  }

  /** Digits are none of the characters the cleaning removes. */
  lemma DigitsLackMarks(D: string)
    requires Text.AllDigits(D)
    ensures 'Â' !in D && '\'' !in D && 'N' !in D && 'S' !in D && 'E' !in D && 'W' !in D
  {
  }

  lemma CleanDegreesOnly(sign: Sign, d: nat, D: string)
    requires D == Text.NatText(d)
    ensures CleanCoord(sign, D) == Success(Missing)
  {
    assert D[0] in D && D[|D| - 1] in D;
    Text.WhitespacePlain();
    Text.StripKeeps(D);
    Text.TrimLeftKeeps(D, Text.Whitespace);
    RunDigits(D, []);
    assert D + [] == D;
    Units.ToNumberIntText(d);
    assert GroupNumber(FirstRun(D)) == Success(Num(d as real));
    FromSpaceDigits(D, []);
  }

  // ---------------------------------------------------------------------
  // coordinates of the ODP and IODP tables

  /** `lat`, then `lon`, replaced by their signed decimal degrees. */
  function WithCoordinates(f: Frame): (r: Result<Frame>)
    requires "lat" in f.columns && "lon" in f.columns
    ensures r.Success? ==> r.value.columns == f.columns && |r.value.rows| == |f.rows|
  {
    var lat :- CoordTransform(Column(f, "lat"));
    var g := SetColumn(f, "lat", lat);
    var lon :- CoordTransform(Column(g, "lon"));
    Success(SetColumn(g, "lon", lon))
  }

  /** Each coordinate cell of the result is its text converted on its own,
      and every other column is unchanged. */
  lemma WithCoordinatesGet(f: Frame, i: nat, c: string)
    requires "lat" in f.columns && "lon" in f.columns && "lat" != "lon"
    requires WithCoordinates(f).Success? && i < |f.rows|
    ensures var g := WithCoordinates(f).value;
      var lat, lon := Get(f, i, "lat"), Get(f, i, "lon");
      lat.Str? && lon.Str? &&
      Get(g, i, "lat") == CoordValue(HemisphereSign(lat.s), lat.s).value &&
      Get(g, i, "lon") == CoordValue(HemisphereSign(lon.s), lon.s).value &&
      (c != "lat" && c != "lon" ==> Get(g, i, c) == Get(f, i, c))
  {
    var latCol := Column(f, "lat");
    var lat := CoordTransform(latCol).value;
    CoordTransformAt(latCol, i);
    var g := SetColumn(f, "lat", lat);
    var lonCol := Column(g, "lon");
    CoordTransformAt(lonCol, i);
  }

  /** A converted column holds each cell's own conversion. */
  lemma CoordTransformAt(col: seq<Cell>, i: nat)
    requires CoordTransform(col).Success? && i < |col|
    ensures col[i].Str?
    ensures CoordTransform(col).value[i] == CoordValue(HemisphereSign(col[i].s), col[i].s).value
  {
    var signs := SignsOf(col).value;
    assert signs[i] == HemisphereSign(col[i].s);
  }

  // ---------------------------------------------------------------------
  // hand corrections of single holes

  /** The site every correction leaves in a row: Expedition 335 drilled
      Hole 1256D; the Leg 302 holes are named M0001 to M0003 by water depth
      and M0004 otherwise; the sites written U395 and U858 are the
      numbered sites 395 and 858. */
  function FixedSite(r: Row): Cell {
    var leg := At(r, LegAt);
    if leg == Str("335") then Num(1256.0)
    else if leg == Num(302.0) then
      (var depth := At(r, DepthAt);
       if depth == Num(1205.0) then Str("M0003")
       else if depth == Num(1211.0) then Str("M0002")
       else if depth == Num(1225.0) then Str("M0001")
       else Str("M0004"))
    else if At(r, SiteAt) == Str("U395") then Num(395.0)
    else if At(r, SiteAt) == Str("U858") then Num(858.0)
    else At(r, SiteAt)
  }

  function FixedHole(r: Row): Cell {
    if At(r, LegAt) == Str("335") then Str("D") else At(r, HoleAt)
  }

  /** Rows that no correction selects. */
  predicate Untouched(r: Row) {
    At(r, LegAt) != Str("335") && At(r, LegAt) != Num(302.0) &&
    At(r, SiteAt) != Str("U395") && At(r, SiteAt) != Str("U858")
  }

  /** The row after all seven corrections, stated as one decision. */
  function FixedRow(r: Row): (r': Row)
    ensures Untouched(r) ==> r' == r
    ensures !Untouched(r) ==> |r'| == Width && At(r', SiteAt) == FixedSite(r) && At(r', HoleAt) == FixedHole(r)
    ensures forall k | 0 <= k < Width && k != SiteAt && k != HoleAt :: At(r', k) == At(r, k)
  {
    if Untouched(r) then r
    else PutAt(PutAt(r, Width, SiteAt, FixedSite(r)), Width, HoleAt, FixedHole(r))
  }

  /** Writing back what a full row already holds changes nothing. */
  lemma PutAtSame(r: Row, k: nat)
    requires |r| == Width && k < Width
    ensures PutAt(r, Width, k, r[k]) == r
  {
  }

  /** Applying the corrections twice is applying them once. */
  lemma FixedRowIdempotent(r: Row)
    ensures FixedRow(FixedRow(r)) == FixedRow(r)
  {
    if !Untouched(r) {
      var r' := FixedRow(r);
      assert At(r', LegAt) == At(r, LegAt) && At(r', DepthAt) == At(r, DepthAt);
      if !Untouched(r') {
        assert FixedSite(r') == FixedSite(r) && FixedHole(r') == FixedHole(r);
        PutAtSame(r', SiteAt);
        PutAtSame(r', HoleAt);
      }
    }
  }

  /** The renamed sites afterwards carry the number the other programmes
      give them, so that as text they join the numbered site. */
  lemma FixedSiteNumbered(r: Row)
    requires At(r, LegAt) != Str("335") && At(r, LegAt) != Num(302.0)
    ensures At(r, SiteAt) == Str("U395") ==> Textual(FixedSite(r)) == Textual(Num(395.0)) == Str("395")
    ensures At(r, SiteAt) == Str("U858") ==> Textual(FixedSite(r)) == Textual(Num(858.0)) == Str("858")
  {
    assert (395.0).Floor == 395 && (858.0).Floor == 858;
    assert Text.IntText(395) == "395" by {
      assert Text.NatText(395) == Text.NatText(39) + [Text.DigitChar(5)];
    }
    assert Text.IntText(858) == "858" by {
      assert Text.NatText(858) == Text.NatText(85) + [Text.DigitChar(8)];
    }
  }

  /** The seven `.loc` assignments, each selecting rows by a condition on
      that row alone, so they are applied to each row in turn. */
  method FixHoles(a: array<Row>)
    modifies a
    ensures forall i | 0 <= i < a.Length :: a[i] == FixedRow(old(a[i]))
  {
    for i := 0 to a.Length
      invariant forall j | 0 <= j < i :: a[j] == FixedRow(old(a[j]))
      invariant forall j | i <= j < a.Length :: a[j] == old(a[j])
    {
      a[i] := FixHole(a[i]);
    }
  }

  /** The seven assignments on one row, in the order they are written. */
  method FixHole(row: Row) returns (r: Row)
    ensures r == FixedRow(row)
  {
    r := FixByLeg(row);
    if At(r, SiteAt) == Str("U395") {
      r := PutAt(r, Width, SiteAt, Num(395.0));
    }
    if At(r, SiteAt) == Str("U858") {
      r := PutAt(r, Width, SiteAt, Num(858.0));
    }
    if !Untouched(row) {
      var fixed := FixedRow(row);
      assert forall k | 0 <= k < Width :: r[k] == fixed[k];
    }
  }

  /** The first five assignments, which select rows by leg (and water
      depth): they set the site, and for Expedition 335 the hole. */
  method FixByLeg(row: Row) returns (r: Row)
    ensures var leg := At(row, LegAt);
      if leg == Str("335") || leg == Num(302.0) then
        |r| == Width && At(r, SiteAt) == FixedSite(row) && At(r, HoleAt) == FixedHole(row) &&
        forall k | 0 <= k < Width && k != SiteAt && k != HoleAt :: r[k] == At(row, k)
      else r == row
  {
    r := row;
    if At(r, LegAt) == Str("335") {
      r := PutAt(PutAt(r, Width, SiteAt, Num(1256.0)), Width, HoleAt, Str("D"));
    }
    if At(r, LegAt) == Num(302.0) {
      r := PutAt(r, Width, SiteAt, Str("M0004"));
    }
    if At(r, LegAt) == Num(302.0) && At(r, DepthAt) == Num(1225.0) {
      r := PutAt(r, Width, SiteAt, Str("M0001"));
    }
    if At(r, LegAt) == Num(302.0) && At(r, DepthAt) == Num(1211.0) {
      r := PutAt(r, Width, SiteAt, Str("M0002"));
    }
    if At(r, LegAt) == Num(302.0) && At(r, DepthAt) == Num(1205.0) {
      r := PutAt(r, Width, SiteAt, Str("M0003"));
    }
  }

  /** The corrections applied to every row of the combined table. */
  function Corrected(f: Frame): (g: Frame)
    ensures g.columns == f.columns && |g.rows| == |f.rows|
    ensures forall i | 0 <= i < |f.rows| :: g.rows[i] == FixedRow(f.rows[i])
  {
    Frame(f.columns, Map(FixedRow, f.rows))
  }

  // ---------------------------------------------------------------------
  // column types

  const TextColumns: seq<string> := ["leg", "site", "hole"]
  const NumberColumns: seq<string> := ["lat", "lon", "water_depth", "total_penetration"]

  /** No column is converted both ways. */
  lemma ColumnsApart(c: string)
    ensures c in TextColumns ==> c !in NumberColumns
  {
  }

  /** `frame[cols] = frame[cols].astype(str)`. */
  function TextColumnsOf(f: Frame, cols: seq<string>): (g: Frame)
    requires forall c | c in cols :: c in f.columns
    ensures g.columns == f.columns && |g.rows| == |f.rows|
    decreases |cols|
  {
    if |cols| == 0 then f else TextColumnsOf(MapColumn(f, cols[0], Textual), cols[1..])
  }

  /** `frame[cols] = frame[cols].astype(float)`: a ValueError when some
      cell is text that float() cannot read. */
  function NumberColumnsOf(f: Frame, cols: seq<string>): (r: Result<Frame>)
    ensures r.Success? ==> r.value.columns == f.columns && |r.value.rows| == |f.rows|
    decreases |cols|
  {
    if |cols| == 0 then Success(f)
    else
      var g :- MapColumnChecked(f, cols[0], ToNumber);
      NumberColumnsOf(g, cols[1..])
  }

  /** Reading a number twice is reading it once. */
  lemma ToNumberTwice(c: Cell)
    requires ToNumber(c).Success?
    ensures ToNumber(ToNumber(c).value) == ToNumber(c)
  {
  }

  lemma {:induction false} TextColumnsGet(f: Frame, cols: seq<string>, i: nat, c: string)
    requires (forall d | d in cols :: d in f.columns) && i < |f.rows|
    ensures Get(TextColumnsOf(f, cols), i, c) == if c in cols then Textual(Get(f, i, c)) else Get(f, i, c)
    decreases |cols|
  {
    if |cols| > 0 {
      var g := MapColumn(f, cols[0], Textual);
      TextColumnsGet(g, cols[1..], i, c);
      TextualTwice(Get(f, i, c));
    }
  }

  /** The conversion succeeds exactly when every listed column exists and
      every cell in it can be read as a number, and each such cell is then
      replaced by its number. */
  lemma {:induction false} NumberColumnsGet(f: Frame, cols: seq<string>, i: nat, c: string)
    requires NumberColumnsOf(f, cols).Success? && i < |f.rows|
    ensures c in cols ==> c in f.columns && ToNumber(Get(f, i, c)).Success?
    ensures Get(NumberColumnsOf(f, cols).value, i, c) == if c in cols then ToNumber(Get(f, i, c)).value else Get(f, i, c)
    decreases |cols|
  {
    if |cols| > 0 {
      var g := MapColumnChecked(f, cols[0], ToNumber).value;
      NumberColumnsGet(g, cols[1..], i, c);
      if c == cols[0] && c in cols[1..] {
        ToNumberTwice(Get(f, i, c));
      }
    }
  }

  lemma {:induction false} NumberColumnsOk(f: Frame, cols: seq<string>)
    requires forall c | c in cols :: c in f.columns
    requires forall i, c | 0 <= i < |f.rows| && c in cols :: ToNumber(Get(f, i, c)).Success?
    ensures NumberColumnsOf(f, cols).Success?
    decreases |cols|
  {
    if |cols| > 0 {
      var r := MapColumnChecked(f, cols[0], ToNumber);
      assert r.Success?;
      var g := r.value;
      forall i, c | 0 <= i < |g.rows| && c in cols[1..]
        ensures ToNumber(Get(g, i, c)).Success?
      {
        if c == cols[0] {
          ToNumberTwice(Get(f, i, c));
        }
      }
      NumberColumnsOk(g, cols[1..]);
    }
  }

  /** `leg`, `site` and `hole` as text; the coordinates, water depth and
      penetration as numbers. */
  function AssignTypes(f: Frame): (r: Result<Frame>)
    ensures r.Success? ==> r.value.columns == f.columns && |r.value.rows| == |f.rows|
  {
    if !(forall c | c in StdColumns :: c in f.columns) then Failure("KeyError")
    else NumberColumnsOf(TextColumnsOf(f, TextColumns), NumberColumns)
  }

  /** The typing succeeds exactly when every canonical column exists and
      every number column holds only readable cells, and then each cell of
      the typed table is its own conversion. */
  lemma AssignTypesOk(f: Frame)
    requires forall c | c in StdColumns :: c in f.columns
    ensures AssignTypes(f).Success? <==>
      forall i, c | 0 <= i < |f.rows| && c in NumberColumns :: ToNumber(Get(f, i, c)).Success?
  {
    var g := TextColumnsOf(f, TextColumns);
    if AssignTypes(f).Success? {
      forall i, c | 0 <= i < |f.rows| && c in NumberColumns
        ensures ToNumber(Get(f, i, c)).Success?
      {
        NumberColumnsGet(g, NumberColumns, i, c);
        TextColumnsGet(f, TextColumns, i, c);
        ColumnsApart(c);
      }
    } else {
      if forall i, c | 0 <= i < |f.rows| && c in NumberColumns :: ToNumber(Get(f, i, c)).Success? {
        forall i, c | 0 <= i < |g.rows| && c in NumberColumns
          ensures ToNumber(Get(g, i, c)).Success?
        {
          TextColumnsGet(f, TextColumns, i, c);
          ColumnsApart(c);
        }
        NumberColumnsOk(g, NumberColumns);
      }
    }
  }

  lemma AssignTypesGet(f: Frame, i: nat, c: string)
    requires AssignTypes(f).Success? && i < |f.rows|
    ensures c in TextColumns ==> Get(AssignTypes(f).value, i, c) == Textual(Get(f, i, c))
    ensures c in NumberColumns ==> ToNumber(Get(f, i, c)).Success?
    ensures c in NumberColumns ==> Get(AssignTypes(f).value, i, c) == ToNumber(Get(f, i, c)).value
    ensures c !in TextColumns && c !in NumberColumns ==> Get(AssignTypes(f).value, i, c) == Get(f, i, c)
  {
    var g := TextColumnsOf(f, TextColumns);
    NumberColumnsGet(g, NumberColumns, i, c);
    TextColumnsGet(f, TextColumns, i, c);
    ColumnsApart(c);
  }

  // ---------------------------------------------------------------------
  // surrogate keys

  function KeyCells(keys: seq<nat>): (col: seq<Cell>)
    ensures |col| == |keys| && forall i | 0 <= i < |keys| :: col[i] == Num(keys[i] as real)
  {
    Map((k: nat) => Num(k as real), keys)
  }

  lemma KeyCellsApart(a: nat, b: nat)
    ensures Num(a as real) == Num(b as real) <==> a == b
  {
  }

  /** The (site, hole) pair of every row. */
  function HolePairs(f: Frame): (ps: seq<(Cell, Cell)>)
    ensures |ps| == |f.rows| && forall i | 0 <= i < |f.rows| :: ps[i] == (Get(f, i, "site"), Get(f, i, "hole"))
  {
    seq(|f.rows|, i requires 0 <= i < |f.rows| => (Get(f, i, "site"), Get(f, i, "hole")))
  }

  /** `hole_key` numbers the distinct (site, hole) pairs and `site_key` the
      distinct sites, both in order of first appearance; the left merges
      on unique keys keep every row in place; then the published columns
      are selected. */
  function AddKeys(f: Frame): (r: Result<Frame>)
    ensures r.Success? ==> r.value.columns == OutColumns && |r.value.rows| == |f.rows|
  {
    var withHole := SetColumn(f, "hole_key", KeyCells(SampleKeys(HolePairs(f))));
    var g := SetColumn(withHole, "site_key", KeyCells(SampleKeys(Column(f, "site"))));
    Select(g, OutColumns)
  }

  /** Keys can be added to any table with the canonical columns. */
  lemma AddKeysOk(f: Frame)
    requires forall c | c in StdColumns :: c in f.columns
    ensures AddKeys(f).Success?
  {
    assert OutColumns == ["hole_key", "site_key"] + StdColumns;
  }

  lemma AddKeysGet(f: Frame, i: nat, c: string)
    requires AddKeys(f).Success? && i < |f.rows|
    ensures var g := AddKeys(f).value;
      Get(g, i, "hole_key") == Num(SampleKeys(HolePairs(f))[i] as real) &&
      Get(g, i, "site_key") == Num(SampleKeys(Column(f, "site"))[i] as real) &&
      (c in OutColumns && c != "hole_key" && c != "site_key" ==> Get(g, i, c) == Get(f, i, c))
  {
  }

  /** Two rows share a hole key exactly when they share site and hole. */
  lemma HoleKeysMatch(f: Frame, i: nat, j: nat)
    requires AddKeys(f).Success? && i < |f.rows| && j < |f.rows|
    ensures var g := AddKeys(f).value;
      Get(g, i, "hole_key") == Get(g, j, "hole_key") <==>
      Get(f, i, "site") == Get(f, j, "site") && Get(f, i, "hole") == Get(f, j, "hole")
  {
    var ps := HolePairs(f);
    var keys := SampleKeys(ps);
    AddKeysGet(f, i, "site");
    AddKeysGet(f, j, "site");
    KeysMatchTuples(ps, i, j);
    KeyCellsApart(keys[i], keys[j]);
  }

  /** Two rows share a site key exactly when they share the site. */
  lemma SiteKeysMatch(f: Frame, i: nat, j: nat)
    requires AddKeys(f).Success? && i < |f.rows| && j < |f.rows|
    ensures var g := AddKeys(f).value;
      Get(g, i, "site_key") == Get(g, j, "site_key") <==> Get(f, i, "site") == Get(f, j, "site")
  {
    var col := Column(f, "site");
    var keys := SampleKeys(col);
    AddKeysGet(f, i, "site");
    AddKeysGet(f, j, "site");
    KeysMatchTuples(col, i, j);
    assert col[i] == Get(f, i, "site") && col[j] == Get(f, j, "site");
    KeyCellsApart(keys[i], keys[j]);
  }

  /** The hole keys are 0, 1, ... with no gap: every number below the
      count of distinct holes is some row's key. */
  lemma HoleKeysDense(f: Frame, k: nat)
    requires AddKeys(f).Success? && k < |Distinct(HolePairs(f))|
    ensures exists i | 0 <= i < |f.rows| :: Get(AddKeys(f).value, i, "hole_key") == Num(k as real)
  {
    KeysDense(HolePairs(f), k);
    var i :| 0 <= i < |f.rows| && SampleKeys(HolePairs(f))[i] == k;
    AddKeysGet(f, i, "site");
  }

  // ---------------------------------------------------------------------
  // the whole compilation

  /** `pd.concat` of the four canonical tables. */
  function Stacked(d: Frame, o: Frame, i: Frame, c: Frame): (h: Frame)
    requires d.columns == StdColumns && o.columns == StdColumns
    requires i.columns == StdColumns && c.columns == StdColumns
    ensures h.columns == StdColumns && |h.rows| == |d.rows| + |o.rows| + |i.rows| + |c.rows|
  {
    StackedShape(d, o, i, c);
    ConcatAll([d, o, i, c])
  }

  lemma StackedShape(d: Frame, o: Frame, i: Frame, c: Frame)
    requires d.columns == StdColumns && o.columns == StdColumns
    requires i.columns == StdColumns && c.columns == StdColumns
    ensures ConcatAll([d, o, i, c]).columns == StdColumns
    ensures TotalRows([d, o, i, c]) == |d.rows| + |o.rows| + |i.rows| + |c.rows|
  {
    var fs := [d, o, i, c];
    StdColumnsDistinct();
    ConcatAllColumns(fs, StdColumns);
    assert fs[..3] == [d, o, i] && [d, o, i][..2] == [d, o] && [d, o][..1] == [d] && [d][..0] == [];
    assert TotalRows([d]) == |d.rows|;
    assert TotalRows([d, o]) == |d.rows| + |o.rows|;
    assert TotalRows([d, o, i]) == |d.rows| + |o.rows| + |i.rows|;
  }

  /** `compile_metadata`: the four summaries loaded in turn, the ODP and
      then the IODP coordinates converted, the tables stacked, corrected,
      typed and keyed. */
  function CompileMetadata(dsdp: Frame, odp: Frame, iodp: Frame, chikyu: Frame): (r: Result<Frame>)
    ensures r.Success? ==> r.value.columns == OutColumns
  {
    var d :- LoadDsdp(dsdp);
    var o :- LoadOdp(odp);
    var i :- LoadIodp(iodp);
    var c :- LoadChikyu(chikyu);
    var o2 :- WithCoordinates(o);
    var i2 :- WithCoordinates(i);
    var typed :- AssignTypes(Corrected(Stacked(d, o2, i2, c)));
    AddKeys(typed)
  }

  /** The hole table has one row for every row the four loaders kept, and
      it is produced whenever the loaders, the coordinate conversions and
      the typing succeed. */
  lemma CompileMetadataRows(dsdp: Frame, odp: Frame, iodp: Frame, chikyu: Frame)
    requires CompileMetadata(dsdp, odp, iodp, chikyu).Success?
    ensures |CompileMetadata(dsdp, odp, iodp, chikyu).value.rows| ==
      |LoadDsdp(dsdp).value.rows| + |LoadOdp(odp).value.rows| +
      |LoadIodp(iodp).value.rows| + |LoadChikyu(chikyu).value.rows|
  {
    var d, o, i, c := LoadDsdp(dsdp).value, LoadOdp(odp).value, LoadIodp(iodp).value, LoadChikyu(chikyu).value;
    var o2, i2 := WithCoordinates(o).value, WithCoordinates(i).value;
    var typed := AssignTypes(Corrected(Stacked(d, o2, i2, c))).value;
    assert CompileMetadata(dsdp, odp, iodp, chikyu) == AddKeys(typed);
  }
}
