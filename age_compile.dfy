/** `compile_age_depth`: the DSDP, ODP, ODP-profile and IODP age-depth
    tables stacked into one, text cleaned and every cell rendered as text. */
module AgeCompile {
  import opened Wrappers
  import opened Frames
  import opened Units
  import AgeDepth
  import AgeOdp
  import AgeIodp

  /** `pd.concat((dsdp, odp, odp_p, iodp), sort=False)`. */
  function AgeTable(dsdp: Frame, odp: Frame, profiles: Frame, iodp: Frame): Frame {
    ConcatAll([dsdp, odp, profiles, iodp])
  }

  /** The object columns stripped, empty text made missing, then
      `applymap(str)`. In a column that holds text, `.str.strip()` gives
      NaN for a cell that is not text, so such a cell becomes missing and
      is then written "nan". */
  function Rendered(f: Frame): Frame {
    MapCells(StripTextColumns(f), Textual)
  }

  /** The compilation fails exactly when one of the four loaders fails. */
  function CompileAgeDepth(dsdpRaw: Frame, odpRaw: Frame, profileData: Frame,
                           books: seq<AgeIodp.Workbook>, meta: Frame): (r: Result<Frame>)
    ensures r.Success? <==> (AgeDepth.LoadDsdpAgeDepth(dsdpRaw, meta).Success? &&
      AgeOdp.LoadOdpAgeDepth(odpRaw, meta).Success? && AgeOdp.LoadOdpAgeProfiles(profileData, meta).Success? &&
      AgeIodp.LoadIodpAgeDepth(books, meta).Success?)
  {
    var a :- AgeDepth.LoadDsdpAgeDepth(dsdpRaw, meta);
    var b :- AgeOdp.LoadOdpAgeDepth(odpRaw, meta);
    var c :- AgeOdp.LoadOdpAgeProfiles(profileData, meta);
    var d :- AgeIodp.LoadIodpAgeDepth(books, meta);
    Success(Rendered(AgeTable(a, b, c, d)))
  }

  /** The compiled table has the four tables' rows, one after the other, and
      the stacked header: row `i` of table `j` is row `TotalRows(before j) +
      i`, each of its cells cleaned (stripped, and missing when it was empty
      or not text, in a text column) and then written as text, so that no
      compiled cell is missing or empty. */
  lemma AgeTableRows(a: Frame, b: Frame, c: Frame, d: Frame, j: nat, i: nat, col: string)
    requires j < 4 && i < |[a, b, c, d][j].rows| && col in AgeTable(a, b, c, d).columns
    ensures var fs := [a, b, c, d];
      var t := AgeTable(a, b, c, d);
      var out := Rendered(t);
      var n := TotalRows(fs[..j]) + i;
      out.columns == t.columns && |out.rows| == TotalRows(fs) && n < |out.rows| &&
      Get(out, n, col) == Textual(BlankToMissing(
        if IsObject(Column(t, col)) then StripCell(Get(fs[j], i, col)) else Get(fs[j], i, col))) &&
      Get(out, n, col) != Missing && Get(out, n, col) != Str("")
  {
    var fs := [a, b, c, d];
    var t := ConcatAll(fs);
    var n := TotalRows(fs[..j]) + i;
    ConcatAllGet(fs, j, i, col);
    RenderedGet(t, n, col);
  }

  /** A rendered cell: cleaned when its column is text, then written as
      text; never missing and never empty. */
  lemma RenderedGet(t: Frame, n: nat, col: string)
    requires n < |t.rows| && col in t.columns
    ensures var out := Rendered(t);
      out.columns == t.columns && |out.rows| == |t.rows| &&
      Get(out, n, col) == Textual(BlankToMissing(
        if IsObject(Column(t, col)) then StripCell(Get(t, n, col)) else Get(t, n, col))) &&
      Get(out, n, col) != Missing && Get(out, n, col) != Str("")
  {
    StripTextColumnsGet(t, n, col);
  }

  /** Every compiled row is a row of one of the four tables. */
  lemma AgeTableOrigin(a: Frame, b: Frame, c: Frame, d: Frame, n: nat) returns (j: nat, i: nat)
    requires n < |Rendered(AgeTable(a, b, c, d)).rows|
    ensures var fs := [a, b, c, d];
      j < 4 && i < |fs[j].rows| && n == TotalRows(fs[..j]) + i
  {
    j, i := RowOrigin([a, b, c, d], n);
  }
}
