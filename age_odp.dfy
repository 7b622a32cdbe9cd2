/** The ODP age-depth tables (age_depth.py): the point table of picks and
    the age profiles, each joined to the site keys of the hole metadata. */
module AgeOdp {
  import opened Wrappers
  import opened Seqs
  import opened Frames
  import opened Units
  import opened AgeDepth
  import Text

  // ---------------------------------------------------------------------
  // ODP point table

  /** The export's seven columns, named by position. */
  const OdpNames: seq<string> := ["leg", "site", "hole", "source", "depth", "age", "type"]
  const OdpOrder: seq<string> := ["leg", "site", "hole", "depth", "age", "type", "source"]

  lemma OdpNamesDistinct()
    ensures NoDup(OdpNames)
    ensures forall k | 0 <= k < 7 :: OdpNames[k] in OdpOrder
  {
  }

  /** The columns named by position (a length mismatch when the export
      does not have seven), put in order, the age in years (a TypeError on
      text), then every cell as text. */
  function OdpPrepared(raw: Frame): (r: Result<Frame>)
    ensures r.Success? ==> r.value.columns == OdpOrder && |r.value.rows| == |raw.rows|
  {
    var f :- SetColumns(raw, OdpNames);
    var g :- MapColumnChecked(Reindex(f, OdpOrder), "age", Million);
    Success(MapCells(g, Textual))
  }

  /** The renamed, reordered cell in column `OdpNames[k]` is the export's
      `k`-th cell. */
  lemma OdpNamed(raw: Frame, i: nat, k: nat)
    requires |raw.columns| == 7 && i < |raw.rows| && k < 7
    ensures Get(Reindex(Frame(OdpNames, raw.rows), OdpOrder), i, OdpNames[k]) == At(raw.rows[i], k)
  {
    OdpNamesDistinct();
    FindDistinct(OdpNames, k);
  }

  /** The load stops exactly when the export has not seven columns or an
      age holds text. */
  lemma OdpPreparedOk(raw: Frame)
    ensures OdpPrepared(raw).Success? <==>
      |raw.columns| == 7 && forall i | 0 <= i < |raw.rows| :: !At(raw.rows[i], 5).Str?
  {
    if |raw.columns| == 7 {
      assert OdpNames[5] == "age";
      forall i | 0 <= i < |raw.rows| ensures Get(Reindex(Frame(OdpNames, raw.rows), OdpOrder), i, "age") == At(raw.rows[i], 5) {
        OdpNamed(raw, i, 5);
      }
    }
  }

  /** The prepared ages are the export's ages in years ("nan" when
      missing); every other column is the export's cell as text. */
  lemma OdpPreparedGet(raw: Frame, i: nat, k: nat)
    requires OdpPrepared(raw).Success? && i < |raw.rows| && k < 7
    ensures Get(OdpPrepared(raw).value, i, OdpNames[k]) ==
      if k == 5 then AgeText(At(raw.rows[i], 5)) else Textual(At(raw.rows[i], k))
  {
    var f := Reindex(Frame(OdpNames, raw.rows), OdpOrder);
    var g := MapColumnChecked(f, "age", Million).value;
    OdpNamed(raw, i, k);
    OdpNamesDistinct();
    assert OdpNames[k] in g.columns;
    assert OdpNames[5] == "age";
    if k == 5 {
      AgeTextMillion(At(raw.rows[i], 5));
    } else {
      assert OdpNames[k] != "age" by {
        FindDistinct(OdpNames, k);
        FindDistinct(OdpNames, 5);
      }
    }
  }

  /** `load_odp_age_depth`: the prepared picks joined to their site keys,
      in point order, depth and age read back as numbers. */
  function LoadOdpAgeDepth(raw: Frame, meta: Frame): (r: Result<Frame>)
    ensures r.Success? ==> r.value.columns == PointColumns
  {
    var f :- OdpPrepared(raw);
    var t :- SiteTable(meta);
    ConvertColumns(Reindex(SiteJoin(t, f), PointColumns), PointReads)
  }

  /** A column of the joined picks after the reads. */
  lemma OdpRead(j: Frame, n: nat, c: string)
    requires ConvertColumns(j, PointReads).Success? && n < |j.rows|
    ensures c == "age" || c == "depth" ==> ReadFloat(Get(j, n, c)).Success?
    ensures Get(ConvertColumns(j, PointReads).value, n, c) ==
      if c == "age" || c == "depth" then ReadFloat(Get(j, n, c)).value else Get(j, n, c)
  {
    if c == "age" || c == "depth" {
      var k := if c == "age" then 0 else 1;
      assert PointReads[k].column == c && PointReads[k].convert == ReadFloat && PointReads[1 - k].column != c;
      ConvertColumnsAt(j, PointReads, k, n);
    } else {
      ConvertColumnsGet(j, PointReads, n, c);
      ConvertedUnlisted(PointReads, c, Get(j, n, c));
    }
  }

  /** Row `n` of the ODP table is pick `i` of the export at a site the
      metadata knows, with that site's key: its age in years and its depth
      read as a number. */
  lemma OdpPoint(raw: Frame, meta: Frame, n: nat) returns (e: nat, i: nat)
    requires LoadOdpAgeDepth(raw, meta).Success? && n < |LoadOdpAgeDepth(raw, meta).value.rows|
    ensures var t := SiteTable(meta).value;
      e < |t| && i < |raw.rows| &&
      JoinPlan(t, Column(OdpPrepared(raw).value, "site"))[n] == (e, i) &&
      Textual(At(raw.rows[i], 1)) == t[e].site &&
      Get(LoadOdpAgeDepth(raw, meta).value, n, "site_key") == t[e].key &&
      Get(LoadOdpAgeDepth(raw, meta).value, n, "age") == Years(At(raw.rows[i], 5)) &&
      ReadFloat(Textual(At(raw.rows[i], 4))).Success? &&
      Get(LoadOdpAgeDepth(raw, meta).value, n, "depth") == ReadFloat(Textual(At(raw.rows[i], 4))).value
  {
    var f := OdpPrepared(raw).value;
    var t := SiteTable(meta).value;
    var j := Reindex(SiteJoin(t, f), PointColumns);
    var out := LoadOdpAgeDepth(raw, meta).value;
    assert out == ConvertColumns(j, PointReads).value;
    assert PointColumns[0] == "site_key" && PointColumns[4] == "depth" && PointColumns[5] == "age";
    e, i := JoinedGet(t, f, PointColumns, n, "site_key");
    var e1, i1 := JoinedGet(t, f, PointColumns, n, "age");
    var e2, i2 := JoinedGet(t, f, PointColumns, n, "depth");
    assert i1 == i && i2 == i;
    OdpPreparedNamed(raw, i);
    assert Get(out, n, "site_key") == t[e].key by { OdpRead(j, n, "site_key"); }
    assert Get(out, n, "age") == Years(At(raw.rows[i], 5)) by {
      OdpRead(j, n, "age");
      ReadAgeText(At(raw.rows[i], 5));
    }
    OdpRead(j, n, "depth");
  }

  /** The site, depth and age cells of the prepared export, by name. */
  lemma OdpPreparedNamed(raw: Frame, i: nat)
    requires OdpPrepared(raw).Success? && i < |raw.rows|
    ensures var f := OdpPrepared(raw).value; var r := raw.rows[i];
      Get(f, i, "site") == Textual(At(r, 1)) && Get(f, i, "depth") == Textual(At(r, 4)) &&
      Get(f, i, "age") == AgeText(At(r, 5))
  {
    OdpPreparedGet(raw, i, 1);
    OdpPreparedGet(raw, i, 4);
    OdpPreparedGet(raw, i, 5);
  }

  /** With metadata that gives each site one key, each pick of the export
      appears once when the metadata knows its site and is dropped
      otherwise. */
  lemma OdpCopies(raw: Frame, meta: Frame, i: nat)
    requires OdpPrepared(raw).Success? && SiteTable(meta).Success? && OneKeyPerSite(SiteKeyRows(meta).value)
    requires i < |raw.rows|
    ensures var t := SiteTable(meta).value;
      Count(Used(JoinPlan(t, Column(OdpPrepared(raw).value, "site"))), i) ==
        if Textual(At(raw.rows[i], 1)) in Sites(t) then 1 else 0
  {
    SiteJoinIntendedCopies(meta, OdpPrepared(raw).value, i);
    assert OdpNames[1] == "site";
    OdpPreparedGet(raw, i, 1);
  }

  // ---------------------------------------------------------------------
  // ODP age profiles

  const ProfileTop := "Ageprofile Depth Top"
  const ProfileBase := "Ageprofile Depth Base"
  const ProfileOld := "Ageprofile Age Old"
  const ProfileSource: seq<string> := ["Leg", "Site", "Hole", "depth", "age", "Ageprofile Datum Description"]
  const ProfileNames: seq<string> := ["leg", "site", "hole", "depth", "age", "type"]
  const ProfileFull: seq<string> := ["site_key", "leg", "site", "hole", "depth", "age", "type"]

  /** A datum whose depth range spans less than one core length (10 m, and
      11 m to allow for expansion); a missing depth gives a missing
      difference, which is not below 11. */
  predicate InWindow(top: Cell, base: Cell) {
    top.Num? && base.Num? && base.x - top.x < 11.0
  }

  function InWindowRow(cols: seq<string>): Row -> bool {
    (r: Row) => InWindow(Value(cols, r, ProfileTop), Value(cols, r, ProfileBase))
  }

  /** `data.iloc[diff[diff < 11].index]` with `diff = base - top`: a
      KeyError without both depth columns, a TypeError when either holds
      text. */
  function DepthWindow(f: Frame): (r: Result<Frame>)
    ensures r.Success? <==>
      ProfileTop in f.columns && ProfileBase in f.columns && Sorting.NoText(f, ProfileTop) && Sorting.NoText(f, ProfileBase)
    ensures r.Success? ==> r.value == FilterRows(f, InWindowRow(f.columns))
  {
    if ProfileTop !in f.columns || ProfileBase !in f.columns then Failure("KeyError: Ageprofile Depth")
    else if !Sorting.NoText(f, ProfileTop) || !Sorting.NoText(f, ProfileBase) then
      Failure("TypeError: unsupported operand type(s) for -")
    else Success(FilterRows(f, InWindowRow(f.columns)))
  }

  /** The window keeps exactly the data whose depth range is below 11 m,
      in their original order: the `k`-th kept row is the `k`-th such row
      of the input. */
  lemma {:induction false} DepthWindowExact(f: Frame, k: nat, c: string)
    requires DepthWindow(f).Success?
    ensures var ix := KeptIndices(InWindowRow(f.columns), f.rows);
      |DepthWindow(f).value.rows| == |ix| &&
      (forall i | 0 <= i < |f.rows| && InWindow(Get(f, i, ProfileTop), Get(f, i, ProfileBase)) :: i in ix) &&
      (k < |ix| ==>
        InWindow(Get(f, ix[k], ProfileTop), Get(f, ix[k], ProfileBase)) &&
        Get(DepthWindow(f).value, k, c) == Get(f, ix[k], c))
  {
    var keep := InWindowRow(f.columns);
    FilterExact(keep, f.rows);
    if k < |KeptIndices(keep, f.rows)| {
      FilterRowsGet(f, keep, k, c);
    }
  }

  /** `.str.strip().replace('', np.nan).astype(float)` on one cell of the
      oldest-age column: a cell that is not text becomes missing. */
  function OldAge(x: Cell): (r: Result<Cell>)
    ensures r.Success? ==> !r.value.Str?
    ensures !x.Str? ==> r == Success(Missing)
    ensures x.Str? && Text.Strip(x.s) == "" ==> r == Success(Missing)
  {
    ToNumber(BlankToMissing(StripCell(x)))
  }

  /** The oldest-age column is checked, though the table never uses it: a
      KeyError when absent, an AttributeError when it held no text when
      read, a ValueError on text that is not a number. */
  function ReadOld(f: Frame, heldText: bool): (r: Result<Frame>)
    ensures r.Success? ==> r.value.columns == f.columns && |r.value.rows| == |f.rows|
    ensures r.Success? ==> forall i, d | 0 <= i < |f.rows| && d != ProfileOld :: Get(r.value, i, d) == Get(f, i, d)
  {
    if ProfileOld !in f.columns then Failure("KeyError: Ageprofile Age Old")
    else if !heldText then Failure("AttributeError: Can only use .str accessor with string values")
    else MapColumnChecked(f, ProfileOld, OldAge)
  }

  /** The midpoint of a depth range; missing when either end is. */
  function Mid(top: Cell, base: Cell): (r: Cell)
    ensures top.Num? && base.Num? ==> r == Num((top.x + base.x) / 2.0)
    ensures !(top.Num? && base.Num?) ==> r.Missing?
  {
    if top.Num? && base.Num? then Num((top.x + base.x) / 2.0) else Missing
  }

  function Mids(f: Frame): (m: seq<Cell>)
    ensures |m| == |f.rows|
  {
    seq(|f.rows|, i requires 0 <= i < |f.rows| => Mid(Get(f, i, ProfileTop), Get(f, i, ProfileBase)))
  }

  /** `data['depth']` and `data['age']` both set to the depth midpoint. */
  function WithMidpoints(f: Frame): (g: Frame)
    ensures |g.rows| == |f.rows| && "depth" in g.columns && "age" in g.columns
  {
    var d := SetColumn(f, "depth", Mids(f));
    SetColumn(d, "age", Mids(f))
  }

  lemma WithMidpointsGet(f: Frame, i: nat)
    requires i < |f.rows|
    ensures var m := Mid(Get(f, i, ProfileTop), Get(f, i, ProfileBase));
      Get(WithMidpoints(f), i, "depth") == m && Get(WithMidpoints(f), i, "age") == m
  {
  }

  /** `data.columns.str.strip()`. */
  function StripHeaders(f: Frame): (h: Frame)
    ensures |h.columns| == |f.columns| && h.rows == f.rows
  {
    Frame(Map(Text.Strip, f.columns), f.rows)
  }

  /** A column whose name is already stripped keeps its cells, as long as
      the stripped header repeats no name. */
  lemma StripHeadersGet(f: Frame, i: nat, c: string)
    requires NoDup(StripHeaders(f).columns) && i < |f.rows| && c in f.columns && Text.Strip(c) == c
    ensures c in StripHeaders(f).columns && Get(StripHeaders(f), i, c) == Get(f, i, c)
  {
    var k := Find(f.columns, c).value;
    var h := StripHeaders(f);
    assert h.columns[k] == c;
    FindDistinct(h.columns, k);
  }

  /** `.str.strip()` on a column: an AttributeError unless the column holds
      text. */
  function StripColumn(f: Frame, c: string): (r: Result<Frame>)
    requires c in f.columns
    ensures r.Success? ==> r.value.columns == f.columns && |r.value.rows| == |f.rows|
    ensures r.Success? ==> forall i, d | 0 <= i < |f.rows| && d != c :: Get(r.value, i, d) == Get(f, i, d)
  {
    if IsObject(Column(f, c)) then Success(MapColumn(f, c, StripCell))
    else Failure("AttributeError: Can only use .str accessor with string values")
  }

  lemma ProfileNamesDistinct()
    ensures NoDup(ProfileNames) && NoDup(ProfileSource) && NoDup(ProfileFull)
    ensures ProfileNames[1] == "site" && ProfileNames[2] == "hole" && ProfileNames[5] == "type"
    ensures ProfileNames[3] == "depth" && ProfileNames[4] == "age"
    ensures ProfileSource[3] == "depth" && ProfileSource[4] == "age"
  {
  }

  /** The profile columns under their short names: a header that repeats a
      name once stripped cannot be reindexed (a ValueError); hole and type
      are stripped and the site is written as text. */
  function ProfileTable(f: Frame): (r: Result<Frame>)
    ensures r.Success? ==> r.value.columns == ProfileNames && |r.value.rows| == |f.rows|
  {
    var h := StripHeaders(f);
    if !NoDup(h.columns) then Failure("ValueError: cannot reindex on an axis with duplicate labels")
    else
      ProfileNamesDistinct();
      CleanProfile(Frame(ProfileNames, Reindex(h, ProfileSource).rows))
  }

  /** Hole and type stripped, the site written as text. */
  function CleanProfile(g: Frame): (r: Result<Frame>)
    requires g.columns == ProfileNames
    ensures r.Success? ==> r.value.columns == ProfileNames && |r.value.rows| == |g.rows|
  {
    ProfileNamesDistinct();
    var g :- StripColumn(g, "hole");
    var g :- StripColumn(g, "type");
    Success(MapColumn(g, "site", Textual))
  }

  /** The cleaning leaves every other column alone. */
  lemma CleanProfileGet(g: Frame, i: nat, c: string)
    requires g.columns == ProfileNames && CleanProfile(g).Success? && i < |g.rows|
    requires c != "hole" && c != "type" && c != "site"
    ensures Get(CleanProfile(g).value, i, c) == Get(g, i, c)
  {
    ProfileNamesDistinct();
    var g1 := StripColumn(g, "hole").value;
    var g2 := StripColumn(g1, "type").value;
    assert Get(g1, i, c) == Get(g, i, c);
    assert Get(g2, i, c) == Get(g1, i, c);
  }

  /** The depth and age of the profile table are those of the input. */
  lemma ProfileTableGet(f: Frame, i: nat, k: nat)
    requires ProfileTable(f).Success? && i < |f.rows| && (k == 3 || k == 4)
    requires ProfileNames[k] in f.columns
    ensures Get(ProfileTable(f).value, i, ProfileNames[k]) == Get(f, i, ProfileNames[k])
  {
    var r := Reindex(StripHeaders(f), ProfileSource);
    ProfileTableRenamed(f, i, k);
    ProfileNamesDistinct();
    RelabelGet(r, ProfileNames, i, k);
    ProfileSourceGet(f, i, k);
  }

  lemma ProfileTableRenamed(f: Frame, i: nat, k: nat)
    requires ProfileTable(f).Success? && i < |f.rows| && (k == 3 || k == 4)
    ensures Get(ProfileTable(f).value, i, ProfileNames[k]) ==
      Get(Frame(ProfileNames, Reindex(StripHeaders(f), ProfileSource).rows), i, ProfileNames[k])
  {
    ProfileNamesDistinct();
    var g := Frame(ProfileNames, Reindex(StripHeaders(f), ProfileSource).rows);
    assert ProfileTable(f) == CleanProfile(g);
    var c := ProfileNames[k];
    assert c == "depth" || c == "age";
    CleanProfileGet(g, i, c);
  }

  lemma ProfileSourceGet(f: Frame, i: nat, k: nat)
    requires NoDup(StripHeaders(f).columns) && i < |f.rows| && (k == 3 || k == 4)
    requires ProfileNames[k] in f.columns
    ensures Get(Reindex(StripHeaders(f), ProfileSource), i, ProfileSource[k]) == Get(f, i, ProfileNames[k])
  {
    ProfileNamesDistinct();
    var c := ProfileNames[k];
    Text.StripKeeps(c);
    StripHeadersGet(f, i, c);
    assert ProfileSource[k] in ProfileSource;
  }

  /** `load_odp_age_profiles`: the depth window, the oldest-age check, the
      midpoints, the short names, the join to the site keys and the age in
      years. */
  function LoadOdpAgeProfiles(data: Frame, meta: Frame): (r: Result<Frame>)
    ensures r.Success? ==> r.value.columns == ProfileFull
  {
    var w :- DepthWindow(data);
    var w :- ReadOld(w, IsObject(Column(data, ProfileOld)));
    var p :- ProfileTable(WithMidpoints(w));
    var t :- SiteTable(meta);
    Success(ProfileJoined(t, p))
  }

  /** A row of the prepared profile, before the join, is the midpoint of a
      datum inside the depth window. */
  lemma ProfileWindowed(data: Frame, m: nat) returns (i: nat)
    requires DepthWindow(data).Success?
    requires ReadOld(DepthWindow(data).value, IsObject(Column(data, ProfileOld))).Success?
    requires m < |DepthWindow(data).value.rows|
    ensures i < |data.rows| && InWindow(Get(data, i, ProfileTop), Get(data, i, ProfileBase))
    ensures var w := ReadOld(DepthWindow(data).value, IsObject(Column(data, ProfileOld))).value;
      var mid := Mid(Get(data, i, ProfileTop), Get(data, i, ProfileBase));
      Get(WithMidpoints(w), m, "depth") == mid && Get(WithMidpoints(w), m, "age") == mid
  {
    var w1 := DepthWindow(data).value;
    var w := ReadOld(w1, IsObject(Column(data, ProfileOld))).value;
    DepthWindowExact(data, m, ProfileTop);
    DepthWindowExact(data, m, ProfileBase);
    i := KeptIndices(InWindowRow(data.columns), data.rows)[m];
    assert Get(w, m, ProfileTop) == Get(w1, m, ProfileTop);
    assert Get(w, m, ProfileBase) == Get(w1, m, ProfileBase);
    WithMidpointsGet(w, m);
  }

  /** The join of the profile table to the site keys, age in years. */
  function ProfileJoined(t: seq<SiteKey>, p: Frame): (out: Frame)
    ensures |out.rows| == |SiteJoin(t, p).rows|
  {
    ProfileNamesDistinct();
    MapColumn(Reindex(SiteJoin(t, p), ProfileFull), "age", Years)
  }

  lemma ProfileJoinedGet(t: seq<SiteKey>, p: Frame, n: nat) returns (e: nat, i: nat)
    requires n < |SiteJoin(t, p).rows|
    ensures e < |t| && i < |p.rows|
    ensures var out := ProfileJoined(t, p);
      Get(out, n, "site_key") == t[e].key && Get(out, n, "depth") == Get(p, i, "depth") &&
      Get(out, n, "age") == Years(Get(p, i, "age"))
  {
    ProfileNamesDistinct();
    assert ProfileFull[0] == "site_key" && ProfileFull[4] == "depth" && ProfileFull[5] == "age";
    e, i := JoinedGet(t, p, ProfileFull, n, "site_key");
    var e2, i2 := JoinedGet(t, p, ProfileFull, n, "depth");
    var e3, i3 := JoinedGet(t, p, ProfileFull, n, "age");
  }

  lemma ProfileSteps(data: Frame, meta: Frame)
    requires LoadOdpAgeProfiles(data, meta).Success?
    ensures var w := ReadOld(DepthWindow(data).value, IsObject(Column(data, ProfileOld))).value;
      LoadOdpAgeProfiles(data, meta).value == ProfileJoined(SiteTable(meta).value, ProfileTable(WithMidpoints(w)).value)
  {
  }

  /** Row `n` of the profile table is a datum `i` of the export whose depth
      range is below 11 m, at a site the metadata knows, with that site's
      key: its depth is the midpoint of the range and its age is that same
      midpoint times 1,000,000, as the source computes it. */
  lemma ProfilePoint(data: Frame, meta: Frame, n: nat) returns (e: nat, i: nat)
    requires LoadOdpAgeProfiles(data, meta).Success? && n < |LoadOdpAgeProfiles(data, meta).value.rows|
    ensures i < |data.rows|
    ensures var t := SiteTable(meta).value;
      var out := LoadOdpAgeProfiles(data, meta).value;
      var mid := Mid(Get(data, i, ProfileTop), Get(data, i, ProfileBase));
      e < |t| && i < |data.rows| && InWindow(Get(data, i, ProfileTop), Get(data, i, ProfileBase)) &&
      Get(out, n, "site_key") == t[e].key && Get(out, n, "depth") == mid && Get(out, n, "age") == Years(mid)
  {
    var w := ReadOld(DepthWindow(data).value, IsObject(Column(data, ProfileOld))).value;
    var wm := WithMidpoints(w);
    var p := ProfileTable(wm).value;
    ProfileSteps(data, meta);
    var i1: nat;
    e, i1 := ProfileJoinedGet(SiteTable(meta).value, p, n);
    ProfileNamesDistinct();
    ProfileTableGet(wm, i1, 3);
    ProfileTableGet(wm, i1, 4);
    i := ProfileWindowed(data, i1);
  }
}
