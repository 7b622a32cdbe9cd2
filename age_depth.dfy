/** Biostratigraphic age-depth points (age_depth.py): DSDP interval tables
    reshaped into points, ODP point tables, ODP age profiles, each joined to
    the site keys of the hole metadata. Ages are stored in years. */
module AgeDepth {
  import opened Wrappers
  import opened Seqs
  import opened Frames
  import opened Keys
  import opened Units
  import opened Sorting
  import Text

  // ---------------------------------------------------------------------
  // site keys

  /** One row of `hole_metadata[['site_key', 'site']]`. */
  datatype SiteKey = SiteKey(key: Cell, site: Cell)

  /** `hole_metadata[['site_key', 'site']]`, one entry per metadata row,
      that is one per hole: a KeyError when either column is absent. */
  function SiteKeyRows(meta: Frame): (r: Result<seq<SiteKey>>)
    ensures r.Success? <==> "site_key" in meta.columns && "site" in meta.columns
    ensures r.Success? ==> |r.value| == |meta.rows|
    ensures r.Success? ==> forall i | 0 <= i < |meta.rows| ::
      r.value[i] == SiteKey(Get(meta, i, "site_key"), Get(meta, i, "site"))
  {
    if "site_key" in meta.columns && "site" in meta.columns then
      Success(Map((r: Row) => SiteKey(Value(meta.columns, r, "site_key"), Value(meta.columns, r, "site")), meta.rows))
    else Failure("KeyError: site_key, site")
  }

  /** The site table the joins are meant to use: each (site_key, site)
      pair once, in order of first occurrence. */
  function SiteTable(meta: Frame): (r: Result<seq<SiteKey>>)
    ensures r.Success? <==> SiteKeyRows(meta).Success?
    ensures r.Success? ==> r.value == Distinct(SiteKeyRows(meta).value)
  {
    var rows :- SiteKeyRows(meta);
    Success(Distinct(rows))
  }

  function Sites(t: seq<SiteKey>): (s: seq<Cell>)
    ensures |s| == |t| && forall k | 0 <= k < |t| :: s[k] == t[k].site
  {
    Map((e: SiteKey) => e.site, t)
  }

  /** The metadata gives each site one key (as `compile_metadata` numbers
      them). */
  predicate OneKeyPerSite(t: seq<SiteKey>) {
    forall i, j | 0 <= i < |t| && 0 <= j < |t| && t[i].site == t[j].site :: t[i].key == t[j].key
  }

  /** When the metadata gives each site one key, the distinct pairs name
      each site once. */
  lemma SiteTableSitesDistinct(t: seq<SiteKey>)
    requires OneKeyPerSite(t)
    ensures NoDup(Sites(Distinct(t)))
  {
    var d := Distinct(t);
    DistinctFrom(t);
    forall i, j | 0 <= i < j < |d| ensures d[i].site != d[j].site {
      assert d[i] in t && d[j] in t;
      var a :| 0 <= a < |t| && t[a] == d[i];
      var b :| 0 <= b < |t| && t[b] == d[j];
      assert d[i] != d[j];
    }
  }

  // ---------------------------------------------------------------------
  // the inner join on site

  /** The data rows whose site is `site`, in order. */
  function Matches(site: Cell, sites: seq<Cell>): seq<nat> {
    Filter(AtSite(site, sites), Indices(|sites|))
  }

  /** The test `data.site == site` on a data row position. */
  function AtSite(site: Cell, sites: seq<Cell>): nat -> bool {
    (i: nat) => i < |sites| && sites[i] == site
  }

  /** `pd.merge(site_keys, data, how='inner', on='site')` row by row: for
      each site-table entry in order, the data rows at its site. A pair is
      (entry, data row). */
  function JoinPlan(t: seq<SiteKey>, sites: seq<Cell>): seq<(nat, nat)> {
    if |t| == 0 then []
    else JoinPlan(t[..|t| - 1], sites) + Pairs(|t| - 1, Matches(t[|t| - 1].site, sites))
  }

  /** Entry `e` paired with each of the data rows `ms`. */
  function Pairs(e: nat, ms: seq<nat>): (ps: seq<(nat, nat)>)
    ensures |ps| == |ms| && forall k | 0 <= k < |ms| :: ps[k] == (e, ms[k])
  {
    Map((i: nat) => (e, i), ms)
  }

  /** Data row `i`, padded to the header, after the site key. */
  function Joined(t: seq<SiteKey>, data: Frame, pr: (nat, nat)): Row {
    var key := if pr.0 < |t| then t[pr.0].key else Missing;
    var r := if pr.1 < |data.rows| then data.rows[pr.1] else [];
    [key] + seq(|data.columns|, k requires 0 <= k < |data.columns| => At(r, k))
  }

  /** The joined table: the site key in front of the data columns (the
      loaders reorder the columns right after the join). */
  function SiteJoin(t: seq<SiteKey>, data: Frame): (j: Frame)
    ensures j.columns == ["site_key"] + data.columns
    ensures |j.rows| == |JoinPlan(t, Column(data, "site"))|
  {
    var plan := JoinPlan(t, Column(data, "site"));
    Frame(["site_key"] + data.columns, Map((pr: (nat, nat)) => Joined(t, data, pr), plan))
  }

  lemma {:induction false} MatchesMembers(site: Cell, sites: seq<Cell>)
    ensures forall i: nat :: i in Matches(site, sites) <==> i < |sites| && sites[i] == site
  {
    var keep := AtSite(site, sites);
    FilterMembers(keep, Indices(|sites|));
    forall i: nat ensures i in Indices(|sites|) <==> i < |sites| {
      if i < |sites| {
        assert Indices(|sites|)[i] == i;
      }
    }
  }

  /** The plan pairs exactly the entries and data rows that share a site. */
  lemma {:induction false} JoinPlanMembers(t: seq<SiteKey>, sites: seq<Cell>, e: nat, i: nat)
    ensures (e, i) in JoinPlan(t, sites) <==> e < |t| && i < |sites| && sites[i] == t[e].site
  {
    if |t| > 0 {
      var n := |t| - 1;
      var init := t[..n];
      JoinPlanMembers(init, sites, e, i);
      MatchesMembers(t[n].site, sites);
      var ms := Matches(t[n].site, sites);
      var tail := Pairs(n, ms);
      assert JoinPlan(t, sites) == JoinPlan(init, sites) + tail;
      if (e, i) in tail {
        var k :| 0 <= k < |ms| && tail[k] == (e, i);
        assert ms[k] in ms;
      }
      if e == n && i < |sites| && sites[i] == t[e].site {
        assert i in ms;
        var k :| 0 <= k < |ms| && ms[k] == i;
        assert tail[k] == (e, i);
      }
      if e < n {
        assert init[e] == t[e];
      }
    }
  }

  /** The data rows the plan uses, in order. */
  function Used(plan: seq<(nat, nat)>): seq<nat> {
    Map((pr: (nat, nat)) => pr.1, plan)
  }

  lemma UsedAppend(a: seq<(nat, nat)>, b: seq<(nat, nat)>)
    ensures Used(a + b) == Used(a) + Used(b)
  {
    assert forall k | 0 <= k < |a + b| :: Used(a + b)[k] == (a + b)[k].1;
  }

  lemma {:induction false} MatchesCount(site: Cell, sites: seq<Cell>, n: nat, i: nat)
    requires n <= |sites|
    ensures Count(Filter(AtSite(site, sites), Indices(n)), i) == if i < n && sites[i] == site then 1 else 0
  {
    var keep := AtSite(site, sites);
    if n > 0 {
      var ix := Indices(n);
      assert ix[..n - 1] == Indices(n - 1);
      MatchesCount(site, sites, n - 1, i);
      var f := Filter(keep, Indices(n - 1));
      var last: seq<nat> := if keep(n - 1) then [n - 1] else [];
      assert Filter(keep, ix) == f + last;
      CountAppend(f, last, i);
      assert Count(last, i) == if i == n - 1 && sites[i] == site then 1 else 0 by {
        if keep(n - 1) {
          assert last[..0] == [];
        }
      }
    }
  }

  /** The plan for a table is the plan for all but its last entry, then
      the last entry's matches. */
  lemma JoinPlanLast(t: seq<SiteKey>, sites: seq<Cell>)
    requires |t| > 0
    ensures Used(JoinPlan(t, sites)) == Used(JoinPlan(t[..|t| - 1], sites)) + Matches(t[|t| - 1].site, sites)
  {
    var n := |t| - 1;
    var tail := Pairs(n, Matches(t[n].site, sites));
    UsedAppend(JoinPlan(t[..n], sites), tail);
    assert Used(tail) == Matches(t[n].site, sites);
  }

  lemma SitesLast(t: seq<SiteKey>, x: Cell)
    requires |t| > 0
    ensures Count(Sites(t), x) == Count(Sites(t[..|t| - 1]), x) + if t[|t| - 1].site == x then 1 else 0
  {
    var n := |t| - 1;
    assert Sites(t)[..n] == Sites(t[..n]);
  }

  /** A data row is used once for every site-table entry at its site. */
  lemma {:induction false} JoinPlanCount(t: seq<SiteKey>, sites: seq<Cell>, i: nat)
    requires i < |sites|
    ensures Count(Used(JoinPlan(t, sites)), i) == Count(Sites(t), sites[i])
  {
    if |t| > 0 {
      var n := |t| - 1;
      var init := t[..n];
      JoinPlanCount(init, sites, i);
      JoinPlanLast(t, sites);
      CountAppend(Used(JoinPlan(init, sites)), Matches(t[n].site, sites), i);
      MatchesCount(t[n].site, sites, |sites|, i);
      SitesLast(t, sites[i]);
    }
  }

  /** Row `n` of the join is a data row whose site is the entry's site,
      with the entry's key in front: every data column keeps its value. */
  lemma SiteJoinGet(t: seq<SiteKey>, data: Frame, n: nat, c: string)
    requires n < |SiteJoin(t, data).rows|
    ensures var pr := JoinPlan(t, Column(data, "site"))[n];
      pr.0 < |t| && pr.1 < |data.rows| && Get(data, pr.1, "site") == t[pr.0].site &&
      Get(SiteJoin(t, data), n, "site_key") == t[pr.0].key &&
      (c != "site_key" ==> Get(SiteJoin(t, data), n, c) == Get(data, pr.1, c))
  {
    var sites := Column(data, "site");
    var plan := JoinPlan(t, sites);
    var pr := plan[n];
    assert pr in plan;
    JoinPlanMembers(t, sites, pr.0, pr.1);
    var j := SiteJoin(t, data);
    assert j.rows[n] == Joined(t, data, pr);
    KeyedGet(j, data, n, pr.1, t[pr.0].key, c);
  }

  /** A row made of a key in front of a data row: the key under
      "site_key", the data row's cells under their own names. */
  lemma KeyedGet(j: Frame, data: Frame, n: nat, i: nat, key: Cell, c: string)
    requires j.columns == ["site_key"] + data.columns && n < |j.rows| && i < |data.rows|
    requires j.rows[n] == [key] + seq(|data.columns|, k requires 0 <= k < |data.columns| => At(data.rows[i], k))
    ensures Get(j, n, "site_key") == key
    ensures c != "site_key" ==> Get(j, n, c) == Get(data, i, c)
  {
    if c != "site_key" && c in data.columns {
      var k := Find(data.columns, c).value;
      FindFirst(data.columns, c);
      assert j.columns[1..] == data.columns;
      assert Find(j.columns, c) == Some(k + 1);
    } else if c != "site_key" {
      assert c !in j.columns;
    }
  }

  /** Data rows are kept once for every site-table entry at their site:
      a row whose site has no entry is dropped, and with a table that names
      each site once every other row appears exactly once. */
  lemma SiteJoinCopies(t: seq<SiteKey>, data: Frame, i: nat)
    requires i < |data.rows|
    ensures Count(Used(JoinPlan(t, Column(data, "site"))), i) == Count(Sites(t), Get(data, i, "site"))
    ensures NoDup(Sites(t)) ==>
      Count(Used(JoinPlan(t, Column(data, "site"))), i) == if Get(data, i, "site") in Sites(t) then 1 else 0
  {
    var s := Get(data, i, "site");
    JoinPlanCount(t, Column(data, "site"), i);
    if NoDup(Sites(t)) && s in Sites(t) {
      var k :| 0 <= k < |t| && Sites(t)[k] == s;
      CountOnce(Sites(t), k);
    }
  }

  lemma {:induction false} CountOnce<T>(s: seq<T>, k: nat)
    requires NoDup(s) && k < |s|
    ensures Count(s, s[k]) == 1
  {
    var n := |s| - 1;
    var init := s[..n];
    assert s == init + [s[n]];
    CountAppend(init, [s[n]], s[k]);
    if k < n {
      CountOnce(init, k);
    } else {
      assert s[k] !in init;
    }
  }

  /** Row `n` of the join, with its columns reordered to `names`: the site
      key of entry `e` and the cells of data row `i`, which share a site. */
  lemma JoinedGet(t: seq<SiteKey>, data: Frame, names: seq<string>, n: nat, c: string) returns (e: nat, i: nat)
    requires n < |SiteJoin(t, data).rows| && c in names
    ensures JoinPlan(t, Column(data, "site"))[n] == (e, i)
    ensures e < |t| && i < |data.rows| && Get(data, i, "site") == t[e].site
    ensures Get(Reindex(SiteJoin(t, data), names), n, c) == if c == "site_key" then t[e].key else Get(data, i, c)
  {
    var pr := JoinPlan(t, Column(data, "site"))[n];
    e, i := pr.0, pr.1;
    SiteJoinGet(t, data, n, c);
  }

  // ---------------------------------------------------------------------
  // the join as written

  /** The join in the source is made on `hole_metadata[['site_key',
      'site']]` itself, one row per hole. */
  function SiteJoinAsWritten(meta: Frame, data: Frame): (r: Result<Frame>)
    ensures r.Success? <==> "site_key" in meta.columns && "site" in meta.columns
    ensures r.Success? ==> r.value.columns == ["site_key"] + data.columns
    ensures r.Success? ==> |r.value.rows| == |JoinPlan(SiteKeyRows(meta).value, Column(data, "site"))|
  {
    var t :- SiteKeyRows(meta);
    Success(SiteJoin(t, data))
  }

  /** The join as intended: the distinct site pairs. */
  function SiteJoinIntended(meta: Frame, data: Frame): (r: Result<Frame>)
    ensures r.Success? <==> "site_key" in meta.columns && "site" in meta.columns
    ensures r.Success? ==> r.value.columns == ["site_key"] + data.columns
    ensures r.Success? ==> |r.value.rows| == |JoinPlan(Distinct(SiteKeyRows(meta).value), Column(data, "site"))|
  {
    var t :- SiteTable(meta);
    Success(SiteJoin(t, data))
  }

  /** A site with two holes, C and D, and one age pick at that site. */
  const TwoHoleMeta: Frame :=
    Frame(["site_key", "site", "hole"], [[Num(0.0), Str("1256"), Str("C")], [Num(0.0), Str("1256"), Str("D")]])
  const OnePick: Frame := Frame(["site", "depth"], [[Str("1256"), Num(10.0)]])

  lemma TwoHoleColumns()
    ensures NoDup(TwoHoleMeta.columns)
  {
  }

  lemma TwoHoleRows()
    ensures SiteKeyRows(TwoHoleMeta) == Success([SiteKey(Num(0.0), Str("1256")), SiteKey(Num(0.0), Str("1256"))])
  {
    var cols := TwoHoleMeta.columns;
    TwoHoleColumns();
    FindDistinct(cols, 0);
    FindDistinct(cols, 1);
    assert cols[0] == "site_key" && cols[1] == "site";
    var t := SiteKeyRows(TwoHoleMeta).value;
    assert |t| == 2;
    assert t[0] == SiteKey(At(TwoHoleMeta.rows[0], 0), At(TwoHoleMeta.rows[0], 1));
    assert t[1] == SiteKey(At(TwoHoleMeta.rows[1], 0), At(TwoHoleMeta.rows[1], 1));
    assert At(TwoHoleMeta.rows[0], 0) == Num(0.0) && At(TwoHoleMeta.rows[1], 0) == Num(0.0);
    assert At(TwoHoleMeta.rows[0], 1) == Str("1256") && At(TwoHoleMeta.rows[1], 1) == Str("1256");
    assert t == [SiteKey(Num(0.0), Str("1256")), SiteKey(Num(0.0), Str("1256"))];
  }

  /** As written, the one pick comes out once per hole of its site. */
  lemma SiteJoinDuplicates()
    ensures SiteJoinAsWritten(TwoHoleMeta, OnePick).Success?
    ensures |SiteJoinAsWritten(TwoHoleMeta, OnePick).value.rows| == 2
  {
    TwoHoleRows();
    var t := SiteKeyRows(TwoHoleMeta).value;
    var plan := JoinPlan(t, Column(OnePick, "site"));
    assert Count(Sites(t), Get(OnePick, 0, "site")) == 2 by {
      assert Get(OnePick, 0, "site") == Str("1256") by { FindDistinct(OnePick.columns, 0); }
      assert Sites(t) == [Str("1256"), Str("1256")];
    }
    assert Count(Used(plan), 0) == 2 by { SiteJoinCopies(t, OnePick, 0); }
    assert |plan| == 2 by { OnlyRow(t, OnePick); }
  }

  /** A one-row data table: every pair of the plan uses that row. */
  lemma OnlyRow(t: seq<SiteKey>, data: Frame)
    requires |data.rows| == 1
    ensures |JoinPlan(t, Column(data, "site"))| == Count(Used(JoinPlan(t, Column(data, "site"))), 0)
  {
    var plan := JoinPlan(t, Column(data, "site"));
    forall k | 0 <= k < |plan| ensures Used(plan)[k] == 0 {
      var pr := plan[k];
      assert pr in plan;
      JoinPlanMembers(t, Column(data, "site"), pr.0, pr.1);
    }
    CountAll(Used(plan), 0);
  }

  lemma {:induction false} CountAll<T>(s: seq<T>, x: T)
    requires forall k | 0 <= k < |s| :: s[k] == x
    ensures Count(s, x) == |s|
  {
    if |s| > 0 {
      CountAll(s[..|s| - 1], x);
    }
  }

  /** The intended join gives each pick once per site, whatever the
      number of holes: here, once. */
  lemma SiteJoinOnce()
    ensures SiteJoinIntended(TwoHoleMeta, OnePick).Success?
    ensures |SiteJoinIntended(TwoHoleMeta, OnePick).value.rows| == 1
  {
    var rows := SiteKeyRows(TwoHoleMeta).value;
    var e := SiteKey(Num(0.0), Str("1256"));
    TwoHoleRows();
    assert OneKeyPerSite(rows);
    var t := Distinct(rows);
    assert e in t;
    assert Str("1256") in Sites(t);
    SiteJoinIntendedCopies(TwoHoleMeta, OnePick, 0);
    OnlyRow(t, OnePick);
  }

  /** With metadata that gives each site one key, the intended join keeps
      each data row whose site the metadata knows exactly once, and drops
      the others. */
  lemma SiteJoinIntendedCopies(meta: Frame, data: Frame, i: nat)
    requires SiteTable(meta).Success? && OneKeyPerSite(SiteKeyRows(meta).value) && i < |data.rows|
    ensures var t := SiteTable(meta).value;
      Count(Used(JoinPlan(t, Column(data, "site"))), i) == if Get(data, i, "site") in Sites(t) then 1 else 0
  {
    SiteTableSitesDistinct(SiteKeyRows(meta).value);
    SiteJoinCopies(SiteTable(meta).value, data, i);
  }

  // ---------------------------------------------------------------------
  // shared cell operations

  /** Million years to years. */
  function Million(x: Cell): Result<Cell> {
    Scale(x, 1000000.0)
  }

  /** `replace('nan', np.nan)`. */
  function NanToMissing(x: Cell): (r: Cell)
    ensures r != Str("nan")
    ensures x != Str("nan") ==> r == x
  {
    if x == Str("nan") then Missing else x
  }

  // ---------------------------------------------------------------------
  // DSDP

  const DsdpSource: seq<string> :=
    ["leg", "site", "hole", "top of section depth(m)", "bottom of section depth(m)",
     "age top of section(million years)", "age bottom of section(million years)", "data source"]

  const DsdpNames: seq<string> :=
    ["leg", "site", "hole", "top_depth", "bottom_depth", "top_age", "bottom_age", "source"]

  const DsdpFull: seq<string> :=
    ["site_key", "leg", "site", "hole", "top_depth", "bottom_depth", "top_age", "bottom_age", "type", "source"]

  const TopColumns: seq<string> := ["site_key", "leg", "site", "hole", "top_depth", "top_age", "type", "source"]
  const BottomColumns: seq<string> := ["site_key", "leg", "site", "hole", "bottom_depth", "bottom_age", "type", "source"]
  const PointColumns: seq<string> := ["site_key", "leg", "site", "hole", "depth", "age", "type", "source"]

  /** The interval table: the eight source columns under short names, ages
      in years, every cell as text. */
  function DsdpIntervals(raw: Frame): (r: Result<Frame>)
    ensures r.Success? ==> r.value.columns == DsdpNames && |r.value.rows| == |raw.rows|
  {
    var f :- ConvertColumns(DsdpRenamed(raw), DsdpConversions);
    Success(MapCells(f, Textual))
  }

  /** An age in million years as the interval table holds it: in years,
      written as text, and "nan" when missing. */
  function AgeText(x: Cell): Cell {
    Textual(Years(x))
  }

  /** `astype(float)` on the age and depth columns written as text. */
  const PointReads: seq<Conversion> := [Conversion("age", ReadFloat), Conversion("depth", ReadFloat)]

  /** An age in million years in years; missing stays missing. */
  function Years(x: Cell): (r: Cell)
    ensures x.Num? ==> r == Num(x.x * 1000000.0)
    ensures !x.Num? ==> r.Missing?
  {
    if x.Num? then Num(x.x * 1000000.0) else Missing
  }

  /** An age written as text by the interval step reads back in years. */
  lemma ReadAgeText(x: Cell)
    ensures ReadFloat(AgeText(x)) == Success(Years(x))
  {
    ReadFloatTextual(Years(x));
  }

  lemma AgeTextMillion(x: Cell)
    requires Million(x).Success?
    ensures Textual(Million(x).value) == AgeText(x)
  {
  }

  lemma DsdpNamesDistinct()
    ensures NoDup(DsdpNames) && NoDup(DsdpSource)
  {
  }

  /** Renaming the columns of a header without repeats by position: the
      cell under the new name is the cell under the old one. */
  lemma RelabelGet(f: Frame, names: seq<string>, i: nat, k: nat)
    requires i < |f.rows| && k < |names| && k < |f.columns| && NoDup(names) && NoDup(f.columns)
    ensures Get(Frame(names, f.rows), i, names[k]) == Get(f, i, f.columns[k])
  {
    FindDistinct(names, k);
    FindDistinct(f.columns, k);
  }

  /** An interval's ages are the source ages in years, and a source age
      that is text stops the load. */
  lemma DsdpIntervalAges(raw: Frame, i: nat, top: bool)
    requires i < |raw.rows|
    ensures var src := if top then "age top of section(million years)" else "age bottom of section(million years)";
      var dst := if top then "top_age" else "bottom_age";
      (Get(raw, i, src).Str? ==> DsdpIntervals(raw).Failure?) &&
      (DsdpIntervals(raw).Success? ==>
        Get(DsdpIntervals(raw).value, i, dst) ==
          AgeText(Get(raw, i, src)))
  {
    var k := if top then 5 else 6;
    assert DsdpSource[5] == "age top of section(million years)" && DsdpNames[5] == "top_age";
    assert DsdpSource[6] == "age bottom of section(million years)" && DsdpNames[6] == "bottom_age";
    DsdpIntervalAge(raw, i, k);
  }

  lemma DsdpIntervalAge(raw: Frame, i: nat, k: nat)
    requires i < |raw.rows| && (k == 5 || k == 6)
    ensures (Get(raw, i, DsdpSource[k]).Str? ==> DsdpIntervals(raw).Failure?) &&
      (DsdpIntervals(raw).Success? ==>
        Get(DsdpIntervals(raw).value, i, DsdpNames[k]) == AgeText(Get(raw, i, DsdpSource[k])))
  {
    var f := DsdpRenamed(raw);
    DsdpRenamedGet(raw, i, k);
    DsdpConverted(f, i, k);
  }

  /** The source columns in order under their short names. */
  function DsdpRenamed(raw: Frame): (f: Frame)
    ensures f.columns == DsdpNames && |f.rows| == |raw.rows|
  {
    Frame(DsdpNames, Reindex(raw, DsdpSource).rows)
  }

  const DsdpConversions: seq<Conversion> := [Conversion("top_age", Million), Conversion("bottom_age", Million)]

  lemma DsdpRenamedGet(raw: Frame, i: nat, k: nat)
    requires i < |raw.rows| && k < 8
    ensures Get(DsdpRenamed(raw), i, DsdpNames[k]) == Get(raw, i, DsdpSource[k])
  {
    DsdpNamesDistinct();
    RelabelGet(Reindex(raw, DsdpSource), DsdpNames, i, k);
    assert DsdpSource[k] in DsdpSource;
  }

  lemma DsdpConverted(f: Frame, i: nat, k: nat)
    requires i < |f.rows| && (k == 5 || k == 6) && f.columns == DsdpNames
    ensures var h := ConvertColumns(f, DsdpConversions);
      (Get(f, i, DsdpNames[k]).Str? ==> h.Failure?) &&
      (h.Success? ==> Get(MapCells(h.value, Textual), i, DsdpNames[k]) == AgeText(Get(f, i, DsdpNames[k])))
  {
    var dst := DsdpNames[k];
    var x := Get(f, i, dst);
    var h := ConvertColumns(f, DsdpConversions);
    if h.Success? {
      assert Million(x).Success? && Get(MapCells(h.value, Textual), i, dst) == AgeText(x) by {
        DsdpConversionAt(k, x);
        ConvertColumnsAt(f, DsdpConversions, k - 5, i);
        AgeWritten(h.value, i, dst, x);
      }
    }
  }

  /** A cell holding an age converted to years, written as text. */
  lemma AgeWritten(g: Frame, i: nat, dst: string, x: Cell)
    requires i < |g.rows| && dst in g.columns
    requires Million(x).Success? && Get(g, i, dst) == Million(x).value
    ensures Get(MapCells(g, Textual), i, dst) == AgeText(x)
  {
    AgeTextMillion(x);
  }

  /** The two age columns are each converted once, from million years. */
  lemma DsdpConversionAt(k: nat, x: Cell)
    requires k == 5 || k == 6
    ensures DsdpConversions[k - 5].column == DsdpNames[k] && DsdpNames[k] in DsdpNames
    ensures DsdpConversions[k - 5].convert(x) == Million(x)
    ensures forall m | 0 <= m < 2 && m != k - 5 :: DsdpConversions[m].column != DsdpNames[k]
  {
  }

  /** `full_data.reindex(top columns).rename(top_depth -> depth, top_age ->
      age)` and the same for the bottom, stacked: each interval becomes two
      points, its top then (after all tops) its bottom. */
  function Points(full: Frame): (p: Frame)
    ensures |p.rows| == 2 * |full.rows|
  {
    Concat(Relabeled(full, TopColumns), Relabeled(full, BottomColumns))
  }

  /** One end of every interval, under the point column names. */
  function Relabeled(full: Frame, end: seq<string>): (f: Frame)
    ensures f.columns == PointColumns && |f.rows| == |full.rows|
  {
    Frame(PointColumns, Reindex(full, end).rows)
  }

  lemma RelabeledGet(full: Frame, end: seq<string>, i: nat, k: nat)
    requires i < |full.rows| && k < 8 && |end| == 8 && NoDup(end)
    ensures Get(Relabeled(full, end), i, PointColumns[k]) == Get(full, i, end[k])
  {
    PointColumnsDistinct();
    RelabelGet(Reindex(full, end), PointColumns, i, k);
    assert end[k] in end;
  }

  lemma PointColumnsDistinct()
    ensures NoDup(PointColumns) && NoDup(TopColumns) && NoDup(BottomColumns)
  {
  }

  /** Point `i` is interval `i` at its top depth and top age; point
      `n + i` is the same interval at its bottom depth and bottom age; the
      other columns are the interval's. */
  lemma PointsGet(full: Frame, i: nat, k: nat)
    requires i < |full.rows| && k < 8
    ensures var p, n := Points(full), |full.rows|;
      Get(p, i, PointColumns[k]) == Get(full, i, TopColumns[k]) &&
      Get(p, n + i, PointColumns[k]) == Get(full, i, BottomColumns[k])
  {
    PointsTop(full, i, k);
    PointsBottom(full, i, k);
  }

  lemma PointsTop(full: Frame, i: nat, k: nat)
    requires i < |full.rows| && k < 8
    ensures Get(Points(full), i, PointColumns[k]) == Get(full, i, TopColumns[k])
  {
    PointColumnsDistinct();
    ConcatLeft(Relabeled(full, TopColumns), Relabeled(full, BottomColumns), i, PointColumns[k]);
    RelabeledGet(full, TopColumns, i, k);
  }

  lemma PointsBottom(full: Frame, i: nat, k: nat)
    requires i < |full.rows| && k < 8
    ensures Get(Points(full), |full.rows| + i, PointColumns[k]) == Get(full, i, BottomColumns[k])
  {
    PointsBottomRow(full, i, PointColumns[k]);
    PointColumnsDistinct();
    RelabeledGet(full, BottomColumns, i, k);
  }

  lemma PointsBottomRow(full: Frame, i: nat, c: string)
    requires i < |full.rows|
    ensures Get(Points(full), |full.rows| + i, c) == Get(Relabeled(full, BottomColumns), i, c)
  {
    ConcatAfter(Relabeled(full, TopColumns), Relabeled(full, BottomColumns), |full.rows|, i, c);
  }

  lemma ConcatAfter(a: Frame, b: Frame, n: nat, i: nat, c: string)
    requires n == |a.rows| && i < |b.rows|
    ensures Get(Concat(a, b), n + i, c) == Get(b, i, c)
  {
    ConcatRight(a, b, i, c);
  }

  /** `load_dsdp_age_depth`: intervals joined to their site keys, split
      into points, depth and age read as numbers, sorted by site key and
      depth, and the text "nan" turned back into missing values. */
  function LoadDsdpAgeDepth(raw: Frame, meta: Frame): (r: Result<Frame>)
    ensures r.Success? ==> r.value.columns == PointColumns
    ensures !("site_key" in meta.columns && "site" in meta.columns) ==> r.Failure?
  {
    var f :- DsdpIntervals(raw);
    var full :- DsdpJoined(f, meta);
    var pts :- DsdpPointsRead(full);
    var sorted :- SortBy(pts, "site_key", "depth");
    Success(MapCells(sorted, NanToMissing))
  }

  function DsdpJoined(f: Frame, meta: Frame): Result<Frame> {
    var t :- SiteTable(meta);
    Success(Reindex(SiteJoin(t, f), DsdpFull))
  }

  function DsdpPointsRead(full: Frame): (r: Result<Frame>)
    ensures r.Success? ==> r.value.columns == PointColumns && |r.value.rows| == 2 * |full.rows|
  {
    UnionCovered(PointColumns, PointColumns);
    ConvertColumns(Points(full), PointReads)
  }

  /** A row of a permutation of `pts` is a row of `pts`. */
  lemma SortedFrom(pts: Frame, sorted: Frame, i: nat) returns (m: nat)
    requires multiset(sorted.rows) == multiset(pts.rows) && i < |sorted.rows| && sorted.columns == pts.columns
    ensures m < |pts.rows| && forall c :: Get(sorted, i, c) == Get(pts, m, c)
  {
    assert sorted.rows[i] in multiset(pts.rows);
    m :| 0 <= m < |pts.rows| && pts.rows[m] == sorted.rows[i];
  }

  /** Sorting and then turning "nan" back into missing values: the key
      columns hold no text, so the order survives, and every row is a row
      of the input with its "nan" cells emptied. */
  lemma SortCleaned(pts: Frame, a: string, b: string)
    requires SortBy(pts, a, b).Success?
    ensures var out := MapCells(SortBy(pts, a, b).value, NanToMissing);
      |out.rows| == |pts.rows| && out.columns == pts.columns && OrderedBy(out, a, b)
  {
    var sorted := SortBy(pts, a, b).value;
    var out := MapCells(sorted, NanToMissing);
    SortByOrdered(pts, a, b);
    forall i | 0 <= i < |sorted.rows| ensures Get(out, i, a) == Get(sorted, i, a) && Get(out, i, b) == Get(sorted, i, b) {
      var m := SortedFrom(pts, sorted, i);
    }
  }

  /** A row of the cleaned, sorted table is a row of the input with its
      "nan" cells emptied. */
  lemma SortCleanedFrom(pts: Frame, a: string, b: string, k: nat) returns (m: nat)
    requires SortBy(pts, a, b).Success? && k < |pts.rows|
    ensures |SortBy(pts, a, b).value.rows| == |pts.rows| && m < |pts.rows|
    ensures forall c | c in pts.columns :: Get(MapCells(SortBy(pts, a, b).value, NanToMissing), k, c) == NanToMissing(Get(pts, m, c))
  {
    var sorted := SortBy(pts, a, b).value;
    SortByOrdered(pts, a, b);
    m := SortedFrom(pts, sorted, k);
  }

  lemma LoadDsdpSteps(raw: Frame, meta: Frame)
    requires LoadDsdpAgeDepth(raw, meta).Success?
    ensures var pts := DsdpPointsRead(DsdpJoined(DsdpIntervals(raw).value, meta).value).value;
      SortBy(pts, "site_key", "depth").Success? &&
      LoadDsdpAgeDepth(raw, meta).value == MapCells(SortBy(pts, "site_key", "depth").value, NanToMissing) &&
      |LoadDsdpAgeDepth(raw, meta).value.rows| == |pts.rows|
  {
    var f := DsdpIntervals(raw).value;
    var full := DsdpJoined(f, meta).value;
    var pts := DsdpPointsRead(full).value;
    assert LoadDsdpAgeDepth(raw, meta) == Success(MapCells(SortBy(pts, "site_key", "depth").value, NanToMissing));
  }

  /** The DSDP table holds two points per joined interval, ordered by site
      key and then depth, missing depths last. */
  lemma DsdpAgeDepthSorted(raw: Frame, meta: Frame)
    requires LoadDsdpAgeDepth(raw, meta).Success?
    ensures var out := LoadDsdpAgeDepth(raw, meta).value;
      |out.rows| == 2 * |DsdpJoined(DsdpIntervals(raw).value, meta).value.rows| &&
      out.columns == PointColumns && OrderedBy(out, "site_key", "depth")
  {
    var full := DsdpJoined(DsdpIntervals(raw).value, meta).value;
    SortCleaned(DsdpPointsRead(full).value, "site_key", "depth");
  }

  /** Every row of the DSDP table is one of the read points, with the text
      "nan" turned back into missing values. */
  lemma DsdpPointOrigin(raw: Frame, meta: Frame, k: nat) returns (m: nat)
    requires LoadDsdpAgeDepth(raw, meta).Success? && k < |LoadDsdpAgeDepth(raw, meta).value.rows|
    ensures var pts := DsdpPointsRead(DsdpJoined(DsdpIntervals(raw).value, meta).value).value;
      m < |pts.rows| &&
      forall c | c in PointColumns :: Get(LoadDsdpAgeDepth(raw, meta).value, k, c) == NanToMissing(Get(pts, m, c))
  {
    var full := DsdpJoined(DsdpIntervals(raw).value, meta).value;
    var pts := DsdpPointsRead(full).value;
    LoadDsdpSteps(raw, meta);
    m := SortCleanedFrom(pts, "site_key", "depth", k);
  }
}
