/** Canonicalisation shared by the straight-line loaders: rename the source
    headers through an exact map, project the canonical columns, strip the
    text columns and turn empty strings into missing values. */
module Canon {
  import opened Wrappers
  import opened Seqs
  import opened Frames

  /** What source column `h` contributes at row `i` once cleaned: stripped
      when the column holds text, and missing instead of an empty string. */
  function Cleaned(f: Frame, i: nat, h: string): Cell
    requires i < |f.rows|
  {
    BlankToMissing(if IsObject(Column(f, h)) then StripCell(Get(f, i, h)) else Get(f, i, h))
  }

  /** `df.rename(columns=renames)[names]` followed by the cleaning loop. */
  function Project(raw: Frame, renames: map<string, string>, names: seq<string>): (r: Result<Frame>)
    ensures r.Success? <==> forall c | c in names :: c in Rename(raw, renames).columns
    ensures r.Success? ==> r.value.columns == names && |r.value.rows| == |raw.rows|
  {
    var f :- Select(Rename(raw, renames), names);
    Success(StripTextColumns(f))
  }

  lemma SameColumn(a: Frame, c: string, b: Frame, d: string)
    requires |a.rows| == |b.rows|
    requires forall i | 0 <= i < |a.rows| :: Get(a, i, c) == Get(b, i, d)
    ensures Column(a, c) == Column(b, d)
  {
  }

  /** The canonical column a source header is renamed to holds that
      header's cleaned values, row for row (when the renamed header has no
      repeated names). */
  lemma ProjectGet(raw: Frame, renames: map<string, string>, names: seq<string>, h: string, i: nat)
    requires Project(raw, renames, names).Success?
    requires NoDup(Rename(raw, renames).columns)
    requires h in raw.columns && RenamedName(renames, h) in names && i < |raw.rows|
    ensures Get(Project(raw, renames, names).value, i, RenamedName(renames, h)) == Cleaned(raw, i, h)
  {
    var c := RenamedName(renames, h);
    var sel := Select(Rename(raw, renames), names).value;
    forall j | 0 <= j < |raw.rows| ensures Get(sel, j, c) == Get(raw, j, h) {
      RenameGet(raw, renames, h, j);
    }
    SameColumn(sel, c, raw, h);
    StripTextColumnsGet(sel, i, c);
  }

  /** A projection followed by one column conversion that may raise
      (`df[col] = df[col] / 100`, `df[col].astype(float) / 100`). */
  function ProjectConvert(raw: Frame, renames: map<string, string>, names: seq<string>,
                          col: string, g: Cell -> Result<Cell>): (r: Result<Frame>)
    ensures r.Success? ==> r.value.columns == names && |r.value.rows| == |raw.rows|
    ensures !(forall c | c in names :: c in Rename(raw, renames).columns) ==> r.Failure?
  {
    var f :- Project(raw, renames, names);
    MapColumnChecked(f, col, g)
  }

  /** Each canonical column holds its source header's cleaned values, the
      converted column after its conversion. */
  lemma ProjectConvertGet(raw: Frame, renames: map<string, string>, names: seq<string>,
                          col: string, g: Cell -> Result<Cell>, h: string, i: nat)
    requires ProjectConvert(raw, renames, names, col, g).Success?
    requires NoDup(Rename(raw, renames).columns)
    requires h in raw.columns && RenamedName(renames, h) in names && i < |raw.rows|
    ensures RenamedName(renames, h) == col ==> g(Cleaned(raw, i, h)).Success?
    ensures Get(ProjectConvert(raw, renames, names, col, g).value, i, RenamedName(renames, h)) ==
      if RenamedName(renames, h) == col then g(Cleaned(raw, i, h)).value else Cleaned(raw, i, h)
  {
    ProjectGet(raw, renames, names, h, i);
  }
}
