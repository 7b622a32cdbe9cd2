/** The table model every loader works on: a frame is a header row and a
    sequence of data rows; a cell is missing (NaN), text, or a number. A row
    shorter than the header reads as missing in the columns it lacks, so
    every access by position or by name is total. */
module Frames {
  import opened Wrappers
  import opened Seqs
  import Text

  datatype Cell = Missing | Str(s: string) | Num(x: real)

  type Row = seq<Cell>

  datatype Frame = Frame(columns: seq<string>, rows: seq<Row>)

  function At(r: Row, k: nat): Cell {
    if k < |r| then r[k] else Missing
  }

  /** The position of the first column named `c`. */
  function Find(cols: seq<string>, c: string): (k: Option<nat>)
    ensures k.Some? ==> k.value < |cols| && cols[k.value] == c
    ensures k.None? <==> c !in cols
  {
    if |cols| == 0 then None
    else if cols[0] == c then Some(0)
    else match Find(cols[1..], c)
      case None => None
      case Some(j) => Some(j + 1)
  }

  /** `Find` gives the first position holding the name. */
  lemma {:induction false} FindFirst(cols: seq<string>, c: string)
    requires c in cols
    ensures c !in cols[..Find(cols, c).value]
  {
    if cols[0] != c {
      FindFirst(cols[1..], c);
      var j := Find(cols[1..], c).value;
      assert cols[..j + 1] == [cols[0]] + cols[1..][..j];
    }
  }

  /** In a header without repeated names, each name is found at its own
      position. */
  lemma {:induction false} FindDistinct(cols: seq<string>, k: nat)
    requires NoDup(cols) && k < |cols|
    ensures Find(cols, cols[k]) == Some(k)
  {
    if k > 0 {
      assert cols[0] != cols[k];
      var tail := cols[1..];
      assert tail[k - 1] == cols[k];
      assert NoDup(tail) by {
        forall i, j | 0 <= i < j < |tail| ensures tail[i] != tail[j] {
          assert tail[i] == cols[i + 1] && tail[j] == cols[j + 1];
        }
      }
      FindDistinct(tail, k - 1);
    }
  }

  /** The value of column `c` in a row read under header `cols`. */
  function Value(cols: seq<string>, r: Row, c: string): Cell {
    match Find(cols, c)
    case None => Missing
    case Some(k) => At(r, k)
  }

  /** `df[c].iloc[i]`. */
  function Get(f: Frame, i: nat, c: string): Cell
    requires i < |f.rows|
  {
    Value(f.columns, f.rows[i], c)
  }

  /** Column `k` by position. */
  function ColumnAt(f: Frame, k: nat): (col: seq<Cell>)
    ensures |col| == |f.rows| && forall i | 0 <= i < |f.rows| :: col[i] == At(f.rows[i], k)
  {
    Map(r => At(r, k), f.rows)
  }

  /** `df[c]` (all missing when there is no such column). */
  function Column(f: Frame, c: string): (col: seq<Cell>)
    ensures |col| == |f.rows| && forall i | 0 <= i < |f.rows| :: col[i] == Get(f, i, c)
  {
    Map(r => Value(f.columns, r, c), f.rows)
  }

  /** A row read under `cols` and rewritten under header `names`. */
  function Realign(cols: seq<string>, r: Row, names: seq<string>): (r': Row)
    ensures |r'| == |names|
    ensures forall d | d in names :: Value(names, r', d) == Value(cols, r, d)
  {
    var r' := Map(c => Value(cols, r, c), names);
    assert forall d | d in names :: Value(names, r', d) == Value(cols, r, names[Find(names, d).value]);
    r'
  }

  // ---------------------------------------------------------------------
  // column operations

  function RenamedName(m: map<string, string>, c: string): string {
    if c in m then m[c] else c
  }

  /** `df.rename(columns=m)`: the header changes, the data do not. */
  function Rename(f: Frame, m: map<string, string>): (g: Frame)
    ensures g.rows == f.rows && |g.columns| == |f.columns|
    ensures forall k | 0 <= k < |f.columns| :: g.columns[k] == RenamedName(m, f.columns[k])
  {
    Frame(Map(c => RenamedName(m, c), f.columns), f.rows)
  }

  /** After a rename that leaves no two columns with the same name, the
      column that a source header became holds that header's data. */
  lemma RenameGet(f: Frame, m: map<string, string>, h: string, i: nat)
    requires NoDup(Rename(f, m).columns) && h in f.columns && i < |f.rows|
    ensures Get(Rename(f, m), i, RenamedName(m, h)) == Get(f, i, h)
  {
    var g := Rename(f, m);
    var k := Find(f.columns, h).value;
    assert g.columns[k] == RenamedName(m, h);
    var k' := Find(g.columns, RenamedName(m, h)).value;
    assert k' == k;
  }

  /** `df.columns = names`: a positional relabelling, refused when the
      number of names differs from the number of columns. */
  function SetColumns(f: Frame, names: seq<string>): (r: Result<Frame>)
    ensures r.Success? <==> |names| == |f.columns|
    ensures r.Success? ==> r.value.columns == names && r.value.rows == f.rows
  {
    if |names| == |f.columns| then Success(Frame(names, f.rows)) else Failure("Length mismatch")
  }

  /** `df.reindex(names, axis=1)`: the listed columns in the listed order; a
      name the frame lacks comes out all missing. */
  function Reindex(f: Frame, names: seq<string>): (g: Frame)
    ensures g.columns == names && |g.rows| == |f.rows|
    ensures forall i, d | 0 <= i < |f.rows| && d in names :: Get(g, i, d) == Get(f, i, d)
  {
    Frame(names, Map(r => Realign(f.columns, r, names), f.rows))
  }

  /** `df[names]`: a KeyError unless every listed column exists. */
  function Select(f: Frame, names: seq<string>): (r: Result<Frame>)
    ensures r.Success? <==> forall c | c in names :: c in f.columns
    ensures r.Success? ==> r.value.columns == names && |r.value.rows| == |f.rows|
    ensures r.Success? ==> forall i, d | 0 <= i < |f.rows| && d in names :: Get(r.value, i, d) == Get(f, i, d)
  {
    if forall c | c in names :: c in f.columns then Success(Reindex(f, names)) else Failure("KeyError")
  }

  /** `df[c] = g(df[c])` on an existing column. */
  function MapColumn(f: Frame, c: string, g: Cell -> Cell): (h: Frame)
    requires c in f.columns
    ensures h.columns == f.columns && |h.rows| == |f.rows|
    ensures forall i | 0 <= i < |f.rows| :: Get(h, i, c) == g(Get(f, i, c))
    ensures forall i, d | 0 <= i < |f.rows| && d != c :: Get(h, i, d) == Get(f, i, d)
  {
    var k := Find(f.columns, c).value;
    var h := Frame(f.columns, Map((r: Row) => seq(|f.columns|, j requires 0 <= j < |f.columns| =>
      if j == k then g(At(r, k)) else At(r, j)), f.rows));
    assert forall d | d in f.columns && d != c :: Find(f.columns, d).value != k;
    h
  }

  function OrMissing(r: Result<Cell>): Cell {
    if r.Success? then r.value else Missing
  }

  /** `df[c] = g(df[c])` where `g` may raise (float() on unreadable text,
      arithmetic on text): the whole operation fails when it fails on any
      cell, and a KeyError when the column does not exist. */
  function MapColumnChecked(f: Frame, c: string, g: Cell -> Result<Cell>): (r: Result<Frame>)
    ensures r.Success? <==> c in f.columns && forall i | 0 <= i < |f.rows| :: g(Get(f, i, c)).Success?
    ensures r.Success? ==> r.value.columns == f.columns && |r.value.rows| == |f.rows|
    ensures r.Success? ==> forall i | 0 <= i < |f.rows| :: Get(r.value, i, c) == g(Get(f, i, c)).value
    ensures r.Success? ==> forall i, d | 0 <= i < |f.rows| && d != c :: Get(r.value, i, d) == Get(f, i, d)
  {
    if c in f.columns && forall i | 0 <= i < |f.rows| :: g(Get(f, i, c)).Success? then
      Success(MapColumn(f, c, x => OrMissing(g(x))))
    else Failure("cannot convert column " + c)
  }

  /** `df[c] = vals`: overwrites column `c`, or appends it when absent. */
  function SetColumn(f: Frame, c: string, vals: seq<Cell>): (h: Frame)
    requires |vals| == |f.rows|
    ensures h.columns == (if c in f.columns then f.columns else f.columns + [c])
    ensures |h.rows| == |f.rows|
    ensures forall i | 0 <= i < |f.rows| :: Get(h, i, c) == vals[i]
    ensures forall i, d | 0 <= i < |f.rows| && d != c :: Get(h, i, d) == Get(f, i, d)
  {
    var cols := if c in f.columns then f.columns else f.columns + [c];
    var k := Find(cols, c).value;
    SetColumnFind(f.columns, c);
    Frame(cols, seq(|f.rows|, i requires 0 <= i < |f.rows| => PutAt(f.rows[i], |cols|, k, vals[i])))
  }
  /** Three different columns set one after the other: each holds its new
      cells, and every other column keeps its own. */
  lemma SetThreeGet(f: Frame, a: string, va: seq<Cell>, b: string, vb: seq<Cell>, c: string, vc: seq<Cell>, i: nat, d: string)
    requires |va| == |f.rows| && |vb| == |f.rows| && |vc| == |f.rows| && i < |f.rows|
    requires a != b && a != c && b != c
    ensures var g := SetColumn(SetColumn(SetColumn(f, a, va), b, vb), c, vc);
      Get(g, i, a) == va[i] && Get(g, i, b) == vb[i] && Get(g, i, c) == vc[i] &&
      (d != a && d != b && d != c ==> Get(g, i, d) == Get(f, i, d))
  {
    var g1 := SetColumn(f, a, va);
    var g2 := SetColumn(g1, b, vb);
    assert Get(g2, i, a) == Get(g1, i, a);
  }


  /** Row `r` widened or cut to `width` cells, with `v` in position `k`. */
  function PutAt(r: Row, width: nat, k: nat, v: Cell): (r': Row)
    requires k < width
    ensures |r'| == width && r'[k] == v
    ensures forall j | 0 <= j < width && j != k :: r'[j] == At(r, j)
  {
    seq(width, j requires 0 <= j < width => if j == k then v else At(r, j))
  }

  /** Appending a column leaves the positions of the others unchanged. */
  lemma SetColumnFind(cols: seq<string>, c: string)
    ensures var cols' := if c in cols then cols else cols + [c];
      forall d | d != c :: Find(cols', d) == Find(cols, d)
  {
    if c !in cols {
      forall d | d != c ensures Find(cols + [c], d) == Find(cols, d) {
        if d in cols {
          FindPrefix(cols, [c], d);
        }
      }
    }
  }

  lemma {:induction false} FindPrefix(a: seq<string>, b: seq<string>, c: string)
    requires c in a
    ensures Find(a + b, c) == Find(a, c)
  {
    if a[0] != c {
      assert (a + b)[1..] == a[1..] + b;
      FindPrefix(a[1..], b, c);
    }
  }

  /** `df.replace(...)` and `applymap`: `g` applied to every cell. */
  function MapCells(f: Frame, g: Cell -> Cell): (h: Frame)
    ensures h.columns == f.columns && |h.rows| == |f.rows|
    ensures forall i, d | 0 <= i < |f.rows| && d in f.columns :: Get(h, i, d) == g(Get(f, i, d))
  {
    Frame(f.columns, Map((r: Row) => Map(k => g(At(r, k)), Indices(|f.columns|)), f.rows))
  }

  /** A mapped cell, by position: `applymap` leaves no column out, repeated
      names included. */
  lemma MapCellsAt(f: Frame, g: Cell -> Cell, n: nat, k: nat)
    requires n < |f.rows| && k < |f.columns|
    ensures At(MapCells(f, g).rows[n], k) == g(At(f.rows[n], k))
  {
    assert MapCells(f, g).rows[n] == Map(k => g(At(f.rows[n], k)), Indices(|f.columns|));
  }

  function Indices(n: nat): (ix: seq<nat>)
    ensures |ix| == n && forall k | 0 <= k < n :: ix[k] == k
  {
    seq(n, k requires 0 <= k < n => k)
  }

  // ---------------------------------------------------------------------
  // cleaning text columns

  /** pandas gives a column the object dtype when some cell holds text. */
  predicate IsObject(col: seq<Cell>) {
    exists x | x in col :: x.Str?
  }

  /** `.str.strip()` on one cell: text is stripped, anything else in an
      object column becomes NaN. */
  function StripCell(x: Cell): Cell {
    if x.Str? then Str(Text.Strip(x.s)) else Missing
  }

  /** `.str.strip()` on a cell holding text (numbers stand for their own
      text, which has no surrounding whitespace). */
  function StripText(x: Cell): (r: Cell)
    ensures r.Str? <==> x.Str?
    ensures r.Str? ==> r.s == Text.Strip(x.s)
    ensures !x.Str? ==> r == x
  {
    if x.Str? then Str(Text.Strip(x.s)) else x
  }

  /** The empty string becomes NaN (`df.replace('', np.nan)`). */
  function BlankToMissing(x: Cell): Cell {
    if x == Str("") then Missing else x
  }

  /** The cleaning loop every loader runs: each object column is passed
      through `.str.strip()`, then every empty string becomes missing. */
  function StripTextColumns(f: Frame): (h: Frame)
    ensures h.columns == f.columns && |h.rows| == |f.rows|
  {
    Frame(f.columns, Map((r: Row) => Map(k => CleanCell(f, k, At(r, k)), Indices(|f.columns|)), f.rows))
  }

  function CleanCell(f: Frame, k: nat, x: Cell): Cell {
    BlankToMissing(if IsObject(ColumnAt(f, k)) then StripCell(x) else x)
  }

  /** After cleaning, a text column holds stripped, non-empty text or
      missing values; numeric columns keep their values. */
  lemma StripTextColumnsGet(f: Frame, i: nat, c: string)
    requires i < |f.rows| && c in f.columns
    ensures IsObject(Column(f, c)) ==>
      Get(StripTextColumns(f), i, c) == BlankToMissing(StripCell(Get(f, i, c)))
    ensures !IsObject(Column(f, c)) ==> Get(StripTextColumns(f), i, c) == Get(f, i, c)
    ensures Get(StripTextColumns(f), i, c) != Str("")
    ensures Get(StripTextColumns(f), i, c).Str? ==> Text.Strip(Get(StripTextColumns(f), i, c).s) == Get(StripTextColumns(f), i, c).s
  {
    var k := Find(f.columns, c).value;
    var col := ColumnAt(f, k);
    assert Column(f, c) == col;
    var x := Get(f, i, c);
    if IsObject(col) && x.Str? {
      Text.StripCharsIdempotent(x.s, Text.Whitespace);
    }
  }

  // ---------------------------------------------------------------------
  // rows

  /** `df[mask]` for a mask computed row by row. */
  function FilterRows(f: Frame, keep: Row -> bool): (h: Frame)
    ensures h.columns == f.columns && h.rows == Filter(keep, f.rows)
  {
    Frame(f.columns, Filter(keep, f.rows))
  }

  /** Row `k` of a filtered frame is the `k`-th kept row of the original. */
  lemma FilterRowsGet(f: Frame, keep: Row -> bool, k: nat, c: string)
    requires k < |KeptIndices(keep, f.rows)|
    ensures k < |FilterRows(f, keep).rows|
    ensures Get(FilterRows(f, keep), k, c) == Get(f, KeptIndices(keep, f.rows)[k], c)
  {
    FilterExact(keep, f.rows);
  }

  /** The header of `pd.concat([a, b], sort=False)`: the columns of `a`,
      then those of `b` that `a` lacks, in order of appearance. */
  function Union(a: seq<string>, b: seq<string>): (u: seq<string>)
    ensures forall c :: c in u <==> c in a || c in b
    ensures |a| <= |u| && u[..|a|] == a
  {
    if |b| == 0 then a
    else
      var u := Union(a, b[..|b| - 1]);
      if b[|b| - 1] in u then u else u + [b[|b| - 1]]
  }

  lemma {:induction false} UnionCovered(a: seq<string>, b: seq<string>)
    requires forall c | c in b :: c in a
    ensures Union(a, b) == a
  {
    if |b| > 0 {
      UnionCovered(a, b[..|b| - 1]);
    }
  }

  lemma {:induction false} UnionFresh(b: seq<string>)
    requires NoDup(b)
    ensures Union([], b) == b
  {
    if |b| > 0 {
      var p := b[..|b| - 1];
      UnionFresh(p);
      assert b == p + [b[|b| - 1]];
    }
  }

  /** `pd.concat([a, b])`: the rows of `a`, then the rows of `b`, aligned by
      column name; a column one side lacks is missing in its rows. */
  function Concat(a: Frame, b: Frame): (h: Frame)
    ensures h.columns == Union(a.columns, b.columns)
    ensures |h.rows| == |a.rows| + |b.rows|
  {
    var u := Union(a.columns, b.columns);
    Frame(u, Reindex(a, u).rows + Reindex(b, u).rows)
  }

  /** The first rows of a concatenation are those of `a`, column by column. */
  lemma ConcatLeft(a: Frame, b: Frame, i: nat, c: string)
    requires i < |a.rows|
    ensures Get(Concat(a, b), i, c) == Get(a, i, c)
  {
    var h := Concat(a, b);
    var ra := Reindex(a, h.columns);
    assert h.rows[i] == ra.rows[i];
    if c !in h.columns {
      GetAbsent(a, i, c);
    } else {
      assert Get(h, i, c) == Get(ra, i, c);
    }
  }

  /** The later rows of a concatenation are those of `b`, column by column. */
  lemma ConcatRight(a: Frame, b: Frame, i: nat, c: string)
    requires i < |b.rows|
    ensures Get(Concat(a, b), |a.rows| + i, c) == Get(b, i, c)
  {
    var h := Concat(a, b);
    var rb := Reindex(b, h.columns);
    var ra := Reindex(a, h.columns);
    assert h.rows == ra.rows + rb.rows;
    assert h.rows[|a.rows| + i] == rb.rows[i];
    if c !in h.columns {
      GetAbsent(b, i, c);
    } else {
      assert Get(h, |a.rows| + i, c) == Value(rb.columns, rb.rows[i], c);
    }
  }

  /** Selecting columns from a concatenation keeps both parts' rows, in
      order, in every selected column. */
  lemma SelectConcat(a: Frame, b: Frame, names: seq<string>, n: nat, c: string)
    requires Select(Concat(a, b), names).Success? && c in names
    ensures var t := Select(Concat(a, b), names).value;
      |t.rows| == |a.rows| + |b.rows| &&
      (n < |a.rows| ==> Get(t, n, c) == Get(a, n, c)) &&
      (n < |b.rows| ==> Get(t, |a.rows| + n, c) == Get(b, n, c))
  {
    var u := Concat(a, b);
    var t := Select(u, names).value;
    if n < |a.rows| {
      ConcatLeft(a, b, n, c);
      assert Get(t, n, c) == Get(u, n, c);
    }
    if n < |b.rows| {
      var m := |a.rows| + n;
      ConcatRight(a, b, n, c);
      assert m < |u.rows|;
      assert Get(t, m, c) == Get(u, m, c);
    }
  }

  function TotalRows(fs: seq<Frame>): nat {
    if |fs| == 0 then 0 else TotalRows(fs[..|fs| - 1]) + |fs[|fs| - 1].rows|
  }

  function EmptyFrame(): Frame {
    Frame([], [])
  }

  /** `pd.concat(frames)`: every frame's rows, in order. */
  function ConcatAll(fs: seq<Frame>): (h: Frame)
    ensures |h.rows| == TotalRows(fs)
  {
    if |fs| == 0 then EmptyFrame()
    else Concat(ConcatAll(fs[..|fs| - 1]), fs[|fs| - 1])
  }

  /** Frames that share one header (without repeated names) concatenate
      under that header. */
  lemma {:induction false} ConcatAllColumns(fs: seq<Frame>, names: seq<string>)
    requires |fs| > 0 && NoDup(names)
    requires forall j | 0 <= j < |fs| :: fs[j].columns == names
    ensures ConcatAll(fs).columns == names
  {
    var n := |fs| - 1;
    if n == 0 {
      assert ConcatAll(fs[..0]) == EmptyFrame();
      UnionFresh(names);
    } else {
      ConcatAllColumns(fs[..n], names);
      UnionCovered(names, names);
    }
  }

  /** Every row of a concatenation comes from one of the frames. */
  lemma {:induction false} PartOfRow(fs: seq<Frame>, n: nat) returns (j: nat, i: nat)
    requires n < TotalRows(fs)
    ensures j < |fs| && i < |fs[j].rows| && n == TotalRows(fs[..j]) + i
  {
    var m := |fs| - 1;
    var init := fs[..m];
    if n < TotalRows(init) {
      j, i := PartOfRow(init, n);
      assert fs[..j] == init[..j];
    } else {
      j, i := m, n - TotalRows(init);
    }
  }

  /** The frame and row a row of a concatenation comes from. */
  lemma RowOrigin(fs: seq<Frame>, n: nat) returns (j: nat, i: nat)
    requires n < TotalRows(fs)
    ensures j < |fs| && i < |fs[j].rows| && n == TotalRows(fs[..j]) + i
    ensures forall c :: Get(ConcatAll(fs), n, c) == Get(fs[j], i, c)
  {
    j, i := PartOfRow(fs, n);
    forall c ensures Get(ConcatAll(fs), n, c) == Get(fs[j], i, c) {
      ConcatAllGet(fs, j, i, c);
    }
  }

  lemma GetAbsent(f: Frame, i: nat, c: string)
    requires i < |f.rows| && c !in f.columns
    ensures Get(f, i, c) == Missing
  {
  }

  /** Row `i` of the `j`-th frame is row `TotalRows(fs[..j]) + i` of the
      concatenation, with the same value in every column. */
  lemma {:induction false} ConcatAllGet(fs: seq<Frame>, j: nat, i: nat, c: string)
    requires j < |fs| && i < |fs[j].rows|
    ensures TotalRows(fs[..j]) + i < |ConcatAll(fs).rows|
    ensures Get(ConcatAll(fs), TotalRows(fs[..j]) + i, c) == Get(fs[j], i, c)
    decreases |fs|, 1
  {
    if j == |fs| - 1 {
      ConcatAllGetLast(fs, j, i, c);
    } else {
      ConcatAllGetInit(fs, j, i, c);
    }
  }

  lemma ConcatAllGetLast(fs: seq<Frame>, j: nat, i: nat, c: string)
    requires j == |fs| - 1 && i < |fs[j].rows|
    ensures TotalRows(fs[..j]) + i < |ConcatAll(fs).rows|
    ensures Get(ConcatAll(fs), TotalRows(fs[..j]) + i, c) == Get(fs[j], i, c)
  {
    var a := ConcatAll(fs[..j]);
    assert ConcatAll(fs) == Concat(a, fs[j]);
    ConcatRight(a, fs[j], i, c);
  }

  lemma {:induction false} ConcatAllGetInit(fs: seq<Frame>, j: nat, i: nat, c: string)
    requires j < |fs| - 1 && i < |fs[j].rows|
    ensures TotalRows(fs[..j]) + i < |ConcatAll(fs).rows|
    ensures Get(ConcatAll(fs), TotalRows(fs[..j]) + i, c) == Get(fs[j], i, c)
    decreases |fs|, 0
  {
    var n := |fs| - 1;
    var init := fs[..n];
    PrefixOfInit(fs, j);
    ConcatAllGet(init, j, i, c);
    var a := ConcatAll(init);
    var m := TotalRows(fs[..j]) + i;
    ConcatLeft(a, fs[n], m, c);
  }

  /** The first `j` frames, and the `j`-th, are the same in `fs` and in all of `fs` but its last. */
  lemma PrefixOfInit(fs: seq<Frame>, j: nat)
    requires j < |fs| - 1
    ensures fs[..|fs| - 1][..j] == fs[..j] && fs[..|fs| - 1][j] == fs[j]
  {
  }
}
