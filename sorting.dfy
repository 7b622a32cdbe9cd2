/** `df.sort_values([a, b])` with pandas' defaults: ascending on `a`, ties
    broken by `b`, missing values last on either key, and rows that tie on
    both keys left in their original order. */
module Sorting {
  import opened Wrappers
  import opened Frames

  /** Ascending order on the cells of one key, missing values last. Text is
      not ordered: a sort key holding text is refused before sorting. */
  predicate CellLe(x: Cell, y: Cell) {
    y.Missing? || (x.Num? && y.Num? && x.x <= y.x)
  }

  /** Row `r` may come before row `s` when sorting on the cells at
      positions `p`, then `q`. */
  predicate RowLe(r: Row, s: Row, p: nat, q: nat) {
    if At(r, p) == At(s, p) then CellLe(At(r, q), At(s, q)) else CellLe(At(r, p), At(s, p))
  }

  /** A row whose key cells are numbers or missing. */
  predicate Orderable(r: Row, p: nat, q: nat) {
    !At(r, p).Str? && !At(r, q).Str?
  }

  predicate Sorted(s: seq<Row>, p: nat, q: nat) {
    forall i, j | 0 <= i < j < |s| :: RowLe(s[i], s[j], p, q)
  }

  lemma RowLeTotal(r: Row, s: Row, p: nat, q: nat)
    requires Orderable(r, p, q) && Orderable(s, p, q)
    ensures RowLe(r, s, p, q) || RowLe(s, r, p, q)
  {
  }

  lemma RowLeTrans(r: Row, s: Row, t: Row, p: nat, q: nat)
    requires Orderable(r, p, q) && Orderable(s, p, q) && Orderable(t, p, q)
    requires RowLe(r, s, p, q) && RowLe(s, t, p, q)
    ensures RowLe(r, t, p, q)
  {
  }

  /** Inserts `x` after every row of the sorted `s` that may precede it. */
  function Insert(x: Row, s: seq<Row>, p: nat, q: nat): seq<Row> {
    if |s| == 0 then [x]
    else if RowLe(s[|s| - 1], x, p, q) then s + [x]
    else Insert(x, s[..|s| - 1], p, q) + [s[|s| - 1]]
  }

  /** Insertion sort, stable: each row is inserted after the rows before it
      that tie with it. */
  function SortRows(s: seq<Row>, p: nat, q: nat): seq<Row> {
    if |s| == 0 then []
    else Insert(s[|s| - 1], SortRows(s[..|s| - 1], p, q), p, q)
  }

  lemma {:induction false} InsertPermutes(x: Row, s: seq<Row>, p: nat, q: nat)
    ensures multiset(Insert(x, s, p, q)) == multiset(s) + multiset{x}
  {
    if |s| > 0 && !RowLe(s[|s| - 1], x, p, q) {
      var init := s[..|s| - 1];
      InsertPermutes(x, init, p, q);
      assert s == init + [s[|s| - 1]];
    }
  }

  lemma {:induction false} InsertSorted(x: Row, s: seq<Row>, p: nat, q: nat)
    requires Sorted(s, p, q) && Orderable(x, p, q)
    requires forall i | 0 <= i < |s| :: Orderable(s[i], p, q)
    ensures Sorted(Insert(x, s, p, q), p, q)
  {
    if |s| > 0 {
      var n := |s| - 1;
      var last := s[n];
      if RowLe(last, x, p, q) {
        forall i | 0 <= i < n ensures RowLe(s[i], x, p, q) {
          RowLeTrans(s[i], last, x, p, q);
        }
      } else {
        RowLeTotal(last, x, p, q);
        var init := s[..n];
        InsertSorted(x, init, p, q);
        var ins := Insert(x, init, p, q);
        InsertPermutes(x, init, p, q);
        forall i | 0 <= i < |ins| ensures RowLe(ins[i], last, p, q) {
          assert ins[i] in multiset(ins);
          if ins[i] != x {
            assert ins[i] in multiset(init);
            var k :| 0 <= k < n && init[k] == ins[i];
          }
        }
      }
    }
  }

  /** The sorted rows are the input rows, each as often as before. */
  lemma {:induction false} SortRowsPermutes(s: seq<Row>, p: nat, q: nat)
    ensures multiset(SortRows(s, p, q)) == multiset(s)
  {
    if |s| > 0 {
      var init := s[..|s| - 1];
      SortRowsPermutes(init, p, q);
      InsertPermutes(s[|s| - 1], SortRows(init, p, q), p, q);
      assert s == init + [s[|s| - 1]];
    }
  }

  /** Rows whose key cells hold no text come out in ascending key order. */
  lemma {:induction false} SortRowsSorted(s: seq<Row>, p: nat, q: nat)
    requires forall i | 0 <= i < |s| :: Orderable(s[i], p, q)
    ensures Sorted(SortRows(s, p, q), p, q)
  {
    if |s| > 0 {
      var init := s[..|s| - 1];
      SortRowsSorted(init, p, q);
      var sorted := SortRows(init, p, q);
      SortRowsPermutes(init, p, q);
      forall i | 0 <= i < |sorted| ensures Orderable(sorted[i], p, q) {
        assert sorted[i] in multiset(init);
      }
      InsertSorted(s[|s| - 1], sorted, p, q);
    }
  }

  /** The rows of `g` ascend on column `a` and, among equal `a`, on
      column `b`, missing values last. */
  predicate OrderedBy(g: Frame, a: string, b: string) {
    forall i, j | 0 <= i < j < |g.rows| ::
      if Get(g, i, a) == Get(g, j, a) then CellLe(Get(g, i, b), Get(g, j, b))
      else CellLe(Get(g, i, a), Get(g, j, a))
  }

  /** Every row of the frame has numbers or missing values in column `c`. */
  predicate NoText(f: Frame, c: string) {
    forall i | 0 <= i < |f.rows| :: !Get(f, i, c).Str?
  }

  /** `f.sort_values([a, b])`: a KeyError when a key column is absent; a
      key column holding text cannot be compared with the numbers and
      raises a TypeError. */
  function SortBy(f: Frame, a: string, b: string): (r: Result<Frame>)
    ensures r.Success? <==> a in f.columns && b in f.columns && NoText(f, a) && NoText(f, b)
    ensures r.Success? ==> r.value.columns == f.columns && |r.value.rows| == |f.rows|
  {
    if a !in f.columns || b !in f.columns then Failure("KeyError")
    else if !NoText(f, a) || !NoText(f, b) then Failure("TypeError: '<' not supported")
    else
      var p, q := Find(f.columns, a).value, Find(f.columns, b).value;
      SortRowsPermutes(f.rows, p, q);
      assert |multiset(SortRows(f.rows, p, q))| == |multiset(f.rows)|;
      Success(Frame(f.columns, SortRows(f.rows, p, q)))
  }

  /** The sorted frame holds the same rows, each as often as before, in
      ascending order of column `a` and, among equal `a`, of column `b`,
      with missing values last. */
  lemma SortByOrdered(f: Frame, a: string, b: string)
    requires SortBy(f, a, b).Success?
    ensures var g := SortBy(f, a, b).value;
      multiset(g.rows) == multiset(f.rows) && |g.rows| == |f.rows| && OrderedBy(g, a, b)
  {
    var p, q := Find(f.columns, a).value, Find(f.columns, b).value;
    var g := SortBy(f, a, b).value;
    SortRowsPermutes(f.rows, p, q);
    forall i | 0 <= i < |f.rows| ensures Orderable(f.rows[i], p, q) {
      assert !Get(f, i, a).Str? && !Get(f, i, b).Str?;
    }
    SortRowsSorted(f.rows, p, q);
    forall i, j | 0 <= i < j < |g.rows|
      ensures if Get(g, i, a) == Get(g, j, a) then CellLe(Get(g, i, b), Get(g, j, b))
        else CellLe(Get(g, i, a), Get(g, j, a))
    {
      assert RowLe(g.rows[i], g.rows[j], p, q);
    }
  }
}
