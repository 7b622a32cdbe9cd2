/** `left.merge(right, how='outer')` without `on`: a full outer join on the
    columns the two tables share. Every pair of rows that agree on the
    shared columns gives one row; a row of either side that agrees with no
    row of the other is kept on its own, missing in the other side's
    columns. */
module Joins {
  import opened Seqs
  import opened Frames

  /** Row `i` of `a` and row `j` of `b` hold the same cells in every column
      both tables have. */
  predicate Agree(a: Frame, b: Frame, i: nat, j: nat)
    requires i < |a.rows| && j < |b.rows|
  {
    forall c | c in a.columns && c in b.columns :: Get(a, i, c) == Get(b, j, c)
  }

  /** Where a merged row comes from. */
  datatype Pair = Both(i: nat, j: nat) | LeftOnly(i: nat) | RightOnly(j: nat)

  /** The rows of `b` that row `i` of `a` joins with, in order. */
  function Partners(a: Frame, b: Frame, i: nat): seq<nat>
    requires i < |a.rows|
  {
    Filter((j: nat) => j < |b.rows| && Agree(a, b, i, j), Indices(|b.rows|))
  }

  /** Row `j` of `b` agrees with no row of `a`. */
  predicate Unpaired(a: Frame, b: Frame, j: nat)
    requires j < |b.rows|
  {
    forall i | 0 <= i < |a.rows| :: !Agree(a, b, i, j)
  }

  /** Row `i` of `a` with each of its partners, or alone. */
  function RowPairs(a: Frame, b: Frame, i: nat): seq<Pair>
    requires i < |a.rows|
  {
    var ps := Partners(a, b, i);
    if |ps| == 0 then [LeftOnly(i)] else Map((j: nat) => Both(i, j), ps)
  }

  /** The first `n` rows of `a`, each with its partners, or alone. */
  function LeftPairs(a: Frame, b: Frame, n: nat): seq<Pair>
    requires n <= |a.rows|
  {
    if n == 0 then [] else LeftPairs(a, b, n - 1) + RowPairs(a, b, n - 1)
  }

  /** The rows of the merge: the left rows with their partners, then the
      right rows no left row joins. */
  function Plan(a: Frame, b: Frame): seq<Pair> {
    LeftPairs(a, b, |a.rows|) +
      Map((j: nat) => RightOnly(j), Filter((j: nat) => j < |b.rows| && Unpaired(a, b, j), Indices(|b.rows|)))
  }

  /** The pairs an outer join produces. */
  predicate Planned(a: Frame, b: Frame, p: Pair) {
    match p
    case Both(i, j) => i < |a.rows| && j < |b.rows| && Agree(a, b, i, j)
    case LeftOnly(i) => i < |a.rows| && forall j | 0 <= j < |b.rows| :: !Agree(a, b, i, j)
    case RightOnly(j) => j < |b.rows| && Unpaired(a, b, j)
  }

  lemma IndicesMembers(n: nat)
    ensures forall j: nat :: j in Indices(n) <==> j < n
  {
    forall j: nat ensures j in Indices(n) <==> j < n {
      if j < n {
        assert Indices(n)[j] == j;
      }
    }
  }

  lemma PartnersMembers(a: Frame, b: Frame, i: nat)
    requires i < |a.rows|
    ensures forall j: nat :: j in Partners(a, b, i) <==> j < |b.rows| && Agree(a, b, i, j)
  {
    IndicesMembers(|b.rows|);
    FilterMembers((j: nat) => j < |b.rows| && Agree(a, b, i, j), Indices(|b.rows|));
  }

  lemma RowPairsMembers(a: Frame, b: Frame, i: nat, p: Pair)
    requires i < |a.rows|
    ensures p in RowPairs(a, b, i) <==> !p.RightOnly? && p.i == i && Planned(a, b, p)
  {
    var ps := Partners(a, b, i);
    var rs := RowPairs(a, b, i);
    PartnersMembers(a, b, i);
    if |ps| > 0 {
      assert ps[0] in ps && Agree(a, b, i, ps[0]);
      if p in rs {
        var q :| 0 <= q < |ps| && rs[q] == p;
        assert ps[q] in ps;
      }
      if p.Both? && p.i == i && Planned(a, b, p) {
        assert p.j in ps;
        var q :| 0 <= q < |ps| && ps[q] == p.j;
        assert rs[q] == p;
      }
    }
  }

  lemma LeftPairsMembers(a: Frame, b: Frame, n: nat, p: Pair)
    requires n <= |a.rows|
    ensures p in LeftPairs(a, b, n) <==> !p.RightOnly? && p.i < n && Planned(a, b, p)
  {
    LeftPairsRows(a, b, n, p);
    if !p.RightOnly? && p.i < n {
      RowPairsMembers(a, b, p.i, p);
    }
  }

  /** The first `n` rows' pairs are the pairs of each of those rows. */
  lemma {:induction false} LeftPairsRows(a: Frame, b: Frame, n: nat, p: Pair)
    requires n <= |a.rows|
    ensures p in LeftPairs(a, b, n) <==> !p.RightOnly? && p.i < n && p in RowPairs(a, b, p.i)
  {
    if n > 0 {
      var init, last := LeftPairs(a, b, n - 1), RowPairs(a, b, n - 1);
      assert LeftPairs(a, b, n) == init + last;
      LeftPairsRows(a, b, n - 1, p);
      RowPairsOwn(a, b, n - 1, p);
      if p.RightOnly? || p.i >= n {
        assert p !in init && p !in last;
      } else if p.i == n - 1 {
        assert p !in init;
      } else {
        assert p !in last;
      }
    }
  }

  /** The pairs of row `i` are pairs of row `i`. */
  lemma RowPairsOwn(a: Frame, b: Frame, i: nat, p: Pair)
    requires i < |a.rows|
    ensures p in RowPairs(a, b, i) ==> !p.RightOnly? && p.i == i
  {
    var ps := Partners(a, b, i);
    var rs := RowPairs(a, b, i);
    if |ps| > 0 && p in rs {
      var q :| 0 <= q < |ps| && rs[q] == p;
    }
  }

  /** The merge plan holds exactly the pairs of agreeing rows, the left
      rows without partners and the right rows without partners. */
  lemma PlanExact(a: Frame, b: Frame, p: Pair)
    ensures p in Plan(a, b) <==> Planned(a, b, p)
  {
    var keep := (j: nat) => j < |b.rows| && Unpaired(a, b, j);
    var lonely := Filter(keep, Indices(|b.rows|));
    var rights := Map((j: nat) => RightOnly(j), lonely);
    LeftPairsMembers(a, b, |a.rows|, p);
    IndicesMembers(|b.rows|);
    FilterMembers(keep, Indices(|b.rows|));
    if p in rights {
      var q :| 0 <= q < |lonely| && rights[q] == p;
      assert lonely[q] in lonely;
    }
    if p.RightOnly? && Planned(a, b, p) {
      assert p.j in lonely;
      var q :| 0 <= q < |lonely| && lonely[q] == p.j;
      assert rights[q] == p;
    }
  }

  /** The cell of column `c` on the merged row of pair `p`: the left row's
      cell in the left table's columns, otherwise the right row's. */
  function PairCell(a: Frame, b: Frame, p: Pair, c: string): Cell {
    match p
    case Both(i, j) =>
      if i < |a.rows| && c in a.columns then Get(a, i, c) else if j < |b.rows| then Get(b, j, c) else Missing
    case LeftOnly(i) => if i < |a.rows| then Get(a, i, c) else Missing
    case RightOnly(j) => if j < |b.rows| then Get(b, j, c) else Missing
  }

  function OuterMerge(a: Frame, b: Frame): (m: Frame)
    ensures m.columns == Union(a.columns, b.columns) && |m.rows| == |Plan(a, b)|
    ensures forall k, c | 0 <= k < |m.rows| :: Get(m, k, c) == PairCell(a, b, Plan(a, b)[k], c)
  {
    var u := Union(a.columns, b.columns);
    var m := Frame(u, Map((p: Pair) => Map((c: string) => PairCell(a, b, p, c), u), Plan(a, b)));
    assert forall k, c | 0 <= k < |m.rows| && c in u :: Get(m, k, c) == PairCell(a, b, Plan(a, b)[k], u[Find(u, c).value]);
    m
  }

  /** Every left row survives the merge: some merged row holds its cells in
      every left column. */
  lemma MergeKeepsLeft(a: Frame, b: Frame, i: nat) returns (k: nat)
    requires i < |a.rows|
    ensures k < |OuterMerge(a, b).rows|
    ensures forall c | c in a.columns :: Get(OuterMerge(a, b), k, c) == Get(a, i, c)
  {
    var ps := Partners(a, b, i);
    PartnersMembers(a, b, i);
    var p := if |ps| == 0 then LeftOnly(i) else Both(i, ps[0]);
    if |ps| > 0 {
      assert ps[0] in ps;
    }
    PlanExact(a, b, p);
    k :| 0 <= k < |Plan(a, b)| && Plan(a, b)[k] == p;
  }

  /** Every right row survives the merge: some merged row holds its cells
      in every right column. */
  lemma MergeKeepsRight(a: Frame, b: Frame, j: nat) returns (k: nat)
    requires j < |b.rows|
    ensures k < |OuterMerge(a, b).rows|
    ensures forall c | c in b.columns :: Get(OuterMerge(a, b), k, c) == Get(b, j, c)
  {
    var p: Pair;
    if Unpaired(a, b, j) {
      p := RightOnly(j);
    } else {
      var i :| 0 <= i < |a.rows| && Agree(a, b, i, j);
      p := Both(i, j);
    }
    PlanExact(a, b, p);
    k :| 0 <= k < |Plan(a, b)| && Plan(a, b)[k] == p;
  }

  /** Every merged row comes from a left row, a right row, or an agreeing
      pair of them. */
  lemma MergedRowFrom(a: Frame, b: Frame, k: nat)
    requires k < |OuterMerge(a, b).rows|
    ensures Planned(a, b, Plan(a, b)[k])
  {
    PlanExact(a, b, Plan(a, b)[k]);
  }
}
