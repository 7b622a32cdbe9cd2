/** `compile_iw`: the four interstitial-water tables stacked in the order
    DSDP, ODP, IODP, Chikyu, quality-control and test expeditions removed,
    every cell turned to text. */
module IwCompile {
  import opened Wrappers
  import opened Seqs
  import opened Frames
  import opened Units
  import Text
  import IwChem
  import IwOdp
  import IwIodp
  import IwChikyu
  import Chikyu

  /** A leg that names a quality-control run or a test. */
  predicate TestLeg(leg: string) {
    Text.Contains(leg, "QAQC") || Text.Contains(leg, "TEST")
  }

  /** The row mask `~leg.str.contains('QAQC') & ~leg.str.contains('TEST')`. */
  predicate KeepRow(cols: seq<string>, r: Row) {
    var x := Value(cols, r, "leg");
    x.Str? && !TestLeg(x.s)
  }

  /** The mask is applied to the stacked table. It needs a `leg` column
      (KeyError otherwise) holding text in every row: a cell that is not
      text gives the mask a missing value, which pandas refuses to index
      with. */
  function DropTestLegs(iw: Frame): (r: Result<Frame>)
    ensures r.Success? <==> "leg" in iw.columns && forall i | 0 <= i < |iw.rows| :: Get(iw, i, "leg").Str?
    ensures r.Success? ==> r.value.columns == iw.columns
    ensures r.Success? ==> forall k | 0 <= k < |r.value.rows| :: Get(r.value, k, "leg").Str? && !TestLeg(Get(r.value, k, "leg").s)
  {
    if "leg" !in iw.columns then Failure("KeyError: leg")
    else if !(forall i | 0 <= i < |iw.rows| :: Get(iw, i, "leg").Str?) then
      Failure("TypeError: bad operand type for unary ~")
    else
      var keep := (r: Row) => KeepRow(iw.columns, r);
      var h := FilterRows(iw, keep);
      FilterMembers(keep, iw.rows);
      assert forall k | 0 <= k < |h.rows| :: h.rows[k] in iw.rows;
      Success(h)
  }

  /** The rows the filter keeps are exactly the rows whose leg names
      neither a quality-control run nor a test, in their original order:
      the `k`-th kept row is the `k`-th such row of the input. */
  lemma {:induction false} DropTestLegsExact(iw: Frame, k: nat, c: string)
    requires DropTestLegs(iw).Success?
    ensures var ix := KeptIndices((r: Row) => KeepRow(iw.columns, r), iw.rows);
      |DropTestLegs(iw).value.rows| == |ix| &&
      (forall i | 0 <= i < |iw.rows| && !TestLeg(Get(iw, i, "leg").s) :: i in ix) &&
      (k < |ix| ==> Get(DropTestLegs(iw).value, k, c) == Get(iw, ix[k], c))
  {
    var keep := (r: Row) => KeepRow(iw.columns, r);
    FilterExact(keep, iw.rows);
    if k < |KeptIndices(keep, iw.rows)| {
      FilterRowsGet(iw, keep, k, c);
    }
  }

  /** `pd.concat((dsdp, odp, iodp, chikyu))`. */
  function Stacked(dsdp: Frame, odp: Frame, iodp: Frame, chikyu: Frame): Frame {
    ConcatAll([dsdp, odp, iodp, chikyu])
  }

  /** The compiled table: any loader's failure ends the run. */
  function CompileIw(dsdp: Frame, odp: Frame, iodp: Frame, holes: seq<IwChikyu.HoleMeta>,
                     files: seq<Chikyu.DataFile>): (r: Result<Frame>)
    ensures r.Success? ==>
      IwChem.LoadDsdpIw(dsdp).Success? && IwOdp.LoadOdpIw(odp).Success? &&
      IwIodp.LoadIodpIw(iodp).Success? && IwChikyu.ChikyuIwTable(holes, files).Success?
  {
    var a :- IwChem.LoadDsdpIw(dsdp);
    var b :- IwOdp.LoadOdpIw(odp);
    var c :- IwIodp.LoadIodpIw(iodp);
    var d :- IwChikyu.ChikyuIwTable(holes, files);
    var kept :- DropTestLegs(Stacked(a, b, c, d));
    Success(MapCells(kept, Textual))
  }

  /** Every row of the compiled table is a row of one of the four loaded
      tables whose leg is not a test leg, with each of its cells as text
      (a missing cell reads "nan"); no compiled cell is missing. */
  lemma CompileIwRow(a: Frame, b: Frame, c: Frame, d: Frame, k: nat, col: string)
    requires DropTestLegs(Stacked(a, b, c, d)).Success?
    requires k < |DropTestLegs(Stacked(a, b, c, d)).value.rows|
    requires col in Stacked(a, b, c, d).columns
    ensures var out := MapCells(DropTestLegs(Stacked(a, b, c, d)).value, Textual);
      var fs := [a, b, c, d];
      k < |out.rows| &&
      exists j, i | 0 <= j < 4 && 0 <= i < |fs[j].rows| ::
        Get(fs[j], i, "leg").Str? && !TestLeg(Get(fs[j], i, "leg").s) && Get(out, k, col) == Textual(Get(fs[j], i, col))
  {
    var fs := [a, b, c, d];
    var iw := Stacked(a, b, c, d);
    var kept := DropTestLegs(iw).value;
    var ix := KeptIndices((r: Row) => KeepRow(iw.columns, r), iw.rows);
    DropTestLegsExact(iw, k, col);
    DropTestLegsExact(iw, k, "leg");
    var n := ix[k];
    var j, i := RowOrigin(fs, n);
    assert Get(kept, k, "leg") == Get(fs[j], i, "leg");
  }
}
