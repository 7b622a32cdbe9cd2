/** Unit conversions on cells, in exact rational arithmetic. Two forms
    occur in the loaders: arithmetic straight on the column, which raises a
    TypeError on text, and arithmetic after `astype(float)`, which first
    reads text as a decimal number and raises a ValueError when it cannot. */
module Units {
  import opened Wrappers
  import opened Frames
  import Text

  /** `col * k` (or `col / d` with k = 1/d) on a cell. */
  function Scale(x: Cell, k: real): (r: Result<Cell>)
    ensures r.Success? <==> !x.Str?
    ensures x.Num? ==> r.Success? && r.value == Num(x.x * k)
    ensures x.Missing? ==> r == Success(Missing)
  {
    if x.Num? then Success(Num(x.x * k))
    else if x.Missing? then Success(Missing)
    else Failure("TypeError: text in a numeric column")
  }

  /** `float(x)` on a cell. */
  function ToNumber(x: Cell): (r: Result<Cell>)
    ensures r.Success? ==> !r.value.Str?
    ensures !x.Str? ==> r == Success(x)
    ensures x.Str? ==> (r.Success? <==> Text.ParseDecimal(x.s).Some?)
    ensures x.Str? && r.Success? ==> r.value == Num(Text.ParseDecimal(x.s).value)
  {
    match x
    case Str(s) =>
      (match Text.ParseDecimal(s)
       case Some(v) => Success(Num(v))
       case None => Failure("ValueError: could not convert string to float"))
    case _ => Success(x)
  }

  /** `astype(str)` and `applymap(str)` on one cell: text stays, a missing
      value becomes the text "nan" and a whole number is written in
      decimal digits. A fractional number keeps its value: Python's float
      formatting is not modelled. */
  function Textual(x: Cell): (r: Cell)
    ensures r != Missing
    ensures x.Str? ==> r == x
  {
    match x
    case Str(_) => x
    case Missing => Str("nan")
    case Num(v) => if v.Floor as real == v then Str(Text.IntText(v.Floor)) else x
  }

  /** A whole number comes back from its text unchanged. */
  lemma TextualRoundTrip(n: int)
    ensures Textual(Num(n as real)).Str?
    ensures ToNumber(Textual(Num(n as real))) == Success(Num(n as real))
  {
    assert (n as real).Floor == n;
    ToNumberIntText(n);
  }

  /** Converting to text twice is converting once; only fractional
      numbers stay numbers. */
  lemma TextualTwice(x: Cell)
    ensures Textual(Textual(x)) == Textual(x)
    ensures Textual(x).Str? <==> !(x.Num? && x.x.Floor as real != x.x)
  {
  }

  /** Two whole numbers have the same text exactly when they are equal. */
  lemma TextualWholeInjective(a: int, b: int)
    ensures Textual(Num(a as real)) == Textual(Num(b as real)) <==> a == b
  {
    TextualRoundTrip(a);
    TextualRoundTrip(b);
  }

  /** `float(x)` on a cell that may hold text written by `astype(str)`:
      the text "nan" reads back as a missing value, other text must be a
      decimal number. */
  function ReadFloat(x: Cell): (r: Result<Cell>)
    ensures r.Success? ==> !r.value.Str?
    ensures !x.Str? ==> r == Success(x)
    ensures x.Str? && Text.Strip(x.s) == "nan" ==> r == Success(Missing)
    ensures x.Str? && Text.Strip(x.s) != "nan" ==> r == ToNumber(x)
  {
    if x.Str? && Text.Strip(x.s) == "nan" then Success(Missing) else ToNumber(x)
  }

  /** Whatever `astype(str)` left, `float()` reads back unchanged: the
      text of a missing value is missing again. */
  lemma ReadFloatTextual(x: Cell)
    requires !x.Str?
    ensures ReadFloat(Textual(x)) == Success(x)
  {
    if x.Missing? {
      Text.StripKeeps("nan");
    } else if x.Num? && x.x.Floor as real == x.x {
      var n := x.x.Floor;
      TextualRoundTrip(n);
      Text.WhitespacePlain();
      Text.IntTextUnstripped(n, Text.Whitespace);
      Text.IntTextEnds(n);
      assert Text.IntText(n) != "nan" by {
        assert !Text.IsDigit("nan"[2]);
      }
    }
  }

  /** `applymap(float)`: a ValueError on the first cell that is not a
      number. */
  function ReadCells(w: Frame): (r: Result<Frame>)
    ensures r.Success? <==> forall i, k | 0 <= i < |w.rows| && 0 <= k < |w.columns| :: ReadFloat(At(w.rows[i], k)).Success?
    ensures r.Success? ==> r.value.columns == w.columns && |r.value.rows| == |w.rows|
  {
    if forall i, k | 0 <= i < |w.rows| && 0 <= k < |w.columns| :: ReadFloat(At(w.rows[i], k)).Success? then
      Success(MapCells(w, (x: Cell) => OrMissing(ReadFloat(x))))
    else Failure("ValueError: could not convert string to float")
  }

  /** Each cell of the numeric table is its merged cell read as a number. */
  lemma ReadCellsGet(w: Frame, i: nat, c: string)
    requires ReadCells(w).Success? && i < |w.rows| && c in w.columns
    ensures ReadFloat(Get(w, i, c)).Success?
    ensures Get(ReadCells(w).value, i, c) == ReadFloat(Get(w, i, c)).value
  {
    var p := Find(w.columns, c).value;
    assert ReadFloat(At(w.rows[i], p)).Success?;
  }

  /** `col.astype(float) * k` where the column may hold "nan" text. */
  function ReadScale(x: Cell, k: real): (r: Result<Cell>)
    ensures r.Success? <==> ReadFloat(x).Success?
    ensures r.Success? ==> r == Scale(ReadFloat(x).value, k)
  {
    var v :- ReadFloat(x);
    Scale(v, k)
  }

  /** `col.astype(float) * k` on a cell. */
  function ParseScale(x: Cell, k: real): (r: Result<Cell>)
    ensures r.Success? <==> ToNumber(x).Success?
    ensures r.Success? ==> r == Scale(ToNumber(x).value, k)
  {
    var v :- ToNumber(x);
    Scale(v, k)
  }

  /** A conversion by a non-zero factor is undone by the reciprocal factor:
      no value is lost or merged. */
  lemma ScaleInverse(x: Cell, k: real)
    requires k != 0.0 && !x.Str?
    ensures Scale(Scale(x, k).value, 1.0 / k) == Success(x)
  {
    if x.Num? {
      var j := 1.0 / k;
      var c := Scale(x, k).value;
      assert c == Num(x.x * k);
      var d := Scale(c, j).value;
      assert d == Num(c.x * j);
      assert c.x * j == x.x * (k * j);
      assert k * j == 1.0;
      assert x.x * (k * j) == x.x;
      assert d == x;
      assert Scale(c, j) == Success(d);
    }
  }

  /** Whole-number text reads back as that number: `float(str(n)) == n`. */
  lemma ToNumberIntText(n: int)
    ensures ToNumber(Str(Text.IntText(n))) == Success(Num(n as real))
  {
    Text.ParseIntText(n);
  }

  /** A conversion applied to one column of a table. */
  datatype Conversion = Conversion(column: string, convert: Cell -> Result<Cell>)

  /** A list of column conversions applied one after the other, as the
      loaders write them; the first cell a conversion cannot handle fails
      the whole table. */
  function ConvertColumns(w: Frame, convs: seq<Conversion>): (r: Result<Frame>)
    ensures r.Success? ==> r.value.columns == w.columns && |r.value.rows| == |w.rows|
    decreases |convs|
  {
    if |convs| == 0 then Success(w)
    else
      var w' :- MapColumnChecked(w, convs[0].column, convs[0].convert);
      ConvertColumns(w', convs[1..])
  }

  /** What the conversions do to one cell of column `c`. */
  function Converted(convs: seq<Conversion>, c: string, x: Cell): Result<Cell>
    decreases |convs|
  {
    if |convs| == 0 then Success(x)
    else
      var y :- if convs[0].column == c then convs[0].convert(x) else Success(x);
      Converted(convs[1..], c, y)
  }

  /** After a successful run, each cell holds its own conversion. */
  lemma {:induction false} ConvertColumnsGet(w: Frame, convs: seq<Conversion>, i: nat, c: string)
    requires ConvertColumns(w, convs).Success? && i < |w.rows|
    ensures Converted(convs, c, Get(w, i, c)).Success?
    ensures Get(ConvertColumns(w, convs).value, i, c) == Converted(convs, c, Get(w, i, c)).value
    decreases |convs|
  {
    if |convs| > 0 {
      var w' := MapColumnChecked(w, convs[0].column, convs[0].convert).value;
      ConvertColumnsGet(w', convs[1..], i, c);
    }
  }

  /** The run succeeds when every listed column exists and every cell
      converts. */
  lemma {:induction false} ConvertColumnsOk(w: Frame, convs: seq<Conversion>)
    requires forall k | 0 <= k < |convs| :: convs[k].column in w.columns
    requires forall i, c | 0 <= i < |w.rows| && c in w.columns :: Converted(convs, c, Get(w, i, c)).Success?
    ensures ConvertColumns(w, convs).Success?
    decreases |convs|
  {
    if |convs| > 0 {
      var col, g := convs[0].column, convs[0].convert;
      assert forall i | 0 <= i < |w.rows| :: g(Get(w, i, col)).Success? by {
        forall i | 0 <= i < |w.rows| ensures g(Get(w, i, col)).Success? {
          assert Converted(convs, col, Get(w, i, col)).Success?;
        }
      }
      var w' := MapColumnChecked(w, col, g).value;
      forall i, c | 0 <= i < |w'.rows| && c in w'.columns ensures Converted(convs[1..], c, Get(w', i, c)).Success? {
        assert Converted(convs, c, Get(w, i, c)).Success?;
      }
      forall k | 0 <= k < |convs| - 1 ensures convs[1..][k].column in w'.columns {
        assert convs[1..][k] == convs[k + 1];
      }
      ConvertColumnsOk(w', convs[1..]);
    }
  }

  /** A column no conversion names keeps its cells. */
  lemma {:induction false} ConvertedUnlisted(convs: seq<Conversion>, c: string, x: Cell)
    requires forall k | 0 <= k < |convs| :: convs[k].column != c
    ensures Converted(convs, c, x) == Success(x)
    decreases |convs|
  {
    if |convs| > 0 {
      assert forall k | 0 <= k < |convs| - 1 :: convs[1..][k] == convs[k + 1];
      ConvertedUnlisted(convs[1..], c, x);
    }
  }

  /** A column exactly one conversion names gets that conversion and no
      other. */
  lemma {:induction false} ConvertedOnly(convs: seq<Conversion>, k: nat, c: string, x: Cell)
    requires k < |convs| && convs[k].column == c
    requires forall m | 0 <= m < |convs| && m != k :: convs[m].column != c
    ensures Converted(convs, c, x) == convs[k].convert(x)
    decreases k
  {
    assert forall m | 0 <= m < |convs| - 1 :: convs[1..][m] == convs[m + 1];
    if k == 0 {
      var y := convs[0].convert(x);
      if y.Success? {
        ConvertedUnlisted(convs[1..], c, y.value);
      }
    } else {
      ConvertedOnly(convs[1..], k - 1, c, x);
    }
  }

  /** After the conversions, a column exactly one conversion names holds
      that conversion of its cell. */
  lemma ConvertColumnsAt(w: Frame, convs: seq<Conversion>, k: nat, i: nat)
    requires ConvertColumns(w, convs).Success? && i < |w.rows| && k < |convs|
    requires forall m | 0 <= m < |convs| && m != k :: convs[m].column != convs[k].column
    ensures convs[k].convert(Get(w, i, convs[k].column)).Success?
    ensures Get(ConvertColumns(w, convs).value, i, convs[k].column) ==
      convs[k].convert(Get(w, i, convs[k].column)).value
  {
    var c := convs[k].column;
    ConvertColumnsGet(w, convs, i, c);
    ConvertedOnly(convs, k, c, Get(w, i, c));
  }
}
