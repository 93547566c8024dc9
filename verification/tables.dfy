/** Values shared by every module: optional values, results, and pandas data
    frames as named, typed columns of cells. A missing cell (NaN, None, NaT)
    is `None`. */
module Tables {

  datatype Option<+T> = None | Some(value: T)

  datatype Result<+T, +E> = Success(value: T) | Failure(error: E)

  /** One non-missing cell: a number (pandas int, float or bool) or text. */
  datatype Cell = Num(x: real) | Text(s: string)

  /** The dtype tag pandas keeps per column. */
  datatype DType = Int64 | Float64 | Boolean | Object | Datetime

  /** pandas.api.types.is_numeric_dtype: integers, floats and booleans. */
  predicate IsNumericDtype(d: DType) {
    d == Int64 || d == Float64 || d == Boolean
  }

  datatype Column = Column(name: string, dtype: DType, cells: seq<Option<Cell>>)

  /** A data frame: the length of its index and its columns in order. */
  datatype Frame = Frame(rows: nat, columns: seq<Column>)

  /** What reading a data file yields: the path does not exist, loading
      raises, or the frame it holds. */
  datatype FileState = NotFound | LoadFails | Loads(frame: Frame)

  /** Every column has one cell per row. */
  predicate WellFormed(f: Frame) {
    forall i :: 0 <= i < |f.columns| ==> |f.columns[i].cells| == f.rows
  }

  /** `list(df.columns)` */
  function Names(cols: seq<Column>): (ns: seq<string>)
    ensures |ns| == |cols|
    ensures forall i :: 0 <= i < |cols| ==> ns[i] == cols[i].name
  {
    if cols == [] then [] else [cols[0].name] + Names(cols[1..])
  }

  lemma {:induction false} NamesConcat(a: seq<Column>, b: seq<Column>)
    ensures Names(a + b) == Names(a) + Names(b)
  {
    if a != [] {
      assert (a + b)[1..] == a[1..] + b;
      NamesConcat(a[1..], b);
    }
  }

  /** `df[name]`: the first column carrying that name. */
  function Lookup(cols: seq<Column>, name: string): (r: Option<Column>)
    ensures r.None? <==> name !in Names(cols)
    ensures r.Some? ==> r.value in cols && r.value.name == name
  {
    if cols == [] then None
    else if cols[0].name == name then Some(cols[0])
    else Lookup(cols[1..], name)
  }

  /** Every cell is missing (`series.isna().all()`, true of an empty column). */
  predicate AllMissing(cells: seq<Option<Cell>>) {
    forall i :: 0 <= i < |cells| ==> cells[i].None?
  }

  /** The non-missing entries in order: `series.dropna()` on a column and
      `x[~np.isnan(x)]` on a float sample. */
  function Present<T(!new)>(xs: seq<Option<T>>): (r: seq<T>)
    ensures |r| <= |xs|
    ensures forall x :: x in r <==> Some(x) in xs
    ensures |r| == 0 <==> forall i :: 0 <= i < |xs| ==> xs[i].None?
  {
    if xs == [] then []
    else (if xs[0].Some? then [xs[0].value] else []) + Present(xs[1..])
  }

  /** `np.asarray(series, dtype=float)`: numbers stay, missing cells become
      NaN (None), and a text cell makes the conversion raise (None result). */
  function AsFloats(cells: seq<Option<Cell>>): (r: Option<seq<Option<real>>>)
    ensures r.None? <==> exists i :: 0 <= i < |cells| && cells[i].Some? && cells[i].value.Text?
    ensures r.Some? ==> |r.value| == |cells|
    ensures r.Some? ==> forall i :: 0 <= i < |cells| ==>
      r.value[i] == (if cells[i].Some? then Some(cells[i].value.x) else None)
  {
    if cells == [] then Some([])
    else
      var rest := AsFloats(cells[1..]);
      match cells[0]
      case None => if rest.None? then None else Some([None] + rest.value)
      case Some(Num(x)) => if rest.None? then None else Some([Some(x)] + rest.value)
      case Some(Text(_)) => None
  }

  /** `pd.to_numeric(series, errors="coerce")`: text becomes NaN. */
  function Coerce(cells: seq<Option<Cell>>): (r: seq<Option<real>>)
    ensures |r| == |cells|
    ensures forall i :: 0 <= i < |cells| ==>
      r[i] == (if cells[i].Some? && cells[i].value.Num? then Some(cells[i].value.x) else None)
  {
    seq(|cells|, i requires 0 <= i < |cells| =>
      if cells[i].Some? && cells[i].value.Num? then Some(cells[i].value.x) else None)
  }

  /** Python's `int(x)` on a float: truncation toward zero. */
  function TruncToInt(x: real): (n: int)
    ensures 0.0 <= x ==> n as real <= x < n as real + 1.0
    ensures x < 0.0 ==> n as real - 1.0 < x <= n as real
  {
    if x >= 0.0 then x.Floor else -((-x).Floor)
  }

  /** `astype(int)` on one non-missing cell; text does not convert. */
  function CastInt(v: Cell): Option<int> {
    match v
    case Num(x) => Some(TruncToInt(x))
    case Text(_) => None
  }
}
