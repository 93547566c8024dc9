/** The data quality gate of src/validate_data.py: four checks on the
    current frame, run in a fixed order with the first failure deciding the
    outcome, then the Great Expectations gate, given here as a parameter. */
module ValidateData {
  import opened Tables

  /** `DEFAULT_REQUIRED_COLUMNS` */
  const DefaultRequiredColumns: seq<string> := ["feature1", "feature2", "target"]

  /** The default of `min_distinct`. */
  const DefaultMinDistinct: int := 2

  /** Why a check rejects the frame; each carries what its message lists. */
  datatype Failure =
    | MissingRequired(missing: seq<string>)
    | TargetAbsent(target: string)
    | TargetAllNull
    | TargetNonNumeric
    | TargetNotBinary(found: set<int>)
    | AllNullColumns(columns: seq<string>)
    | TooFewDistinct(minDistinct: int, columns: seq<string>)

  /** The `(ok, err)` pair of a check. */
  datatype CheckResult = Pass | Fail(reason: Failure)

  /** `_get_required_columns`: the reference's columns when that file exists,
      the default list otherwise. Loading an existing reference that fails
      raises outside any handler (None). */
  function RequiredColumns(reference: FileState): (r: Option<seq<string>>)
    ensures r.None? <==> reference.LoadFails?
    ensures reference.NotFound? ==> r == Some(DefaultRequiredColumns)
    ensures reference.Loads? ==> r == Some(Names(reference.frame.columns))
  {
    match reference
    case NotFound => Some(DefaultRequiredColumns)
    case LoadFails => None
    case Loads(f) => Some(Names(f.columns))
  }

  /** The target column: "target" when required, else the first required
      column, else "target". */
  function TargetFor(required: seq<string>): (t: string)
    ensures "target" in required ==> t == "target"
    ensures "target" !in required && required != [] ==> t == required[0]
    ensures required != [] ==> t in required
    ensures required == [] ==> t == "target"
  {
    if "target" in required then "target"
    else if required != [] then required[0]
    else "target"
  }

  /** `missing`: the required names the frame lacks, in required order. */
  function MissingColumns(required: seq<string>, present: seq<string>): (r: seq<string>)
    ensures |r| <= |required|
    ensures forall c :: c in r <==> c in required && c !in present
  {
    if required == [] then []
    else
      var rest := MissingColumns(required[1..], present);
      assert forall c :: c in required <==> c == required[0] || c in required[1..];
      if required[0] !in present then [required[0]] + rest else rest
  }

  /** The order of `missing` follows `required`: it distributes over
      concatenation. */
  lemma {:induction false} MissingColumnsConcat(a: seq<string>, b: seq<string>, present: seq<string>)
    ensures MissingColumns(a + b, present) == MissingColumns(a, present) + MissingColumns(b, present)
  {
    if a == [] {
      assert a + b == b;
    } else {
      assert (a + b)[0] == a[0];
      assert (a + b)[1..] == a[1..] + b;
      MissingColumnsConcat(a[1..], b, present);
    }
  }

  /** `_check_required_columns` */
  function CheckRequiredColumns(df: Frame, required: seq<string>): (r: CheckResult)
    ensures r.Pass? <==> forall c :: c in required ==> c in Names(df.columns)
    ensures r.Fail? ==> r.reason == MissingRequired(MissingColumns(required, Names(df.columns)))
  {
    var missing := MissingColumns(required, Names(df.columns));
    if missing != [] then
      assert missing[0] in missing;
      Fail(MissingRequired(missing))
    else Pass
  }

  /** `set(vals.astype(int).unique())` on the non-missing target cells:
      numbers truncate toward zero, and a text cell makes the cast raise
      (None). */
  function CastAll(vals: seq<Cell>): (r: Option<set<int>>)
    ensures r.None? <==> exists i :: 0 <= i < |vals| && vals[i].Text?
    ensures r.Some? ==> forall n :: n in r.value <==>
      exists i :: 0 <= i < |vals| && CastInt(vals[i]) == Some(n)
  {
    if vals == [] then Some({})
    else
      var rest := CastAll(vals[1..]);
      assert forall i :: 1 <= i < |vals| ==> vals[i] == vals[1..][i - 1];
      match vals[0]
      case Text(_) => None
      case Num(x) => if rest.None? then None else Some({TruncToInt(x)} + rest.value)
  }

  /** `_check_target_binary`: absent, all null, not castable, then values
      outside {0, 1}, checked in this order. */
  function CheckTargetBinary(df: Frame, target: string): (r: CheckResult)
    ensures r == Fail(TargetAbsent(target)) <==> target !in Names(df.columns)
    ensures r == Fail(TargetAllNull) <==>
      target in Names(df.columns) && AllMissing(Lookup(df.columns, target).value.cells)
    ensures r == Fail(TargetNonNumeric) <==>
      && target in Names(df.columns)
      && !AllMissing(Lookup(df.columns, target).value.cells)
      && HasText(Lookup(df.columns, target).value.cells)
    ensures r.Fail? && r.reason.TargetNotBinary? ==>
      && target in Names(df.columns)
      && !HasText(Lookup(df.columns, target).value.cells)
      && !(r.reason.found <= {0, 1})
      && forall n :: n in r.reason.found <==> CastsTo(Lookup(df.columns, target).value.cells, n)
    ensures r.Pass? <==>
      && target in Names(df.columns)
      && !AllMissing(Lookup(df.columns, target).value.cells)
      && AllBinary(Lookup(df.columns, target).value.cells)
  {
    var col := Lookup(df.columns, target);
    if col.None? then Fail(TargetAbsent(target))
    else
      var vals := Present(col.value.cells);
      if |vals| == 0 then Fail(TargetAllNull)
      else
        var uniq := CastAll(vals);
        CastPresent(col.value.cells);
        if uniq.None? then
          TextNotBinary(col.value.cells);
          Fail(TargetNonNumeric)
        else
          BinaryValues(col.value.cells);
          if !(uniq.value <= {0, 1}) then Fail(TargetNotBinary(uniq.value)) else Pass
  }

  /** Some present cell is text. */
  predicate HasText(cells: seq<Option<Cell>>) {
    exists i :: 0 <= i < |cells| && cells[i].Some? && cells[i].value.Text?
  }

  /** Some present cell casts to `n`. */
  predicate CastsTo(cells: seq<Option<Cell>>, n: int) {
    exists i :: 0 <= i < |cells| && cells[i].Some? && CastInt(cells[i].value) == Some(n)
  }

  /** Casting the non-missing cells fails exactly on text and otherwise
      collects the cast of every present cell. */
  lemma CastPresent(cells: seq<Option<Cell>>)
    ensures CastAll(Present(cells)).None? <==> HasText(cells)
    ensures CastAll(Present(cells)).Some? ==>
      forall n :: n in CastAll(Present(cells)).value <==> CastsTo(cells, n)
  {
    var vals := Present(cells);
    if HasText(cells) {
      var i :| 0 <= i < |cells| && cells[i].Some? && cells[i].value.Text?;
      assert cells[i].value in vals;
    } else {
      forall j | 0 <= j < |vals| ensures !vals[j].Text? {
        assert vals[j] in vals;
      }
    }
    if CastAll(vals).Some? {
      forall n ensures n in CastAll(vals).value <==> CastsTo(cells, n) {
        if n in CastAll(vals).value {
          var j :| 0 <= j < |vals| && CastInt(vals[j]) == Some(n);
          assert vals[j] in vals;
        }
        if CastsTo(cells, n) {
          var i :| 0 <= i < |cells| && cells[i].Some? && CastInt(cells[i].value) == Some(n);
          assert cells[i].value in vals;
        }
      }
    }
  }

  /** Every present cell casts to 0 or 1. */
  predicate AllBinary(cells: seq<Option<Cell>>) {
    forall i :: 0 <= i < |cells| && cells[i].Some? ==>
      CastInt(cells[i].value) == Some(0) || CastInt(cells[i].value) == Some(1)
  }

  /** A text value among the present cells is not binary. */
  lemma TextNotBinary(cells: seq<Option<Cell>>)
    requires CastAll(Present(cells)).None?
    ensures !AllBinary(cells)
  {
    var vals := Present(cells);
    var i :| 0 <= i < |vals| && vals[i].Text?;
    assert vals[i] in vals;
  }

  /** The cast values lie in {0, 1} exactly when every present cell casts
      to 0 or 1. */
  lemma BinaryValues(cells: seq<Option<Cell>>)
    requires CastAll(Present(cells)).Some?
    ensures CastAll(Present(cells)).value <= {0, 1} <==> AllBinary(cells)
  {
    var vals := Present(cells);
    var uniq := CastAll(vals).value;
    if uniq <= {0, 1} {
      forall j | 0 <= j < |cells| && cells[j].Some?
        ensures CastInt(cells[j].value) == Some(0) || CastInt(cells[j].value) == Some(1)
      {
        var v := cells[j].value;
        assert v in vals;
        var i :| 0 <= i < |vals| && vals[i] == v;
        assert !vals[i].Text?;
        assert CastInt(vals[i]).value in uniq;
      }
    } else {
      var n :| n in uniq && n !in {0, 1};
      var i :| 0 <= i < |vals| && CastInt(vals[i]) == Some(n);
      assert vals[i] in vals;
    }
  }

  /** `astype(int)` truncates, so a fractional target such as 0.5 is cast
      to 0 and passes the binary check. */
  lemma FractionalTargetAccepted()
    ensures CheckTargetBinary(Frame(2, [Column("target", Float64, [Some(Num(0.5)), Some(Num(1.0))])]), "target").Pass?
  {
    var cells := [Some(Num(0.5)), Some(Num(1.0))];
    var df := Frame(2, [Column("target", Float64, cells)]);
    assert Names(df.columns) == ["target"];
    assert Some(Num(0.5)) in cells;
    forall v | Some(v) in cells ensures CastInt(v) == Some(0) || CastInt(v) == Some(1) {
      assert v == Num(0.5) || v == Num(1.0);
    }
  }

  /** `all_null`: the names of the columns whose every entry is missing, in
      frame order. */
  function AllNullNames(cols: seq<Column>): (r: seq<string>)
    ensures |r| <= |cols|
    ensures forall n :: n in r <==> exists i :: 0 <= i < |cols| && cols[i].name == n && AllMissing(cols[i].cells)
  {
    if cols == [] then []
    else
      var rest := AllNullNames(cols[1..]);
      assert forall i :: 1 <= i < |cols| ==> cols[i] == cols[1..][i - 1];
      if AllMissing(cols[0].cells) then [cols[0].name] + rest else rest
  }

  /** `_check_no_all_null_columns` */
  function CheckNoAllNullColumns(df: Frame): (r: CheckResult)
    ensures r.Pass? <==> forall i :: 0 <= i < |df.columns| ==> !AllMissing(df.columns[i].cells)
    ensures r.Fail? ==> r.reason == AllNullColumns(AllNullNames(df.columns))
  {
    var allNull := AllNullNames(df.columns);
    if allNull != [] then
      assert allNull[0] in allNull;
      Fail(AllNullColumns(allNull))
    else
      assert forall i :: 0 <= i < |df.columns| ==> df.columns[i].name !in allNull;
      Pass
  }

  /** A frame without rows has only empty columns, each of them counted as
      all null, so it fails the check as soon as it has a column. */
  lemma EmptyFrameHasOnlyNullColumns(df: Frame)
    requires WellFormed(df) && df.rows == 0 && |df.columns| > 0
    ensures CheckNoAllNullColumns(df).Fail?
  {
    assert AllMissing(df.columns[0].cells);
  }

  /** The distinct non-missing values of a column. */
  function Distinct(cells: seq<Option<Cell>>): (s: set<Cell>)
    ensures forall v :: v in s <==> Some(v) in cells
  {
    set i | 0 <= i < |cells| && cells[i].Some? :: cells[i].value
  }

  /** `series.nunique()`: how many distinct values, missing ones not
      counted. */
  function NUnique(cells: seq<Option<Cell>>): nat {
    |Distinct(cells)|
  }

  /** Two different values present make nunique at least 2. */
  lemma TwoValuesAreTwoDistinct(cells: seq<Option<Cell>>, v: Cell, w: Cell)
    requires Some(v) in cells && Some(w) in cells && v != w
    ensures NUnique(cells) >= 2
  {
    var s := Distinct(cells);
    assert w in s - {v};
    assert |s - {v}| == |s| - 1;
  }

  /** A column `_check_numeric_min_distinct` reports. */
  predicate TooFew(col: Column, minDistinct: int) {
    IsNumericDtype(col.dtype) && NUnique(col.cells) < minDistinct
  }

  /** `bad` after the loop has seen `cols`: the numeric columns with fewer
      than `minDistinct` distinct values, in frame order. */
  function BadColumns(cols: seq<Column>, minDistinct: int): (r: seq<string>)
    ensures |r| <= |cols|
    ensures forall n :: n in r <==> exists i :: 0 <= i < |cols| && cols[i].name == n && TooFew(cols[i], minDistinct)
  {
    if cols == [] then []
    else
      var front := cols[..|cols| - 1];
      var last := cols[|cols| - 1];
      assert forall i :: 0 <= i < |cols| - 1 ==> cols[i] == front[i];
      BadColumns(front, minDistinct) + (if TooFew(last, minDistinct) then [last.name] else [])
  }

  /** `_check_numeric_min_distinct`. Columns of non-numeric dtype are never
      reported. */
  method CheckNumericMinDistinct(df: Frame, minDistinct: int) returns (r: CheckResult)
    ensures r.Pass? <==> forall i :: 0 <= i < |df.columns| ==> !TooFew(df.columns[i], minDistinct)
    ensures r.Fail? ==> r.reason == TooFewDistinct(minDistinct, BadColumns(df.columns, minDistinct))
  {
    var bad: seq<string> := [];
    var i := 0;
    while i < |df.columns|
      invariant 0 <= i <= |df.columns|
      invariant bad == BadColumns(df.columns[..i], minDistinct)
    {
      var c := df.columns[i];
      assert df.columns[..i + 1][..i] == df.columns[..i];
      if !IsNumericDtype(c.dtype) {
        i := i + 1;
        continue;
      }
      if NUnique(c.cells) < minDistinct {
        bad := bad + [c.name];
      }
      i := i + 1;
    }
    assert df.columns[..i] == df.columns;
    if bad != [] {
      assert bad[0] in bad;
      return Fail(TooFewDistinct(minDistinct, bad));
    }
    forall j | 0 <= j < |df.columns| ensures !TooFew(df.columns[j], minDistinct) {
      assert df.columns[j].name !in bad;
    }
    return Pass;
  }

  /** The checks of `main`, in the order they run. */
  datatype Check = RequiredColumnsCheck | TargetBinaryCheck | NoAllNullColumnsCheck | NumericMinDistinctCheck

  const Checks: seq<Check> := [RequiredColumnsCheck, TargetBinaryCheck, NoAllNullColumnsCheck, NumericMinDistinctCheck]

  /** The result a check gives on the frame (the minimum-distinct check at
      its default of 2). */
  function Outcome(check: Check, df: Frame, required: seq<string>, target: string): CheckResult {
    match check
    case RequiredColumnsCheck => CheckRequiredColumns(df, required)
    case TargetBinaryCheck => CheckTargetBinary(df, target)
    case NoAllNullColumnsCheck => CheckNoAllNullColumns(df)
    case NumericMinDistinctCheck =>
      if forall i :: 0 <= i < |df.columns| ==> !TooFew(df.columns[i], DefaultMinDistinct) then Pass
      else Fail(TooFewDistinct(DefaultMinDistinct, BadColumns(df.columns, DefaultMinDistinct)))
  }

  /** `ok, err = run(df)` for one entry of `checks`. */
  method RunCheck(check: Check, df: Frame, required: seq<string>, target: string) returns (ok: CheckResult)
    ensures ok == Outcome(check, df, required, target)
  {
    match check {
      case RequiredColumnsCheck => ok := CheckRequiredColumns(df, required);
      case TargetBinaryCheck => ok := CheckTargetBinary(df, target);
      case NoAllNullColumnsCheck => ok := CheckNoAllNullColumns(df);
      case NumericMinDistinctCheck => ok := CheckNumericMinDistinct(df, DefaultMinDistinct);
    }
  }

  /** How the gate ends. */
  datatype GateResult =
    | CurrentMissing
    | CurrentUnreadable
    | ReferenceUnreadable
    | CheckFailed(check: Check, reason: Failure)
    | ExpectationsFailed
    | Passed

  /** `main` with the loaded files as inputs and the Great Expectations run
      as the oracle `expectations`. It exits 0 only on Passed. */
  method Gate(current: FileState, reference: FileState, expectations: (Frame, string) -> bool)
    returns (result: GateResult, code: int)
    ensures code == 0 <==> result == Passed
    ensures code == 1 <==> result != Passed
    ensures current.NotFound? <==> result == CurrentMissing
    ensures current.LoadFails? <==> result == CurrentUnreadable
    ensures current.Loads? ==> (result == ReferenceUnreadable <==> reference.LoadFails?)
    ensures current.Loads? && !reference.LoadFails? ==>
      var required := RequiredColumns(reference).value;
      var target := TargetFor(required);
      && (result.CheckFailed? ==>
            exists k :: 0 <= k < |Checks| && Checks[k] == result.check
              && Outcome(Checks[k], current.frame, required, target) == Fail(result.reason)
              && forall j :: 0 <= j < k ==> Outcome(Checks[j], current.frame, required, target).Pass?)
      && (!result.CheckFailed? <==>
            forall k :: 0 <= k < |Checks| ==> Outcome(Checks[k], current.frame, required, target).Pass?)
      && (result == Passed <==>
            (forall k :: 0 <= k < |Checks| ==> Outcome(Checks[k], current.frame, required, target).Pass?)
            && expectations(current.frame, target))
  {
    if current.NotFound? {
      return CurrentMissing, 1;
    }
    if current.LoadFails? {
      return CurrentUnreadable, 1;
    }
    var df := current.frame;
    var req := RequiredColumns(reference);
    if req.None? {
      return ReferenceUnreadable, 1;
    }
    var required := req.value;
    var target := TargetFor(required);
    var k := 0;
    while k < |Checks|
      invariant 0 <= k <= |Checks|
      invariant forall j :: 0 <= j < k ==> Outcome(Checks[j], df, required, target).Pass?
    {
      var ok := RunCheck(Checks[k], df, required, target);
      if ok.Fail? {
        return CheckFailed(Checks[k], ok.reason), 1;
      }
      k := k + 1;
    }
    if !expectations(df, target) {
      return ExpectationsFailed, 1;
    }
    return Passed, 0;
  }

  /** Once the required columns are present and the required list is not
      empty, the target check can no longer fail for an absent target. */
  lemma RequiredColumnsCoverTarget(df: Frame, required: seq<string>)
    requires required != []
    requires CheckRequiredColumns(df, required).Pass?
    ensures CheckTargetBinary(df, TargetFor(required)) != Fail(TargetAbsent(TargetFor(required)))
  {
    assert TargetFor(required) in required;
  }
}
