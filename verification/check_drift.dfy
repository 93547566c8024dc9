/** The retrain decision of src/check_drift.py: which columns are compared,
    how the per-feature PSI values fold into `max_psi`, the status and the
    process exit code. */
module CheckDrift {
  import opened Tables
  import opened Drift

  /** `PSI_RETRAIN_THRESHOLD` */
  const PsiRetrainThreshold: real := 0.25

  datatype Status = Ok | Retrain | NoNumericColumns

  /** The JSON report: `max_psi`, `per_feature` and `status`. */
  datatype Report = Report(maxPsi: Option<real>, perFeature: map<string, DriftRecord>, status: Status)

  /** A reference column is compared when its own dtype is numeric and a
      column of that name exists in the current frame. */
  predicate Compared(col: Column, currentNames: seq<string>) {
    IsNumericDtype(col.dtype) && col.name in currentNames
  }

  /** `numeric_cols`: the reference's column names, in reference order, whose
      reference dtype is numeric and which the current frame also has. Only
      the current frame's names are consulted, never its dtypes. */
  function NumericColumns(reference: seq<Column>, currentNames: seq<string>): (r: seq<string>)
    ensures |r| <= |reference|
    ensures forall n :: n in r <==>
      exists i :: 0 <= i < |reference| && reference[i].name == n && Compared(reference[i], currentNames)
  {
    if reference == [] then []
    else
      var rest := NumericColumns(reference[1..], currentNames);
      assert forall i :: 1 <= i < |reference| ==> reference[i] == reference[1..][i - 1];
      if Compared(reference[0], currentNames) then [reference[0].name] + rest else rest
  }

  /** `numeric_cols` keeps the reference's column order: it distributes
      over concatenation. */
  lemma {:induction false} NumericColumnsConcat(a: seq<Column>, b: seq<Column>, currentNames: seq<string>)
    ensures NumericColumns(a + b, currentNames) == NumericColumns(a, currentNames) + NumericColumns(b, currentNames)
  {
    if a == [] {
      assert a + b == b;
    } else {
      assert (a + b)[0] == a[0];
      assert (a + b)[1..] == a[1..] + b;
      NumericColumnsConcat(a[1..], b, currentNames);
    }
  }

  /** Every compared column can be looked up in both frames, so
      `detect_drift` skips none of them. */
  lemma NumericColumnsInBoth(reference: Frame, current: Frame)
    ensures forall c :: c in NumericColumns(reference.columns, Names(current.columns)) ==>
      InBoth(reference, current, c)
  {
    forall c | c in NumericColumns(reference.columns, Names(current.columns))
      ensures InBoth(reference, current, c)
    {
      var i :| 0 <= i < |reference.columns| && reference.columns[i].name == c
               && Compared(reference.columns[i], Names(current.columns));
      assert Names(reference.columns)[i] == c;
    }
  }

  /** `psi_values`: the defined PSI of every reported feature, visited in
      the order the features were requested. */
  function PsiValues(perFeature: map<string, DriftRecord>, cols: seq<string>): (r: seq<real>)
    ensures |r| <= |cols|
    ensures forall i :: 0 <= i < |cols| && cols[i] in perFeature && perFeature[cols[i]].psi.Some? ==>
      perFeature[cols[i]].psi.value in r
    ensures forall v :: v in r ==>
      exists i :: 0 <= i < |cols| && cols[i] in perFeature && perFeature[cols[i]].psi == Some(v)
  {
    if cols == [] then []
    else
      var rest := PsiValues(perFeature, cols[1..]);
      assert forall i :: 1 <= i < |cols| ==> cols[i] == cols[1..][i - 1];
      if cols[0] in perFeature && perFeature[cols[0]].psi.Some? then
        [perFeature[cols[0]].psi.value] + rest
      else rest
  }

  /** `max(psi_values) if psi_values else None` */
  function MaxPsi(values: seq<real>): (m: Option<real>)
    ensures m.None? <==> values == []
    ensures m.Some? ==> m.value in values && forall i :: 0 <= i < |values| ==> values[i] <= m.value
  {
    if values == [] then None else Some(Max(values))
  }

  /** "retrain" exactly when `max_psi` is defined and reaches the threshold. */
  function StatusOf(maxPsi: Option<real>): (s: Status)
    ensures s != NoNumericColumns
    ensures s == Retrain <==> maxPsi.Some? && maxPsi.value >= PsiRetrainThreshold
  {
    if maxPsi.Some? && maxPsi.value >= PsiRetrainThreshold then Retrain else Ok
  }

  /** The code `main` returns once a report exists: 2 to ask for retraining,
      0 otherwise (also when no PSI is defined). */
  function ExitCode(maxPsi: Option<real>): (code: int)
    ensures code == 2 <==> StatusOf(maxPsi) == Retrain
    ensures code == 0 <==> StatusOf(maxPsi) == Ok
  {
    if maxPsi.None? then 0
    else if maxPsi.value >= PsiRetrainThreshold then 2
    else 0
  }

  /** Some requested feature has a defined PSI at or above the threshold. */
  predicate SomeFeatureDrifted(perFeature: map<string, DriftRecord>, cols: seq<string>) {
    exists i :: 0 <= i < |cols| && cols[i] in perFeature && perFeature[cols[i]].psi.Some?
                && perFeature[cols[i]].psi.value >= PsiRetrainThreshold
  }

  /** The decision depends on the largest defined PSI only: retraining is
      asked for exactly when one feature's PSI reaches 0.25, and features
      whose PSI is undefined never trigger it. */
  lemma RetrainIffSomeFeatureDrifted(perFeature: map<string, DriftRecord>, cols: seq<string>)
    ensures StatusOf(MaxPsi(PsiValues(perFeature, cols))) == Retrain <==> SomeFeatureDrifted(perFeature, cols)
  {
    var values := PsiValues(perFeature, cols);
    if SomeFeatureDrifted(perFeature, cols) {
      var i :| 0 <= i < |cols| && cols[i] in perFeature && perFeature[cols[i]].psi.Some?
               && perFeature[cols[i]].psi.value >= PsiRetrainThreshold;
      var v := perFeature[cols[i]].psi.value;
      assert v in values;
      var k :| 0 <= k < |values| && values[k] == v;
      assert MaxPsi(values).value >= values[k];
    }
  }

  /** `main`: the report it prints (None when it stops before one) and the
      code it exits with. A drift computation that raises escapes `main`,
      which ends the process with code 1. */
  method Check(ln: real -> real, ks: (seq<real>, seq<real>) -> (real, real),
              reference: FileState, current: FileState)
    returns (report: Option<Report>, code: int)
    ensures !reference.Loads? || !current.Loads? ==> report.None? && code == 1
    ensures reference.Loads? && current.Loads? ==>
      var cols := NumericColumns(reference.frame.columns, Names(current.frame.columns));
      && (cols == [] ==> report == Some(Report(None, map[], NoNumericColumns)) && code == 0)
      && (cols != [] && report.None? ==>
            && code == 1
            && exists c :: c in cols && InBoth(reference.frame, current.frame, c)
                           && ColumnMetrics(ln, ks, reference.frame, current.frame, c).None?)
      && (cols != [] && report.Some? ==>
            && report.value.perFeature.Keys == set c | c in cols
            && (forall c :: c in report.value.perFeature ==>
                  && InBoth(reference.frame, current.frame, c)
                  && ColumnMetrics(ln, ks, reference.frame, current.frame, c) == Some(report.value.perFeature[c]))
            && report.value.maxPsi == MaxPsi(PsiValues(report.value.perFeature, cols))
            && report.value.status == StatusOf(report.value.maxPsi)
            && code == ExitCode(report.value.maxPsi))
    ensures code == 2 <==> report.Some? && report.value.status == Retrain
  {
    if reference.NotFound? || current.NotFound? {
      return None, 1;
    }
    if reference.LoadFails? || current.LoadFails? {
      return None, 1;
    }
    var ref := reference.frame;
    var cur := current.frame;
    var cols := NumericColumns(ref.columns, Names(cur.columns));
    if cols == [] {
      return Some(Report(None, map[], NoNumericColumns)), 0;
    }
    NumericColumnsInBoth(ref, cur);
    var perFeature := DetectDrift(ln, ks, ref, cur, cols);
    if perFeature.Failure? {
      return None, 1;
    }
    var maxPsi := MaxPsi(PsiValues(perFeature.value, cols));
    report := Some(Report(maxPsi, perFeature.value, StatusOf(maxPsi)));
    code := ExitCode(maxPsi);
  }
}
