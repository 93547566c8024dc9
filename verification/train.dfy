/** The feature selection of src/train.py: which columns become features
    and how they split into numeric and categorical ones. */
module Train {
  import opened Tables

  /** Columns that are never features besides the target. */
  const NonFeatures: seq<string> := ["flight_date", "year"]

  /** The names of the numeric-dtype columns among `cols`, in order. */
  function NumericNames(cols: seq<Column>): (r: seq<string>)
    ensures |r| <= |cols|
    ensures forall n :: n in r <==> exists i :: 0 <= i < |cols| && cols[i].name == n && IsNumericDtype(cols[i].dtype)
  {
    if cols == [] then []
    else
      var front := cols[..|cols| - 1];
      var last := cols[|cols| - 1];
      assert forall i :: 0 <= i < |cols| - 1 ==> cols[i] == front[i];
      NumericNames(front) + (if IsNumericDtype(last.dtype) then [last.name] else [])
  }

  /** The names of the other columns, in order. */
  function CategoricalNames(cols: seq<Column>): (r: seq<string>)
    ensures |r| <= |cols|
    ensures forall n :: n in r <==> exists i :: 0 <= i < |cols| && cols[i].name == n && !IsNumericDtype(cols[i].dtype)
  {
    if cols == [] then []
    else
      var front := cols[..|cols| - 1];
      var last := cols[|cols| - 1];
      assert forall i :: 0 <= i < |cols| - 1 ==> cols[i] == front[i];
      CategoricalNames(front) + (if IsNumericDtype(last.dtype) then [] else [last.name])
  }

  /** The numeric names keep the frame's order: the selection distributes
      over concatenation. */
  lemma {:induction false} NumericNamesConcat(a: seq<Column>, b: seq<Column>)
    ensures NumericNames(a + b) == NumericNames(a) + NumericNames(b)
  {
    if b == [] {
      assert a + b == a;
    } else {
      var front := b[..|b| - 1];
      assert (a + b)[..|a + b| - 1] == a + front && (a + b)[|a + b| - 1] == b[|b| - 1];
      NumericNamesConcat(a, front);
    }
  }

  /** The categorical names keep the frame's order in the same way. */
  lemma {:induction false} CategoricalNamesConcat(a: seq<Column>, b: seq<Column>)
    ensures CategoricalNames(a + b) == CategoricalNames(a) + CategoricalNames(b)
  {
    if b == [] {
      assert a + b == a;
    } else {
      var front := b[..|b| - 1];
      assert (a + b)[..|a + b| - 1] == a + front && (a + b)[|a + b| - 1] == b[|b| - 1];
      CategoricalNamesConcat(a, front);
    }
  }

  /** Every column lands in exactly one of the two lists. */
  lemma {:induction false} PartitionSizes(cols: seq<Column>)
    ensures |NumericNames(cols)| + |CategoricalNames(cols)| == |cols|
  {
    if cols != [] {
      PartitionSizes(cols[..|cols| - 1]);
    }
  }

  /** `_detect_feature_types`: the numeric columns and the others, each
      list in frame order. */
  method DetectFeatureTypes(x: Frame) returns (numeric: seq<string>, categorical: seq<string>)
    ensures numeric == NumericNames(x.columns)
    ensures categorical == CategoricalNames(x.columns)
    ensures |numeric| + |categorical| == |x.columns|
  {
    numeric := [];
    categorical := [];
    var i := 0;
    while i < |x.columns|
      invariant 0 <= i <= |x.columns|
      invariant numeric == NumericNames(x.columns[..i])
      invariant categorical == CategoricalNames(x.columns[..i])
    {
      var col := x.columns[i];
      assert x.columns[..i + 1][..i] == x.columns[..i];
      if IsNumericDtype(col.dtype) {
        numeric := numeric + [col.name];
      } else {
        categorical := categorical + [col.name];
      }
      i := i + 1;
    }
    assert x.columns[..i] == x.columns;
    PartitionSizes(x.columns);
  }

  /** A column that is a feature: neither the target nor a non-feature. */
  predicate IsFeature(name: string, target: string) {
    name != target && name !in NonFeatures
  }

  /** `feature_cols`: every column except the target, "flight_date" and
      "year", in frame order. */
  function FeatureColumns(cols: seq<Column>, target: string): (r: seq<Column>)
    ensures |r| <= |cols|
    ensures forall i :: 0 <= i < |r| ==> r[i] in cols && IsFeature(r[i].name, target)
    ensures forall i :: 0 <= i < |cols| && IsFeature(cols[i].name, target) ==> cols[i] in r
  {
    if cols == [] then []
    else
      var rest := FeatureColumns(cols[1..], target);
      assert forall i :: 1 <= i < |cols| ==> cols[i] == cols[1..][i - 1];
      if IsFeature(cols[0].name, target) then [cols[0]] + rest else rest
  }

  /** The feature filter keeps the frame's order: it distributes over
      concatenation. */
  lemma {:induction false} FeatureColumnsConcat(a: seq<Column>, b: seq<Column>, target: string)
    ensures FeatureColumns(a + b, target) == FeatureColumns(a, target) + FeatureColumns(b, target)
  {
    if a == [] {
      assert a + b == b;
    } else {
      assert (a + b)[0] == a[0];
      assert (a + b)[1..] == a[1..] + b;
      FeatureColumnsConcat(a[1..], b, target);
    }
  }

  datatype TrainError = TargetMissing(target: string) | NoFeatureColumns

  /** Lines 39-50 of `main`: the target must be a column and some feature
      must remain; the features then split by dtype. */
  method SelectFeatures(df: Frame, target: string)
    returns (r: Result<(seq<string>, seq<string>), TrainError>)
    ensures target !in Names(df.columns) <==> r == Failure(TargetMissing(target))
    ensures target in Names(df.columns) ==>
      (r == Failure(NoFeatureColumns) <==> forall i :: 0 <= i < |df.columns| ==> !IsFeature(df.columns[i].name, target))
    ensures r.Success? ==>
      var features := FeatureColumns(df.columns, target);
      && r.value.0 == NumericNames(features)
      && r.value.1 == CategoricalNames(features)
      && |r.value.0| + |r.value.1| == |features| > 0
      && target !in r.value.0 && target !in r.value.1
  {
    if target !in Names(df.columns) {
      return Failure(TargetMissing(target));
    }
    var features := FeatureColumns(df.columns, target);
    if features == [] {
      forall i | 0 <= i < |df.columns| ensures !IsFeature(df.columns[i].name, target) {
        assert df.columns[i] !in features;
      }
      return Failure(NoFeatureColumns);
    }
    assert features[0] in df.columns && IsFeature(features[0].name, target);
    var numeric, categorical := DetectFeatureTypes(Frame(df.rows, features));
    return Success((numeric, categorical));
  }
}
