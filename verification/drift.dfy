/** The drift engine of src/drift.py: the Population Stability Index over
    equal-width buckets of the reference sample, the guard around the
    two-sample Kolmogorov-Smirnov test, and the per-feature evaluation.

    Arithmetic is exact. The natural logarithm is a parameter `ln`; the
    properties that need it assume only `LnLaws(ln)`. The KS statistic and
    p-value come from a parameter `ks`, an oracle standing for scipy. */
module Drift {
  import opened Tables

  /** Floor of every bucket proportion (`_EPS`). */
  const Eps: real := 0.0000000001

  /** Bucket count `psi` uses when its caller gives none. */
  const DefaultBuckets: nat := 10

  /** What the model assumes of `ln`: ln(1) = 0 and strictly increasing on
      the positive reals. */
  ghost predicate LnLaws(ln: real -> real) {
    ln(1.0) == 0.0 && forall x: real, y: real :: 0.0 < x < y ==> ln(x) < ln(y)
  }

  function RMin(x: real, y: real): real { if x <= y then x else y }

  function RMax(x: real, y: real): real { if x >= y then x else y }

  /** `np.clip(x, lo, hi)`, that is minimum(maximum(x, lo), hi). */
  function Clip(x: real, lo: real, hi: real): (r: real)
    requires lo <= hi
    ensures lo <= r <= hi
    ensures lo <= x <= hi ==> r == x
  {
    RMin(RMax(x, lo), hi)
  }

  /** Every proportion lies in [Eps, 1]. */
  predicate UnitRange(p: seq<real>) {
    forall i :: 0 <= i < |p| ==> Eps <= p[i] <= 1.0
  }

  function Min(s: seq<real>): (m: real)
    requires |s| > 0
    ensures m in s
    ensures forall i :: 0 <= i < |s| ==> m <= s[i]
  {
    if |s| == 1 then s[0]
    else
      var rest := Min(s[1..]);
      if s[0] <= rest then s[0] else rest
  }

  function Max(s: seq<real>): (m: real)
    requires |s| > 0
    ensures m in s
    ensures forall i :: 0 <= i < |s| ==> s[i] <= m
  {
    if |s| == 1 then s[0]
    else
      var rest := Max(s[1..]);
      if s[0] >= rest then s[0] else rest
  }

  /** `np.ptp`: the range of a sample. */
  function Ptp(s: seq<real>): (r: real)
    requires |s| > 0
    ensures r >= 0.0
  {
    Max(s) - Min(s)
  }

  /** The edges `np.histogram(x, bins=k)` derives from x's range [lo, hi]:
      k + 1 equally spaced values, the last one exactly hi. */
  function Edges(lo: real, hi: real, k: nat): (e: seq<real>)
    requires k > 0
    ensures |e| == k + 1
  {
    seq(k + 1, i requires 0 <= i <= k =>
      if i == k then hi else lo + (i as real) * ((hi - lo) / (k as real)))
  }

  /** numpy's bucket rule for explicit edges: bucket i is
      [edges[i], edges[i+1]), except the last, which also holds its right
      edge. Values outside [edges[0], edges[last]] are in no bucket. */
  predicate InBin(x: real, edges: seq<real>, i: nat)
    requires i + 1 < |edges|
  {
    edges[i] <= x && (x < edges[i + 1] || (i + 2 == |edges| && x == edges[i + 1]))
  }

  function BinCount(xs: seq<real>, edges: seq<real>, i: nat): (n: nat)
    requires i + 1 < |edges|
    ensures n <= |xs|
  {
    if xs == [] then 0
    else (if InBin(xs[0], edges, i) then 1 else 0) + BinCount(xs[1..], edges, i)
  }

  /** `np.histogram(xs, bins=edges)[0]`: one count per bucket. */
  function Histogram(xs: seq<real>, edges: seq<real>): (counts: seq<nat>)
    requires |edges| >= 2
    ensures |counts| == |edges| - 1
  {
    seq(|edges| - 1, i requires 0 <= i < |edges| - 1 => BinCount(xs, edges, i))
  }

  function Total(counts: seq<nat>): nat {
    if counts == [] then 0 else counts[0] + Total(counts[1..])
  }

  /** No count exceeds the total. */
  lemma {:induction false} CountsWithinTotal(counts: seq<nat>)
    ensures forall i :: 0 <= i < |counts| ==> counts[i] <= Total(counts)
  {
    if counts != [] {
      CountsWithinTotal(counts[1..]);
      forall i | 0 < i < |counts| ensures counts[i] <= Total(counts) {
        assert counts[i] == counts[1..][i - 1];
      }
    }
  }

  /** `max(total, 1)`, the denominator of the bucket shares. */
  function Denominator(counts: seq<nat>): (d: nat)
    ensures d >= 1 && d >= Total(counts)
  {
    if Total(counts) >= 1 then Total(counts) else 1
  }

  /** Each count over d. */
  function Scaled(counts: seq<nat>, d: nat): (s: seq<real>)
    requires d >= 1
    ensures |s| == |counts|
  {
    seq(|counts|, i requires 0 <= i < |counts| => counts[i] as real / d as real)
  }

  /** The bucket shares before clipping, `counts / max(total, 1)`: each
      between 0 and 1. */
  function Shares(counts: seq<nat>): (s: seq<real>)
    ensures |s| == |counts|
    ensures forall i :: 0 <= i < |counts| ==> 0.0 <= s[i] <= 1.0
  {
    CountsWithinTotal(counts);
    Scaled(counts, Denominator(counts))
  }

  /** The shares clipped into [Eps, 1]: a share below Eps becomes Eps, any
      other share is kept. */
  function Proportions(counts: seq<nat>): (p: seq<real>)
    ensures |p| == |counts|
    ensures UnitRange(p)
    ensures forall i :: 0 <= i < |counts| ==>
      p[i] == (if Shares(counts)[i] < Eps then Eps else Shares(counts)[i])
  {
    var shares := Shares(counts);
    seq(|counts|, i requires 0 <= i < |counts| => Clip(shares[i], Eps, 1.0))
  }

  /** How many values lie within Eps of c. */
  function NearCount(xs: seq<real>, c: real): (n: nat)
    ensures n <= |xs|
  {
    if xs == [] then 0
    else (if -Eps <= xs[0] - c <= Eps then 1 else 0) + NearCount(xs[1..], c)
  }

  /** The share of the current sample inside the single bucket of a
      constant reference at c, floored at Eps and capped at 1. */
  function ConstantShare(a: seq<real>, c: real): (q: real)
    requires |a| > 0
    ensures Eps <= q <= 1.0
  {
    RMax(Eps, RMin(NearCount(a, c) as real / |a| as real, 1.0))
  }

  /** The expected and actual bucket proportions of two non-empty samples. */
  function BucketPcts(e: seq<real>, a: seq<real>, buckets: nat): (p: (seq<real>, seq<real>))
    requires |e| > 0 && |a| > 0 && buckets > 0
    ensures |p.0| == |p.1| > 0
    ensures UnitRange(p.0) && UnitRange(p.1)
  {
    if Ptp(e) == 0.0 then
      ([1.0], [ConstantShare(a, Min(e))])
    else
      var edges := Edges(Min(e), Max(e), buckets);
      if Ptp(edges) == 0.0 then ([1.0], [1.0])
      else (Proportions(Histogram(e, edges)), Proportions(Histogram(a, edges)))
  }

  /** One bucket's contribution (a - e) * ln(a / e), the ratio clipped into
      [Eps, 1/Eps] first. */
  function Term(ln: real -> real, ev: real, av: real): real
    requires ev > 0.0
  {
    (av - ev) * ln(Clip(av / ev, Eps, 1.0 / Eps))
  }

  function PsiSum(ln: real -> real, e: seq<real>, a: seq<real>): real
    requires |e| == |a| && UnitRange(e)
  {
    if e == [] then 0.0 else Term(ln, e[0], a[0]) + PsiSum(ln, e[1..], a[1..])
  }

  /** `psi(expected, actual, buckets)`; None stands for the NaN result. */
  function Psi(ln: real -> real, expected: seq<Option<real>>, actual: seq<Option<real>>, buckets: nat)
    : (r: Option<real>)
    requires buckets > 0
    ensures r.None? <==> (forall i :: 0 <= i < |expected| ==> expected[i].None?)
                         || (forall i :: 0 <= i < |actual| ==> actual[i].None?)
  {
    var e := Present(expected);
    var a := Present(actual);
    if |e| == 0 || |a| == 0 then None
    else
      var p := BucketPcts(e, a, buckets);
      Some(PsiSum(ln, p.0, p.1))
  }

  /** `ks_test(expected, actual)`: (NaN, NaN) when either sample has no
      value, otherwise the oracle applied to the values that are present. */
  function KsTest(ks: (seq<real>, seq<real>) -> (real, real), expected: seq<Option<real>>,
                  actual: seq<Option<real>>): (r: (Option<real>, Option<real>))
    ensures r.0.None? <==> r.1.None?
    ensures r.0.None? <==> (forall i :: 0 <= i < |expected| ==> expected[i].None?)
                           || (forall i :: 0 <= i < |actual| ==> actual[i].None?)
    ensures r.0.Some? ==> (r.0.value, r.1.value) == ks(Present(expected), Present(actual))
  {
    var e := Present(expected);
    var a := Present(actual);
    if |e| == 0 || |a| == 0 then (None, None)
    else
      var (stat, pvalue) := ks(e, a);
      (Some(stat), Some(pvalue))
  }

  /** The record `detect_drift` stores per feature. */
  datatype DriftRecord = DriftRecord(psi: Option<real>, ksStat: Option<real>, ksPvalue: Option<real>)

  predicate InBoth(reference: Frame, current: Frame, name: string) {
    name in Names(reference.columns) && name in Names(current.columns)
  }

  /** The record of one column present in both frames, or None when
      converting either column to floats raises. */
  function ColumnMetrics(ln: real -> real, ks: (seq<real>, seq<real>) -> (real, real),
                         reference: Frame, current: Frame, name: string): Option<DriftRecord>
    requires InBoth(reference, current, name)
  {
    var e := AsFloats(Lookup(reference.columns, name).value.cells);
    var a := AsFloats(Lookup(current.columns, name).value.cells);
    if e.None? || a.None? then None
    else
      var (stat, pvalue) := KsTest(ks, e.value, a.value);
      Some(DriftRecord(Psi(ln, e.value, a.value, DefaultBuckets), stat, pvalue))
  }

  /** `detect_drift`: one record per requested column found in both frames;
      the others are skipped. The first column that cannot be read as floats
      makes the call raise (Failure carrying that column). */
  method DetectDrift(ln: real -> real, ks: (seq<real>, seq<real>) -> (real, real),
                     reference: Frame, current: Frame, numericCols: seq<string>)
    returns (r: Result<map<string, DriftRecord>, string>)
    ensures r.Failure? <==> exists c :: c in numericCols && InBoth(reference, current, c)
                                        && ColumnMetrics(ln, ks, reference, current, c).None?
    ensures r.Failure? ==>
      InBoth(reference, current, r.error) && ColumnMetrics(ln, ks, reference, current, r.error).None?
    ensures r.Failure? ==>
      exists k :: (0 <= k < |numericCols| && numericCols[k] == r.error
                   && forall j :: 0 <= j < k && InBoth(reference, current, numericCols[j]) ==>
                        ColumnMetrics(ln, ks, reference, current, numericCols[j]).Some?)
    ensures r.Success? ==> r.value.Keys == set c | c in numericCols && InBoth(reference, current, c)
    ensures r.Success? ==> forall c :: c in r.value ==>
      InBoth(reference, current, c) && ColumnMetrics(ln, ks, reference, current, c) == Some(r.value[c])
  {
    var results: map<string, DriftRecord> := map[];
    var i := 0;
    while i < |numericCols|
      invariant 0 <= i <= |numericCols|
      invariant forall c :: c in results <==> c in numericCols[..i] && InBoth(reference, current, c)
      invariant forall c :: c in results ==>
        InBoth(reference, current, c) && ColumnMetrics(ln, ks, reference, current, c) == Some(results[c])
    {
      var col := numericCols[i];
      assert numericCols[..i + 1] == numericCols[..i] + [col];
      if !InBoth(reference, current, col) {
        i := i + 1;
        continue;
      }
      var record := ColumnMetrics(ln, ks, reference, current, col);
      if record.None? {
        return Failure(col);
      }
      results := results[col := record.value];
      i := i + 1;
    }
    assert numericCols[..i] == numericCols;
    r := Success(results);
  }
}
