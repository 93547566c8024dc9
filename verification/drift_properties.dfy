/** What src/drift.py promises about `psi` and `ks_test`, proved of the
    model in module Drift. */
module DriftProperties {
  import opened Tables
  import opened Drift

  lemma {:induction false} PresentConcat(a: seq<Option<real>>, b: seq<Option<real>>)
    ensures Present(a + b) == Present(a) + Present(b)
  {
    if a == [] {
      assert a + b == b;
    } else {
      var head := if a[0].Some? then [a[0].value] else [];
      assert (a + b)[0] == a[0];
      assert (a + b)[1..] == a[1..] + b;
      PresentConcat(a[1..], b);
      assert Present(a + b) == head + (Present(a[1..]) + Present(b));
      SeqAssoc(head, Present(a[1..]), Present(b));
    }
  }

  lemma SeqAssoc<T>(x: seq<T>, y: seq<T>, z: seq<T>)
    ensures x + (y + z) == (x + y) + z
  {
  }

  lemma {:induction false} PresentDropNone(front: seq<Option<real>>, back: seq<Option<real>>)
    ensures Present(front + [None] + back) == Present(front + back)
  {
    if front == [] {
      assert front + [None] + back == [None] + back;
      assert ([None] + back)[1..] == back;
      assert front + back == back;
    } else {
      var xs, ys := front + [None] + back, front + back;
      assert xs[0] == ys[0] == front[0];
      assert xs[1..] == front[1..] + [None] + back;
      assert ys[1..] == front[1..] + back;
      PresentDropNone(front[1..], back);
    }
  }

  lemma PresentInsertNone(xs: seq<Option<real>>, i: nat)
    requires i <= |xs|
    ensures Present(xs[..i] + [None] + xs[i..]) == Present(xs)
  {
    SliceJoin(xs, i);
    PresentDropNone(xs[..i], xs[i..]);
  }

  lemma SliceJoin<T>(xs: seq<T>, i: nat)
    requires i <= |xs|
    ensures xs[..i] + xs[i..] == xs
  {
  }

  /** NaN entries are dropped first: inserting one anywhere into either
      sample changes neither the PSI nor the KS result. */
  lemma MissingValuesIgnored(ln: real -> real, ks: (seq<real>, seq<real>) -> (real, real),
                             xs: seq<Option<real>>, ys: seq<Option<real>>, i: nat, j: nat, buckets: nat)
    requires i <= |xs| && j <= |ys| && buckets > 0
    ensures Psi(ln, xs[..i] + [None] + xs[i..], ys[..j] + [None] + ys[j..], buckets) == Psi(ln, xs, ys, buckets)
    ensures KsTest(ks, xs[..i] + [None] + xs[i..], ys[..j] + [None] + ys[j..]) == KsTest(ks, xs, ys)
  {
    PresentInsertNone(xs, i);
    PresentInsertNone(ys, j);
  }

  /** Both proportions lie in [Eps, 1], so their ratio already lies in
      [Eps, 1/Eps] and clipping it changes nothing. */
  lemma RatioUnclipped(ev: real, av: real)
    requires Eps <= ev <= 1.0 && Eps <= av <= 1.0
    ensures Eps <= av / ev <= 1.0 / Eps
    ensures Clip(av / ev, Eps, 1.0 / Eps) == av / ev
  {
    var r := av / ev;
    assert r * ev == av;
    assert r > 0.0;
    assert r * ev <= r;
    assert r * Eps <= r * ev;
    assert 1.0 / Eps == 10000000000.0;
  }

  /** The single summand against an expected proportion of 1. */
  lemma TermAgainstOne(ln: real -> real, q: real)
    requires Eps <= q <= 1.0
    ensures Term(ln, 1.0, q) == (q - 1.0) * ln(q)
  {
    RatioUnclipped(1.0, q);
    var x := Clip(q / 1.0, Eps, 1.0 / Eps);
    assert x == q;
  }

  /** A quotient of positives exceeds 1 exactly when its numerator exceeds
      its denominator. */
  lemma RatioVersusOne(ev: real, av: real)
    requires ev > 0.0 && av > 0.0
    ensures av > ev <==> av / ev > 1.0
    ensures av < ev <==> av / ev < 1.0
  {
    var r := av / ev;
    assert r * ev == av;
  }

  /** Each summand (a - e) * ln(a / e) is non-negative: a / e - 1 has the
      sign of a - e, and ln has the sign of its argument minus 1. */
  lemma TermNonNegative(ln: real -> real, ev: real, av: real)
    requires LnLaws(ln)
    requires Eps <= ev <= 1.0 && Eps <= av <= 1.0
    ensures Term(ln, ev, av) >= 0.0
  {
    RatioUnclipped(ev, av);
    RatioVersusOne(ev, av);
    var r := av / ev;
    if av > ev {
      assert ln(1.0) < ln(r);
    } else if av < ev {
      assert ln(r) < ln(1.0);
    }
  }

  lemma {:induction false} PsiSumNonNegative(ln: real -> real, e: seq<real>, a: seq<real>)
    requires LnLaws(ln)
    requires |e| == |a| && UnitRange(e) && UnitRange(a)
    ensures PsiSum(ln, e, a) >= 0.0
  {
    if e != [] {
      TermNonNegative(ln, e[0], a[0]);
      PsiSumNonNegative(ln, e[1..], a[1..]);
    }
  }

  /** Every defined PSI is non-negative. */
  lemma PsiNonNegative(ln: real -> real, expected: seq<Option<real>>, actual: seq<Option<real>>, buckets: nat)
    requires LnLaws(ln) && buckets > 0
    ensures Psi(ln, expected, actual, buckets).Some? ==> Psi(ln, expected, actual, buckets).value >= 0.0
  {
    var e := Present(expected);
    var a := Present(actual);
    if |e| > 0 && |a| > 0 {
      var p := BucketPcts(e, a, buckets);
      PsiSumNonNegative(ln, p.0, p.1);
    }
  }

  lemma {:induction false} PsiSumSelf(ln: real -> real, p: seq<real>)
    requires UnitRange(p)
    ensures PsiSum(ln, p, p) == 0.0
  {
    if p != [] {
      PsiSumSelf(ln, p[1..]);
    }
  }

  lemma {:induction false} NearCountAll(xs: seq<real>, c: real)
    requires forall i :: 0 <= i < |xs| ==> -Eps <= xs[i] - c <= Eps
    ensures NearCount(xs, c) == |xs|
  {
    if xs != [] {
      NearCountAll(xs[1..], c);
    }
  }

  lemma {:induction false} NearCountNone(xs: seq<real>, c: real)
    requires forall i :: 0 <= i < |xs| ==> xs[i] - c < -Eps || xs[i] - c > Eps
    ensures NearCount(xs, c) == 0
  {
    if xs != [] {
      NearCountNone(xs[1..], c);
    }
  }

  lemma ShareWhenAllNear(a: seq<real>, c: real)
    requires |a| > 0 && NearCount(a, c) == |a|
    ensures ConstantShare(a, c) == 1.0
  {
    var n := |a| as real;
    assert n / n == 1.0;
  }

  lemma ShareWhenNoneNear(a: seq<real>, c: real)
    requires |a| > 0 && NearCount(a, c) == 0
    ensures ConstantShare(a, c) == Eps
  {
    var n := |a| as real;
    assert 0.0 / n == 0.0;
  }

  /** A sample of zero range is constant at its minimum. */
  lemma ZeroRangeIsConstant(e: seq<real>)
    requires |e| > 0 && Ptp(e) == 0.0
    ensures forall i :: 0 <= i < |e| ==> e[i] == Min(e)
  {
  }

  /** Psi of two samples that both hold a value, unfolded. */
  lemma PsiUnfold(ln: real -> real, expected: seq<Option<real>>, actual: seq<Option<real>>, buckets: nat)
    requires buckets > 0
    requires |Present(expected)| > 0 && |Present(actual)| > 0
    ensures Psi(ln, expected, actual, buckets) ==
      Some(PsiSum(ln, BucketPcts(Present(expected), Present(actual), buckets).0,
                      BucketPcts(Present(expected), Present(actual), buckets).1))
  {
  }

  lemma PsiSumSingle(ln: real -> real, ev: real, av: real)
    requires Eps <= ev <= 1.0
    ensures PsiSum(ln, [ev], [av]) == Term(ln, ev, av)
  {
    assert [ev][1..] == [] && [av][1..] == [];
  }

  /** A reference of zero range takes the single-bucket branch. */
  lemma ConstantBranch(e: seq<real>, a: seq<real>, buckets: nat)
    requires |e| > 0 && |a| > 0 && buckets > 0 && Ptp(e) == 0.0
    ensures BucketPcts(e, a, buckets) == ([1.0], [ConstantShare(a, Min(e))])
  {
  }

  /** Identical reference and current samples give PSI exactly 0, the
      constant case included. */
  lemma PsiSelf(ln: real -> real, xs: seq<Option<real>>, buckets: nat)
    requires buckets > 0
    requires exists i :: 0 <= i < |xs| && xs[i].Some?
    ensures Psi(ln, xs, xs, buckets) == Some(0.0)
  {
    var e := Present(xs);
    PsiUnfold(ln, xs, xs, buckets);
    var p := BucketPcts(e, e, buckets);
    if Ptp(e) == 0.0 {
      ConstantBranch(e, e, buckets);
      ZeroRangeIsConstant(e);
      NearCountAll(e, Min(e));
      ShareWhenAllNear(e, Min(e));
    }
    assert p.0 == p.1;
    PsiSumSelf(ln, p.0);
  }

  /** When the buckets collapse to one whose expected proportion is 1 and
      actual proportion q, PSI is (q - 1) * ln(q). */
  lemma PsiSingleBucket(ln: real -> real, expected: seq<Option<real>>, actual: seq<Option<real>>,
                        buckets: nat, q: real)
    requires buckets > 0
    requires |Present(expected)| > 0 && |Present(actual)| > 0
    requires BucketPcts(Present(expected), Present(actual), buckets) == ([1.0], [q])
    requires Eps <= q <= 1.0
    ensures Psi(ln, expected, actual, buckets) == Some((q - 1.0) * ln(q))
  {
    PsiUnfold(ln, expected, actual, buckets);
    SingleBucketSum(ln, BucketPcts(Present(expected), Present(actual), buckets), q);
  }

  lemma SingleBucketSum(ln: real -> real, p: (seq<real>, seq<real>), q: real)
    requires p == ([1.0], [q]) && Eps <= q <= 1.0
    ensures UnitRange(p.0) && PsiSum(ln, p.0, p.1) == (q - 1.0) * ln(q)
  {
    PsiSumSingle(ln, 1.0, q);
    TermAgainstOne(ln, q);
  }

  /** With a constant reference at c, the expected proportion is exactly 1
      and the actual one is the share of current values within Eps of c,
      clamped into [Eps, 1]. */
  lemma ConstantReference(expected: seq<Option<real>>, actual: seq<Option<real>>, c: real, buckets: nat)
    requires buckets > 0
    requires exists i :: 0 <= i < |expected| && expected[i].Some?
    requires forall i :: 0 <= i < |expected| && expected[i].Some? ==> expected[i].value == c
    requires exists j :: 0 <= j < |actual| && actual[j].Some?
    ensures BucketPcts(Present(expected), Present(actual), buckets) == ([1.0], [ConstantShare(Present(actual), c)])
  {
    var e := Present(expected);
    var a := Present(actual);
    forall i | 0 <= i < |e| ensures e[i] == c {
      assert e[i] in e;
    }
    assert Min(e) == c && Max(e) == c;
    ConstantBranch(e, a, buckets);
  }

  /** ... and PSI is then (q - 1) * ln(q) for that share q. */
  lemma ConstantReferencePsi(ln: real -> real, expected: seq<Option<real>>, actual: seq<Option<real>>,
                             c: real, buckets: nat, q: real)
    requires buckets > 0
    requires exists i :: 0 <= i < |expected| && expected[i].Some?
    requires forall i :: 0 <= i < |expected| && expected[i].Some? ==> expected[i].value == c
    requires exists j :: 0 <= j < |actual| && actual[j].Some?
    requires q == ConstantShare(Present(actual), c)
    ensures Psi(ln, expected, actual, buckets) == Some((q - 1.0) * ln(q))
  {
    ConstantReference(expected, actual, c, buckets);
    PsiSingleBucket(ln, expected, actual, buckets, q);
  }

  /** A constant reference matched by a constant current at the same value
      gives PSI exactly 0. */
  lemma ConstantMatched(ln: real -> real, expected: seq<Option<real>>, actual: seq<Option<real>>,
                        c: real, buckets: nat)
    requires buckets > 0
    requires exists i :: 0 <= i < |expected| && expected[i].Some?
    requires forall i :: 0 <= i < |expected| && expected[i].Some? ==> expected[i].value == c
    requires exists j :: 0 <= j < |actual| && actual[j].Some?
    requires forall j :: 0 <= j < |actual| && actual[j].Some? ==> actual[j].value == c
    ensures Psi(ln, expected, actual, buckets) == Some(0.0)
  {
    MatchedShareIsOne(actual, c);
    FullSharePsi(ln, expected, actual, c, buckets);
  }

  /** A current sample all at c lies wholly in the bucket at c. */
  lemma MatchedShareIsOne(actual: seq<Option<real>>, c: real)
    requires exists j :: 0 <= j < |actual| && actual[j].Some?
    requires forall j :: 0 <= j < |actual| && actual[j].Some? ==> actual[j].value == c
    ensures |Present(actual)| > 0 && ConstantShare(Present(actual), c) == 1.0
  {
    var a := Present(actual);
    forall j | 0 <= j < |a| ensures -Eps <= a[j] - c <= Eps {
      assert a[j] in a;
    }
    NearCountAll(a, c);
    ShareWhenAllNear(a, c);
  }

  /** A constant reference whose current share is 1 gives PSI 0. */
  lemma FullSharePsi(ln: real -> real, expected: seq<Option<real>>, actual: seq<Option<real>>,
                     c: real, buckets: nat)
    requires buckets > 0
    requires exists i :: 0 <= i < |expected| && expected[i].Some?
    requires forall i :: 0 <= i < |expected| && expected[i].Some? ==> expected[i].value == c
    requires exists j :: 0 <= j < |actual| && actual[j].Some?
    requires |Present(actual)| > 0 && ConstantShare(Present(actual), c) == 1.0
    ensures Psi(ln, expected, actual, buckets) == Some(0.0)
  {
    ConstantReference(expected, actual, c, buckets);
    PsiSingleBucket(ln, expected, actual, buckets, 1.0);
    ZeroFactor(ln(1.0));
  }

  lemma ZeroFactor(x: real)
    ensures (1.0 - 1.0) * x == 0.0
  {
  }

  /** The contribution of a bucket at the floor Eps against an expected 1. */
  lemma FloorTermPositive(ln: real -> real)
    requires LnLaws(ln)
    ensures (Eps - 1.0) * ln(Eps) > 0.0
  {
    assert ln(Eps) < ln(1.0);
  }

  /** A current sample with no value within Eps of c has the floor share
      Eps in the single bucket at c. */
  lemma DisjointShareIsFloor(actual: seq<Option<real>>, c: real)
    requires exists j :: 0 <= j < |actual| && actual[j].Some?
    requires forall j :: 0 <= j < |actual| && actual[j].Some? ==>
      actual[j].value - c < -Eps || actual[j].value - c > Eps
    ensures |Present(actual)| > 0 && ConstantShare(Present(actual), c) == Eps
  {
    var a := Present(actual);
    forall j | 0 <= j < |a| ensures a[j] - c < -Eps || a[j] - c > Eps {
      assert a[j] in a;
    }
    NearCountNone(a, c);
    ShareWhenNoneNear(a, c);
  }

  /** A constant reference and a current sample with no value within Eps
      of it give the finite PSI (Eps - 1) * ln(Eps). */
  lemma ConstantDisjoint(ln: real -> real, expected: seq<Option<real>>, actual: seq<Option<real>>,
                         c: real, buckets: nat)
    requires buckets > 0
    requires exists i :: 0 <= i < |expected| && expected[i].Some?
    requires forall i :: 0 <= i < |expected| && expected[i].Some? ==> expected[i].value == c
    requires exists j :: 0 <= j < |actual| && actual[j].Some?
    requires forall j :: 0 <= j < |actual| && actual[j].Some? ==>
      actual[j].value - c < -Eps || actual[j].value - c > Eps
    ensures Psi(ln, expected, actual, buckets) == Some((Eps - 1.0) * ln(Eps))
  {
    DisjointShareIsFloor(actual, c);
    FloorSharePsi(ln, expected, actual, c, buckets);
  }

  /** A constant reference whose current share sits at the floor Eps. */
  lemma FloorSharePsi(ln: real -> real, expected: seq<Option<real>>, actual: seq<Option<real>>,
                      c: real, buckets: nat)
    requires buckets > 0
    requires exists i :: 0 <= i < |expected| && expected[i].Some?
    requires forall i :: 0 <= i < |expected| && expected[i].Some? ==> expected[i].value == c
    requires exists j :: 0 <= j < |actual| && actual[j].Some?
    requires |Present(actual)| > 0 && ConstantShare(Present(actual), c) == Eps
    ensures Psi(ln, expected, actual, buckets) == Some((Eps - 1.0) * ln(Eps))
  {
    ConstantReferencePsi(ln, expected, actual, c, buckets, Eps);
  }

  /** That PSI is strictly positive: a current sample that left the
      constant reference's value always shows drift. */
  lemma ConstantDisjointDrifts(ln: real -> real, expected: seq<Option<real>>, actual: seq<Option<real>>,
                               c: real, buckets: nat)
    requires buckets > 0 && LnLaws(ln)
    requires exists i :: 0 <= i < |expected| && expected[i].Some?
    requires forall i :: 0 <= i < |expected| && expected[i].Some? ==> expected[i].value == c
    requires exists j :: 0 <= j < |actual| && actual[j].Some?
    requires forall j :: 0 <= j < |actual| && actual[j].Some? ==>
      actual[j].value - c < -Eps || actual[j].value - c > Eps
    ensures Psi(ln, expected, actual, buckets).Some? && Psi(ln, expected, actual, buckets).value > 0.0
  {
    ConstantDisjoint(ln, expected, actual, c, buckets);
    FloorTermPositive(ln);
  }

  /** Equal-width edges stay within [lo, hi]. */
  lemma EdgesWithin(lo: real, hi: real, k: nat)
    requires lo < hi && k > 0
    ensures Edges(lo, hi, k)[0] == lo && Edges(lo, hi, k)[k] == hi
    ensures forall i :: 0 <= i <= k ==> lo <= Edges(lo, hi, k)[i] <= hi
  {
    var e := Edges(lo, hi, k);
    forall i | 0 <= i < k ensures lo <= e[i] <= hi {
      EdgeOrder(lo, hi, k as real, i as real, k as real);
    }
  }

  /** The degenerate-edges branch of `psi` is dead in exact arithmetic: a
      reference of non-zero range gives edges of that same, non-zero range. */
  lemma DegenerateEdgesUnreachable(e: seq<real>, buckets: nat)
    requires |e| > 0 && buckets > 0 && Ptp(e) != 0.0
    ensures Ptp(Edges(Min(e), Max(e), buckets)) == Ptp(e) > 0.0
  {
    var edges := Edges(Min(e), Max(e), buckets);
    EdgesWithin(Min(e), Max(e), buckets);
    assert Min(edges) == Min(e) by {
      assert Min(edges) <= edges[0];
    }
    assert Max(edges) == Max(e) by {
      assert Max(edges) >= edges[buckets];
    }
  }

  /** A reference of non-zero range takes the histogram branch. */
  lemma HistogramBranch(e: seq<real>, a: seq<real>, buckets: nat)
    requires |e| > 0 && |a| > 0 && buckets > 0 && Ptp(e) != 0.0
    ensures BucketPcts(e, a, buckets) ==
      (Proportions(Histogram(e, Edges(Min(e), Max(e), buckets))),
       Proportions(Histogram(a, Edges(Min(e), Max(e), buckets))))
  {
    DegenerateEdgesUnreachable(e, buckets);
  }

  lemma {:induction false} BinCountZero(xs: seq<real>, edges: seq<real>, i: nat)
    requires i + 1 < |edges|
    requires forall j :: 0 <= j < |xs| ==> !InBin(xs[j], edges, i)
    ensures BinCount(xs, edges, i) == 0
  {
    if xs != [] {
      BinCountZero(xs[1..], edges, i);
    }
  }

  lemma {:induction false} TotalZero(counts: seq<nat>)
    requires forall i :: 0 <= i < |counts| ==> counts[i] == 0
    ensures Total(counts) == 0
  {
    if counts != [] {
      TotalZero(counts[1..]);
    }
  }

  /** Counts that are all zero become the floor Eps in every bucket. */
  lemma ProportionsOfNothing(counts: seq<nat>)
    requires forall i :: 0 <= i < |counts| ==> counts[i] == 0
    ensures forall i :: 0 <= i < |counts| ==> Proportions(counts)[i] == Eps
  {
    TotalZero(counts);
    var s := Shares(counts);
    forall i | 0 <= i < |counts| ensures s[i] == 0.0 {
      assert s[i] == 0.0 / 1.0;
    }
  }

  /** A current sample lying wholly outside the reference's range counts in
      no bucket; dividing by max(0, 1) then yields the floor Eps in every
      bucket rather than a division by zero. */
  lemma OutsideRangeFloor(e: seq<real>, a: seq<real>, buckets: nat)
    requires |e| > 0 && |a| > 0 && buckets > 0 && Ptp(e) != 0.0
    requires forall j :: 0 <= j < |a| ==> a[j] < Min(e) || a[j] > Max(e)
    ensures |BucketPcts(e, a, buckets).1| == buckets
    ensures forall i :: 0 <= i < buckets ==> BucketPcts(e, a, buckets).1[i] == Eps
  {
    HistogramBranch(e, a, buckets);
    var edges := Edges(Min(e), Max(e), buckets);
    EdgesWithin(Min(e), Max(e), buckets);
    var counts := Histogram(a, edges);
    forall i | 0 <= i < buckets ensures counts[i] == 0 {
      BinCountZero(a, edges, i);
    }
    ProportionsOfNothing(counts);
  }

  /** Edges that grow strictly from left to right. */
  predicate StrictlyIncreasing(edges: seq<real>) {
    forall i, j :: 0 <= i < j < |edges| ==> edges[i] < edges[j]
  }

  /** The equal-width edges of a non-empty range grow strictly. */
  lemma EdgesIncreasing(lo: real, hi: real, k: nat)
    requires lo < hi && k > 0
    ensures StrictlyIncreasing(Edges(lo, hi, k))
  {
    var e := Edges(lo, hi, k);
    forall i, j | 0 <= i < j < |e| ensures e[i] < e[j] {
      EdgeOrder(lo, hi, k as real, i as real, j as real);
    }
  }

  /** Edge a of n equal-width edges over (lo, hi) lies below edge b > a,
      the last edge being hi itself. */
  lemma EdgeOrder(lo: real, hi: real, n: real, a: real, b: real)
    requires lo < hi && n >= 1.0 && 0.0 <= a < b <= n
    ensures lo <= lo + a * ((hi - lo) / n)
    ensures lo + a * ((hi - lo) / n) < if b == n then hi else lo + b * ((hi - lo) / n)
  {
    var w := (hi - lo) / n;
    assert w > 0.0 && n * w == hi - lo;
    assert a * w >= 0.0;
    ScaleLess(a, b, w);
  }

  lemma ScaleLess(a: real, b: real, w: real)
    requires a < b && w > 0.0
    ensures a * w < b * w
  {
    assert b * w - a * w == (b - a) * w;
  }

  /** A value from edges[i] up to the last edge lies in some bucket from i
      on. */
  lemma {:induction false} InSomeBinFrom(x: real, edges: seq<real>, i: nat) returns (j: nat)
    requires i + 1 < |edges| && edges[i] <= x <= edges[|edges| - 1]
    ensures i <= j && j + 1 < |edges| && InBin(x, edges, j)
    decreases |edges| - i
  {
    if x < edges[i + 1] || i + 2 == |edges| {
      j := i;
    } else {
      j := InSomeBinFrom(x, edges, i + 1);
    }
  }

  /** numpy's bucket rule with strictly increasing edges: every value from
      the first to the last edge, the last edge included, lies in exactly
      one bucket. */
  lemma InExactlyOneBin(x: real, edges: seq<real>) returns (j: nat)
    requires |edges| >= 2 && StrictlyIncreasing(edges)
    requires edges[0] <= x <= edges[|edges| - 1]
    ensures j + 1 < |edges| && InBin(x, edges, j)
    ensures forall i :: 0 <= i < |edges| - 1 && InBin(x, edges, i) ==> i == j
  {
    j := InSomeBinFrom(x, edges, 0);
    forall i | 0 <= i < |edges| - 1 && InBin(x, edges, i) ensures i == j {
      OneBin(x, edges, i, j);
    }
  }

  /** Two buckets of strictly increasing edges share no value. */
  lemma OneBin(x: real, edges: seq<real>, i: nat, j: nat)
    requires i + 1 < |edges| && j + 1 < |edges| && StrictlyIncreasing(edges)
    requires InBin(x, edges, i) && InBin(x, edges, j)
    ensures i == j
  {
  }

  /** Pointwise sums of counts add up. */
  lemma {:induction false} TotalSum(a: seq<nat>, b: seq<nat>, c: seq<nat>)
    requires |a| == |b| == |c|
    requires forall i :: 0 <= i < |c| ==> c[i] == a[i] + b[i]
    ensures Total(c) == Total(a) + Total(b)
  {
    if c != [] {
      TotalSum(a[1..], b[1..], c[1..]);
    }
  }

  /** Counts that are 1 at j and 0 elsewhere total 1. */
  lemma {:induction false} TotalOneHot(s: seq<nat>, j: nat)
    requires j < |s|
    requires forall i :: 0 <= i < |s| ==> s[i] == (if i == j then 1 else 0)
    ensures Total(s) == 1
  {
    if j == 0 {
      TotalZero(s[1..]);
    } else {
      TotalOneHot(s[1..], j - 1);
    }
  }

  /** With strictly increasing edges, a sample within the outer edges is
      counted once per value: the counts total its size. */
  lemma {:induction false} HistogramTotal(xs: seq<real>, edges: seq<real>)
    requires |edges| >= 2 && StrictlyIncreasing(edges)
    requires forall k :: 0 <= k < |xs| ==> edges[0] <= xs[k] <= edges[|edges| - 1]
    ensures Total(Histogram(xs, edges)) == |xs|
  {
    if xs == [] {
      TotalZero(Histogram(xs, edges));
    } else {
      var j := InExactlyOneBin(xs[0], edges);
      var one: seq<nat> := seq(|edges| - 1, i requires 0 <= i < |edges| - 1 => if InBin(xs[0], edges, i) then 1 else 0);
      TotalOneHot(one, j);
      HistogramTotal(xs[1..], edges);
      TotalSum(one, Histogram(xs[1..], edges), Histogram(xs, edges));
    }
  }

  /** `np.histogram(expected, bins=bin_edges)` counts every reference value
      exactly once, its maximum included. */
  lemma ReferenceFullyCounted(e: seq<real>, k: nat)
    requires |e| > 0 && k > 0 && Ptp(e) != 0.0
    ensures Total(Histogram(e, Edges(Min(e), Max(e), k))) == |e|
  {
    var edges := Edges(Min(e), Max(e), k);
    EdgesWithin(Min(e), Max(e), k);
    EdgesIncreasing(Min(e), Max(e), k);
    HistogramTotal(e, edges);
  }

  /** Every value of the reference's range lies in exactly one of its
      buckets. */
  lemma ReferenceBucketUnique(e: seq<real>, k: nat, x: real) returns (j: nat)
    requires |e| > 0 && k > 0 && Ptp(e) != 0.0 && Min(e) <= x <= Max(e)
    ensures j < k && InBin(x, Edges(Min(e), Max(e), k), j)
    ensures forall i :: 0 <= i < k && InBin(x, Edges(Min(e), Max(e), k), i) ==> i == j
  {
    EdgesWithin(Min(e), Max(e), k);
    EdgesIncreasing(Min(e), Max(e), k);
    j := InExactlyOneBin(x, Edges(Min(e), Max(e), k));
  }

  function RSum(s: seq<real>): real {
    if s == [] then 0.0 else s[0] + RSum(s[1..])
  }

  /** Dividing every count by d divides their sum by d. */
  lemma {:induction false} ScaledSum(counts: seq<nat>, d: nat)
    requires d >= 1
    ensures RSum(Scaled(counts, d)) == Total(counts) as real / d as real
  {
    if counts != [] {
      var s := Scaled(counts, d);
      assert s[1..] == Scaled(counts[1..], d);
      ScaledSum(counts[1..], d);
      DivAdd(counts[0] as real, Total(counts[1..]) as real, d as real);
    }
  }

  lemma DivAdd(x: real, y: real, d: real)
    requires d > 0.0
    ensures x / d + y / d == (x + y) / d
  {
  }

  /** With at least one count, the shares `counts / max(total, 1)` add up to
      exactly 1. */
  lemma SharesSumToOne(counts: seq<nat>)
    requires Total(counts) >= 1
    ensures RSum(Shares(counts)) == 1.0
  {
    var t := Total(counts);
    assert Shares(counts) == Scaled(counts, t);
    ScaledSum(counts, t);
    SelfQuotient(t as real);
  }

  lemma SelfQuotient(x: real)
    requires x > 0.0
    ensures x / x == 1.0
  {
  }

  /** The reference's bucket shares are its counts over its size and add
      up to 1, before clipping. */
  lemma ReferenceShares(e: seq<real>, k: nat)
    requires |e| > 0 && k > 0 && Ptp(e) != 0.0
    ensures var counts := Histogram(e, Edges(Min(e), Max(e), k));
      && (forall i :: 0 <= i < k ==> Shares(counts)[i] == counts[i] as real / |e| as real)
      && RSum(Shares(counts)) == 1.0
  {
    var counts := Histogram(e, Edges(Min(e), Max(e), k));
    ReferenceFullyCounted(e, k);
    SharesSumToOne(counts);
  }
}
