/** `detect_anomalies`: every row of the temporal frame is labelled `Anomaly` when its
    quantity or its vessel count lies more than two sample standard deviations from the
    mean of the trailing window of (at most) 7 rows, and `Normal` otherwise. Values are
    reals; `None` stands for NaN. Instead of taking a square root, |z| > 2 is decided as
    (x - mean)^2 > 4 * variance, which `ZScoreSquared` justifies. */
module Rolling {
  import opened Wrappers

  const WindowSize: nat := 7

  datatype Label = Normal | Anomaly

  /** The trailing window of row `i`: rows `i - 6` to `i`, cut at the first row. */
  function Window(xs: seq<Option<real>>, i: nat): (w: seq<Option<real>>)
    requires i < |xs|
    ensures 1 <= |w| <= WindowSize && |w| <= i + 1 && w[|w| - 1] == xs[i]
    ensures forall j :: 0 <= j < |w| ==> w[j] == xs[i + 1 - |w| + j]
  {
    if i + 1 >= WindowSize then xs[i + 1 - WindowSize..i + 1] else xs[..i + 1]
  }

  /** The values of a window that are not NaN, in order; rolling statistics skip NaN. */
  function Present(w: seq<Option<real>>): (vs: seq<real>)
    ensures |vs| <= |w|
  {
    if w == [] then []
    else if w[0].Some? then [w[0].value] + Present(w[1..])
    else Present(w[1..])
  }

  function Sum(vs: seq<real>): real
  {
    if vs == [] then 0.0 else Sum(vs[..|vs| - 1]) + vs[|vs| - 1]
  }

  /** `rolling(...).mean()` over the present values; defined from one value on
      (`min_periods=1`). */
  function Mean(vs: seq<real>): real
    requires |vs| >= 1
  {
    Sum(vs) / (|vs| as real)
  }

  function Square(x: real): (r: real)
    ensures r >= 0.0
  {
    x * x
  }

  function SquaredDeviations(vs: seq<real>, m: real): (r: real)
    ensures r >= 0.0
  {
    if vs == [] then 0.0 else SquaredDeviations(vs[..|vs| - 1], m) + Square(vs[|vs| - 1] - m)
  }

  /** `rolling(...).std()` squared: the sample variance, defined from two values on. */
  function SampleVariance(vs: seq<real>): (r: real)
    requires |vs| >= 2
    ensures r >= 0.0
  {
    SquaredDeviations(vs, Mean(vs)) / ((|vs| - 1) as real)
  }

  /** |z| > 2 for the last row of window `w`: the row has a value, the window's standard
      deviation is defined and not zero, and the value is more than two standard
      deviations from the window's mean. Otherwise z is NaN or small, and `abs(z) > 2` is
      false. */
  predicate LastIsOutlier(w: seq<Option<real>>)
    requires w != []
  {
    var vs := Present(w);
    && w[|w| - 1].Some?
    && |vs| >= 2
    && SampleVariance(vs) > 0.0
    && Square(w[|w| - 1].value - Mean(vs)) > 4.0 * SampleVariance(vs)
  }

  /** |z| > 2 for row `i` of one column. */
  predicate Outlier(xs: seq<Option<real>>, i: nat)
    requires i < |xs|
  {
    LastIsOutlier(Window(xs, i))
  }

  /** The label of row `i`. */
  function LabelAt(qty: seq<Option<real>>, vessels: seq<Option<real>>, i: nat): Label
    requires i < |qty| == |vessels|
  {
    if Outlier(qty, i) || Outlier(vessels, i) then Anomaly else Normal
  }

  /** `DataFrame.apply(f, axis=1)` over the first `n` rows: `f` of each row, in order. */
  function Apply<T>(f: nat --> T, n: nat): (r: seq<T>)
    requires forall i: nat :: i < n ==> f.requires(i)
    ensures |r| == n
  {
    if n == 0 then [] else Apply(f, n - 1) + [f(n - 1)]
  }

  lemma {:induction false} ApplyAt<T>(f: nat --> T, n: nat, i: nat)
    requires forall i: nat :: i < n ==> f.requires(i)
    requires i < n
    ensures Apply(f, n)[i] == f(i)
  {
    if i < n - 1 {
      ApplyAt(f, n - 1, i);
    }
  }

  /** The labelling function `apply` calls on each row. */
  function RowLabeller(qty: seq<Option<real>>, vessels: seq<Option<real>>): nat --> Label
    requires |qty| == |vessels|
  {
    (i: nat) requires i < |qty| => LabelAt(qty, vessels, i)
  }

  /** The `anomaly` column: one label per row. */
  function Labels(qty: seq<Option<real>>, vessels: seq<Option<real>>): (ls: seq<Label>)
    requires |qty| == |vessels|
    ensures |ls| == |qty|
  {
    Apply(RowLabeller(qty, vessels), |qty|)
  }

  /** The `anomaly` column keeps the row count, and row `i` is labelled `Anomaly`
      exactly when its quantity or its vessel count is an outlier of its window. */
  lemma LabelsMeaning(qty: seq<Option<real>>, vessels: seq<Option<real>>, i: nat)
    requires i < |qty| == |vessels|
    ensures |Labels(qty, vessels)| == |qty|
    ensures Labels(qty, vessels)[i] == Anomaly <==> Outlier(qty, i) || Outlier(vessels, i)
  {
    ApplyAt(RowLabeller(qty, vessels), |qty|, i);
  }

  /** The `apply` over the rows: the label of each row in turn. */
  method ComputeLabels(qty: seq<Option<real>>, vessels: seq<Option<real>>) returns (labels: seq<Label>)
    requires |qty| == |vessels|
    ensures labels == Labels(qty, vessels)
  {
    var f := RowLabeller(qty, vessels);
    labels := [];
    for i := 0 to |qty|
      invariant labels == Apply(f, i)
    {
      labels := labels + [f(i)];
    }
  }

  /** The frame `detect_anomalies` receives and extends in place. `hasColumns` is false
      for the column-less empty frame that `prepare_temporal_dataframe` returns on error;
      `anomaly` is `None` until the column is added. */
  class TemporalTable {
    var hasColumns: bool
    var qtyTons: seq<Option<real>>
    var numVessels: seq<Option<real>>
    var anomaly: Option<seq<Label>>

    predicate Valid()
      reads this
    {
      && |qtyTons| == |numVessels|
      && (anomaly.Some? ==> |anomaly.value| == |qtyTons|)
      && (!hasColumns ==> qtyTons == [])
    }

    constructor (qty: seq<Option<real>>, vessels: seq<Option<real>>)
      requires |qty| == |vessels|
      ensures Valid()
      ensures hasColumns && qtyTons == qty && numVessels == vessels && anomaly == None
    {
      hasColumns := true;
      qtyTons := qty;
      numVessels := vessels;
      anomaly := None;
    }

    /** Adds the `anomaly` column, leaving the data columns as they are. Reading a
        missing column raises `KeyError`, and the handler returns the frame unchanged. */
    method DetectAnomalies()
      requires Valid()
      modifies this
      ensures Valid()
      ensures hasColumns == old(hasColumns)
      ensures qtyTons == old(qtyTons) && numVessels == old(numVessels)
      ensures anomaly == if hasColumns then Some(Labels(qtyTons, numVessels)) else old(anomaly)
    {
      if !hasColumns {
        return;
      }
      var labels := ComputeLabels(qtyTons, numVessels);
      anomaly := Some(labels);
    }
  }

  function Abs(x: real): real
  {
    if x < 0.0 then -x else x
  }

  lemma ProductPositive(a: real, b: real)
    requires a > 0.0 && b > 0.0
    ensures a * b > 0.0
  {
  }

  /** Between non-negative reals, the order of the squares is the order of the values. */
  lemma SquareMonotone(x: real, y: real)
    requires x >= 0.0 && y >= 0.0
    ensures x > y <==> x * x > y * y
  {
    assert x * x - y * y == (x - y) * (x + y);
    if x > y {
      ProductPositive(x - y, x + y);
    } else if x < y {
      ProductPositive(y - x, y + x);
      assert y * y - x * x == (y - x) * (y + x);
    }
  }

  lemma RatioThreshold(x: real, sd: real)
    requires sd > 0.0
    ensures x / sd > 2.0 <==> x > 2.0 * sd
  {
  }

  /** For a positive standard deviation `sd`, |d / sd| > 2 holds exactly when
      d^2 > 4 * sd^2, so the labels need no square root. */
  lemma ZScoreSquared(d: real, sd: real)
    requires sd > 0.0
    ensures Abs(d / sd) > 2.0 <==> d * d > 4.0 * (sd * sd)
  {
    var x := Abs(d);
    assert Abs(d / sd) == x / sd;
    RatioThreshold(x, sd);
    SquareMonotone(x, 2.0 * sd);
    assert d * d == x * x;
    assert (2.0 * sd) * (2.0 * sd) == 4.0 * (sd * sd);
  }

  /** The first row is `Normal`: the standard deviation of one value is NaN. */
  lemma FirstRowNormal(qty: seq<Option<real>>, vessels: seq<Option<real>>)
    requires |qty| == |vessels| >= 1
    ensures LabelAt(qty, vessels, 0) == Normal
  {
    assert |Present(Window(qty, 0))| <= 1;
    assert |Present(Window(vessels, 0))| <= 1;
  }

  lemma {:induction false} ConstantSums(vs: seq<real>, c: real, m: real)
    requires forall j :: 0 <= j < |vs| ==> vs[j] == c
    ensures Sum(vs) == (|vs| as real) * c
    ensures SquaredDeviations(vs, m) == (|vs| as real) * ((c - m) * (c - m))
  {
    if vs != [] {
      ConstantSums(vs[..|vs| - 1], c, m);
    }
  }

  lemma {:induction false} PresentValues(w: seq<Option<real>>, c: real)
    requires forall j :: 0 <= j < |w| && w[j].Some? ==> w[j].value == c
    ensures forall j :: 0 <= j < |Present(w)| ==> Present(w)[j] == c
  {
    if w != [] {
      PresentValues(w[1..], c);
    }
  }

  lemma {:induction false} PresentAllSome(w: seq<Option<real>>)
    requires forall j :: 0 <= j < |w| ==> w[j].Some?
    ensures |Present(w)| == |w| && forall j :: 0 <= j < |w| ==> Present(w)[j] == w[j].value
  {
    if w != [] {
      PresentAllSome(w[1..]);
    }
  }

  /** Values that are all equal have that value as their mean and a variance of zero. */
  lemma ConstantStatistics(vs: seq<real>, c: real)
    requires |vs| >= 2 && forall j :: 0 <= j < |vs| ==> vs[j] == c
    ensures Mean(vs) == c && SampleVariance(vs) == 0.0
  {
    ConstantSums(vs, c, c);
  }

  /** A row whose window holds one value `c` (apart from NaN) is not an outlier: the
      standard deviation is zero and z is 0/0. */
  lemma ConstantWindowNotOutlier(xs: seq<Option<real>>, i: nat, c: real)
    requires i < |xs|
    requires forall j :: 0 <= j <= i && i < j + WindowSize && xs[j].Some? ==> xs[j].value == c
    ensures !Outlier(xs, i)
  {
    var w := Window(xs, i);
    assert forall j :: 0 <= j < |w| && w[j].Some? ==> w[j].value == c;
    PresentValues(w, c);
    var vs := Present(w);
    if |vs| >= 2 {
      ConstantStatistics(vs, c);
    }
  }

  /** The statistics of six values `c` and one `c + 7`: mean c + 1, variance 7. */
  lemma SpikeStatistics(vs: seq<real>, c: real)
    requires vs == [c, c, c, c, c, c, c + 7.0]
    ensures Mean(vs) == c + 1.0 && SampleVariance(vs) == 7.0
  {
    var cs := [c, c, c, c, c, c];
    var m := c + 1.0;
    assert vs[..6] == cs;
    ConstantSums(cs, c, m);
    assert Sum(vs) == 7.0 * c + 7.0;
    assert SquaredDeviations(vs, m) == 6.0 * Square(-1.0) + Square(6.0);
  }

  /** A full window of six values `c` and then `c + 7` has its last row as an outlier,
      since that row's squared deviation 36 exceeds four times the variance 7. */
  lemma SpikeWindow(w: seq<Option<real>>, c: real)
    requires w == [Some(c), Some(c), Some(c), Some(c), Some(c), Some(c), Some(c + 7.0)]
    ensures LastIsOutlier(w)
  {
    PresentAllSome(w);
    var vs := Present(w);
    assert vs == [c, c, c, c, c, c, c + 7.0];
    SpikeStatistics(vs, c);
    assert c + 7.0 - Mean(vs) == 6.0;
    assert Square(6.0) == 36.0;
  }

  /** Six equal values followed by a jump of 7: the seventh row is an outlier. */
  lemma SpikeIsOutlier(xs: seq<Option<real>>, c: real)
    requires xs == [Some(c), Some(c), Some(c), Some(c), Some(c), Some(c), Some(c + 7.0)]
    ensures Outlier(xs, 6)
  {
    assert Window(xs, 6) == xs;
    SpikeWindow(xs, c);
  }

  /** A row whose value is NaN in both columns is `Normal`. */
  lemma MissingRowNormal(qty: seq<Option<real>>, vessels: seq<Option<real>>, i: nat)
    requires i < |qty| == |vessels|
    requires qty[i].None? && vessels[i].None?
    ensures LabelAt(qty, vessels, i) == Normal
  {
  }

  /** The label of a row depends only on the rows of its window: changing rows outside
      it does not change it. */
  lemma LabelIsLocal(qty: seq<Option<real>>, vessels: seq<Option<real>>,
                     qty': seq<Option<real>>, vessels': seq<Option<real>>, i: nat)
    requires i < |qty| == |vessels| && i < |qty'| == |vessels'|
    requires Window(qty, i) == Window(qty', i) && Window(vessels, i) == Window(vessels', i)
    ensures LabelAt(qty, vessels, i) == LabelAt(qty', vessels', i)
  {
  }
}
