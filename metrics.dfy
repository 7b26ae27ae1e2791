/**
 * max_drawdown of src/metrics.py: the equity curve is the running product of
 * (1 + r), the peak its running maximum, the drawdown at each day
 * (equity - peak) / peak, and the result the smallest drawdown.
 *
 * Doubles are modelled as exact reals. The model requires a non-empty series
 * with every 1 + r > 0, so the peak is never zero or negative.
 */
module Metrics {

  /** The product of a series; 1 for the empty series. */
  function Product(xs: seq<real>): real
  {
    if xs == [] then 1.0 else Product(xs[..|xs| - 1]) * xs[|xs| - 1]
  }

  /** The series 1 + r, element by element. */
  function Growth(rets: seq<real>): (g: seq<real>)
    ensures |g| == |rets|
  {
    seq(|rets|, k requires 0 <= k < |rets| => 1.0 + rets[k])
  }

  /** pandas cumprod: entry k is the product of xs[0..k]. */
  function CumProd(xs: seq<real>): (r: seq<real>)
    ensures |r| == |xs|
  {
    seq(|xs|, k requires 0 <= k < |xs| => Product(xs[..k + 1]))
  }

  function Max(a: real, b: real): real
  {
    if a >= b then a else b
  }

  /** The running maximum of xs[0..k]: no smaller than any of those entries. */
  function PeakAt(xs: seq<real>, k: nat): (p: real)
    requires k < |xs|
    ensures forall j :: 0 <= j <= k ==> xs[j] <= p
  {
    if k == 0 then xs[0] else Max(PeakAt(xs, k - 1), xs[k])
  }

  /** Where the running maximum of xs[0..k] is attained: an index no later than k. */
  function PeakIndex(xs: seq<real>, k: nat): (j: nat)
    requires k < |xs|
    ensures j <= k && xs[j] == PeakAt(xs, k)
  {
    if k == 0 then 0
    else if PeakAt(xs, k - 1) >= xs[k] then PeakIndex(xs, k - 1)
    else k
  }

  /** pandas cummax: entry k is the running maximum of xs[0..k]. */
  function CumMax(xs: seq<real>): (r: seq<real>)
    ensures |r| == |xs|
  {
    seq(|xs|, k requires 0 <= k < |xs| => PeakAt(xs, k))
  }

  /**
   * The running peak bounds the series, never decreases, and at every index
   * equals the series at an index no later (the one PeakIndex names).
   */
  lemma RunningPeak(xs: seq<real>)
    ensures forall k :: 0 <= k < |xs| ==> xs[k] <= CumMax(xs)[k]
    ensures forall k :: 0 < k < |xs| ==> CumMax(xs)[k - 1] <= CumMax(xs)[k]
    ensures forall k :: 0 <= k < |xs| ==> PeakIndex(xs, k) <= k && CumMax(xs)[k] == xs[PeakIndex(xs, k)]
  {
    var r := CumMax(xs);
    forall k | 0 <= k < |xs|
      ensures xs[k] <= r[k]
      ensures PeakIndex(xs, k) <= k && r[k] == xs[PeakIndex(xs, k)]
    {
      assert r[k] == PeakAt(xs, k);
    }
    forall k | 0 < k < |xs| ensures r[k - 1] <= r[k] {
      assert r[k] == PeakAt(xs, k) && r[k - 1] == PeakAt(xs, k - 1);
    }
  }

  /** The drawdown of one day: (equity - peak) / peak. */
  function Ratio(equity: real, peak: real): real
    requires peak > 0.0
  {
    (equity - peak) / peak
  }

  /** (equity - peak) / peak, element by element. */
  function Drawdowns(equity: seq<real>, peak: seq<real>): (d: seq<real>)
    requires |equity| == |peak|
    requires forall k :: 0 <= k < |peak| ==> peak[k] > 0.0
    ensures |d| == |equity|
  {
    seq(|equity|, k requires 0 <= k < |equity| => Ratio(equity[k], peak[k]))
  }

  /** pandas Series.min on a non-empty series: an element no greater than any other. */
  function Min(xs: seq<real>): (m: real)
    requires xs != []
    ensures m in xs
    ensures forall k :: 0 <= k < |xs| ==> m <= xs[k]
  {
    if |xs| == 1 then xs[0]
    else
      var rest := Min(xs[1..]);
      assert forall k :: 1 <= k < |xs| ==> xs[k] == xs[1..][k - 1];
      if xs[0] <= rest then xs[0] else rest
  }

  /** The equity curve (1 + rets).cumprod(). */
  function Equity(rets: seq<real>): (e: seq<real>)
    ensures |e| == |rets|
  {
    CumProd(Growth(rets))
  }

  /** The drawdown series of a return series `rets` whose every 1 + r is positive. */
  function DrawdownSeries(rets: seq<real>): (d: seq<real>)
    requires forall k :: 0 <= k < |rets| ==> 1.0 + rets[k] > 0.0
    ensures |d| == |rets|
  {
    EquityPositive(rets);
    var equity := Equity(rets);
    var peak := CumMax(equity);
    Drawdowns(equity, peak)
  }

  /**
   * max_drawdown: the smallest drawdown. It is one of the drawdowns, no
   * greater than any of them, and lies in (-1, 0].
   */
  function MaxDrawdown(rets: seq<real>): (r: real)
    requires rets != []
    requires forall k :: 0 <= k < |rets| ==> 1.0 + rets[k] > 0.0
    ensures r in DrawdownSeries(rets)
    ensures forall k :: 0 <= k < |rets| ==> r <= DrawdownSeries(rets)[k]
    ensures -1.0 < r <= 0.0
  {
    DrawdownBounds(rets);
    Min(DrawdownSeries(rets))
  }

  // ---------------------------------------------------------------------------
  // Lemmas

  /** The equity recurrence: equity[0] = 1 + r[0] and equity[k] = equity[k-1] * (1 + r[k]). */
  lemma EquityRecurrence(rets: seq<real>)
    ensures rets != [] ==> Equity(rets)[0] == 1.0 + rets[0]
    ensures forall k :: 0 < k < |rets| ==> Equity(rets)[k] == Equity(rets)[k - 1] * (1.0 + rets[k])
  {
    var g := Growth(rets);
    if rets != [] {
      assert g[..1][..0] == [];
      assert Product(g[..1]) == Product(g[..1][..0]) * g[0];
    }
    forall k | 0 < k < |rets| ensures Equity(rets)[k] == Equity(rets)[k - 1] * (1.0 + rets[k]) {
      assert g[..k + 1][..k] == g[..k];
    }
  }

  lemma {:induction false} ProductPositive(xs: seq<real>)
    requires forall k :: 0 <= k < |xs| ==> xs[k] > 0.0
    ensures Product(xs) > 0.0
  {
    if xs != [] {
      ProductPositive(xs[..|xs| - 1]);
    }
  }

  /** With every 1 + r > 0, every point of the equity curve is positive. */
  lemma EquityPositive(rets: seq<real>)
    requires forall k :: 0 <= k < |rets| ==> 1.0 + rets[k] > 0.0
    ensures forall k :: 0 <= k < |rets| ==> Equity(rets)[k] > 0.0
  {
    var g := Growth(rets);
    forall k | 0 <= k < |rets| ensures Equity(rets)[k] > 0.0 {
      ProductPositive(g[..k + 1]);
    }
  }

  /** Every drawdown lies in (-1, 0]: the equity is positive and never above its peak. */
  lemma DrawdownBounds(rets: seq<real>)
    requires forall k :: 0 <= k < |rets| ==> 1.0 + rets[k] > 0.0
    ensures forall k :: 0 <= k < |rets| ==> -1.0 < DrawdownSeries(rets)[k] <= 0.0
  {
    EquityPositive(rets);
    var equity := Equity(rets);
    forall k | 0 <= k < |rets| ensures -1.0 < DrawdownSeries(rets)[k] <= 0.0 {
      DrawdownAt(rets, k);
      RatioBounds(equity[k], PeakAt(equity, k));
    }
  }

  lemma RatioBounds(e: real, p: real)
    requires 0.0 < e <= p
    ensures -1.0 < Ratio(e, p) <= 0.0
  {
    var q := (e - p) / p;
    assert q * p == e - p;
    assert (q + 1.0) * p == e;
    assert q + 1.0 > 0.0;
  }

  /** The drawdown of day k, with the peak positive. */
  lemma DrawdownAt(rets: seq<real>, k: nat)
    requires forall j :: 0 <= j < |rets| ==> 1.0 + rets[j] > 0.0
    requires k < |rets|
    ensures 0.0 < Equity(rets)[k] <= PeakAt(Equity(rets), k)
    ensures DrawdownSeries(rets)[k] == Ratio(Equity(rets)[k], PeakAt(Equity(rets), k))
  {
    EquityPositive(rets);
    var equity := Equity(rets);
    var peak := CumMax(equity);
    assert peak[k] == PeakAt(equity, k);
    DrawdownSeriesIs(rets, equity, peak);
    DrawdownsAt(equity, peak, k);
  }

  /** The drawdown series is the element-wise drawdown of the equity curve against its running peak. */
  lemma DrawdownSeriesIs(rets: seq<real>, equity: seq<real>, peak: seq<real>)
    requires forall j :: 0 <= j < |rets| ==> 1.0 + rets[j] > 0.0
    requires equity == Equity(rets) && peak == CumMax(equity)
    ensures forall j :: 0 <= j < |peak| ==> peak[j] > 0.0
    ensures DrawdownSeries(rets) == Drawdowns(equity, peak)
  {
    EquityPositive(rets);
    forall j | 0 <= j < |peak| ensures peak[j] > 0.0 {
      assert peak[j] == PeakAt(equity, j);
    }
  }

  /** Entry k of the element-wise drawdown is the ratio of entry k's equity and peak. */
  lemma DrawdownsAt(equity: seq<real>, peak: seq<real>, k: nat)
    requires |equity| == |peak| && k < |peak|
    requires forall j :: 0 <= j < |peak| ==> peak[j] > 0.0
    ensures Drawdowns(equity, peak)[k] == Ratio(equity[k], peak[k])
  {
  }

  lemma RatioAtPeak(e: real)
    requires e > 0.0
    ensures Ratio(e, e) == 0.0
  {
    assert e - e == 0.0;
  }

  /** On a day when the equity sets a new running maximum, the drawdown is 0. */
  lemma DrawdownZeroAtNewPeak(rets: seq<real>, k: nat)
    requires forall j :: 0 <= j < |rets| ==> 1.0 + rets[j] > 0.0
    requires k < |rets|
    requires forall j :: 0 <= j <= k ==> Equity(rets)[j] <= Equity(rets)[k]
    ensures DrawdownSeries(rets)[k] == 0.0
  {
    DrawdownAt(rets, k);
    var equity := Equity(rets);
    assert equity[PeakIndex(equity, k)] <= equity[k];
    assert PeakAt(equity, k) == equity[k];
    RatioAtPeak(equity[k]);
  }

  /** With no negative return the equity curve never decreases. */
  lemma {:induction false} EquityNonDecreasing(rets: seq<real>)
    requires forall k :: 0 <= k < |rets| ==> rets[k] >= 0.0
    ensures forall j, k :: 0 <= j <= k < |rets| ==> Equity(rets)[j] <= Equity(rets)[k]
  {
    EquityRecurrence(rets);
    EquityPositive(rets);
    var e := Equity(rets);
    forall j, k | 0 <= j <= k < |rets| ensures e[j] <= e[k] {
      StepsUp(rets, e, j, k);
    }
  }

  lemma {:induction false} StepsUp(rets: seq<real>, e: seq<real>, j: nat, k: nat)
    requires |e| == |rets| && j <= k < |rets|
    requires forall i :: 0 <= i < |rets| ==> rets[i] >= 0.0 && e[i] > 0.0
    requires forall i :: 0 < i < |rets| ==> e[i] == e[i - 1] * (1.0 + rets[i])
    ensures e[j] <= e[k]
    decreases k - j
  {
    if j < k {
      StepsUp(rets, e, j, k - 1);
      assert e[k] == e[k - 1] + e[k - 1] * rets[k];
      assert e[k - 1] * rets[k] >= 0.0;
    }
  }

  /** With no negative return there is no drawdown: max_drawdown is exactly 0. */
  lemma NoLossNoDrawdown(rets: seq<real>)
    requires rets != []
    requires forall k :: 0 <= k < |rets| ==> rets[k] >= 0.0
    ensures MaxDrawdown(rets) == 0.0
  {
    EquityNonDecreasing(rets);
    forall k | 0 <= k < |rets| ensures DrawdownSeries(rets)[k] == 0.0 {
      DrawdownZeroAtNewPeak(rets, k);
    }
  }
}
