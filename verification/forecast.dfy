/** The non-numeric half of `forecast_biomarker`
    (backend/app/services/analytics_service.py:36-52): choosing the reference
    bounds from the most recent reading that has a truthy one, the
    threshold-crossing warning over already computed forecast values, and the
    `historical` list of the returned payload. The regression itself is not
    part of this model: forecast values are inputs. */
module Forecast {
  import opened Wrappers
  import opened Records

  /** `next((x for x in reversed(xs) if x), None)`: the truthy entry with the
      greatest index, or `None` when no entry is truthy. */
  function LastTruthy(xs: seq<Option<real>>): (r: Option<real>)
    ensures r.None? <==> forall i :: 0 <= i < |xs| ==> !Truthy(xs[i])
    ensures r.Some? ==> exists i :: (0 <= i < |xs| && xs[i] == r && Truthy(xs[i])
      && forall j :: i < j < |xs| ==> !Truthy(xs[j]))
  {
    if |xs| == 0 then None
    else if Truthy(xs[|xs| - 1]) then xs[|xs| - 1]
    else
      var r := LastTruthy(xs[..|xs| - 1]);
      assert forall i :: 0 <= i < |xs| - 1 ==> xs[..|xs| - 1][i] == xs[i];
      r
  }

  function RefMaxes(bs: seq<Biomarker>): (xs: seq<Option<real>>)
    ensures |xs| == |bs| && forall i :: 0 <= i < |bs| ==> xs[i] == bs[i].refMax
  {
    seq(|bs|, i requires 0 <= i < |bs| => bs[i].refMax)
  }

  function RefMins(bs: seq<Biomarker>): (xs: seq<Option<real>>)
    ensures |xs| == |bs| && forall i :: 0 <= i < |bs| ==> xs[i] == bs[i].refMin
  {
    seq(|bs|, i requires 0 <= i < |bs| => bs[i].refMin)
  }

  /** Appending a reading with a truthy bound makes that bound the chosen one;
      appending one without leaves the choice unchanged. */
  lemma LastTruthySnoc(xs: seq<Option<real>>, x: Option<real>)
    ensures LastTruthy(xs + [x]) == (if Truthy(x) then x else LastTruthy(xs))
  {
    assert (xs + [x])[..|xs|] == xs;
  }

  /** The warning text carries only the limit, so the outcome is one of these. */
  datatype Warning = NoWarning | AboveUpper(limit: real) | BelowLower(limit: real)

  /** Some forecast value is strictly above `limit`. */
  function AnyAbove(values: seq<real>, limit: real): (r: bool)
    ensures r <==> exists i :: 0 <= i < |values| && values[i] > limit
  {
    if |values| == 0 then false
    else values[0] > limit || (assert forall i :: 1 <= i < |values| ==> values[1..][i - 1] == values[i]; AnyAbove(values[1..], limit))
  }

  /** Some forecast value is strictly below `limit`. */
  function AnyBelow(values: seq<real>, limit: real): (r: bool)
    ensures r <==> exists i :: 0 <= i < |values| && values[i] < limit
  {
    if |values| == 0 then false
    else values[0] < limit || (assert forall i :: 1 <= i < |values| ==> values[1..][i - 1] == values[i]; AnyBelow(values[1..], limit))
  }

  /** The two loops: the upper check runs only with a truthy `ref_max`; the
      lower check only with a truthy `ref_min` and no upper warning. */
  function WarningFor(values: seq<real>, refMax: Option<real>, refMin: Option<real>): (w: Warning)
    ensures w.AboveUpper? <==> Truthy(refMax) && exists i :: 0 <= i < |values| && values[i] > refMax.value
    ensures w.AboveUpper? ==> w.limit == refMax.value
    ensures w.BelowLower? <==> !w.AboveUpper? && Truthy(refMin) && exists i :: 0 <= i < |values| && values[i] < refMin.value
    ensures w.BelowLower? ==> w.limit == refMin.value
  {
    if Truthy(refMax) && AnyAbove(values, refMax.value) then AboveUpper(refMax.value)
    else if Truthy(refMin) && AnyBelow(values, refMin.value) then BelowLower(refMin.value)
    else NoWarning
  }

  /** The warning of a forecast over `bs` (oldest first) with the given
      predicted values. */
  function ForecastWarning(bs: seq<Biomarker>, values: seq<real>): (w: Warning)
    ensures w.AboveUpper? ==>
      && (exists i :: 0 <= i < |bs| && Truthy(bs[i].refMax) && w.limit == bs[i].refMax.value
           && forall j :: i < j < |bs| ==> !Truthy(bs[j].refMax))
      && (exists k :: 0 <= k < |values| && values[k] > w.limit)
    ensures w.BelowLower? ==>
      && (exists i :: 0 <= i < |bs| && Truthy(bs[i].refMin) && w.limit == bs[i].refMin.value
           && forall j :: i < j < |bs| ==> !Truthy(bs[j].refMin))
      && (exists k :: 0 <= k < |values| && values[k] < w.limit)
    ensures (forall i :: 0 <= i < |bs| ==> !Truthy(bs[i].refMax) && !Truthy(bs[i].refMin)) ==> w == NoWarning
  {
    var hi := RefMaxes(bs);
    var lo := RefMins(bs);
    WarningFor(values, LastTruthy(hi), LastTruthy(lo))
  }

  /** The truthy entry with no truthy entry after it is the one chosen. */
  lemma LastTruthyAt(xs: seq<Option<real>>, i: int)
    requires 0 <= i < |xs| && Truthy(xs[i])
    requires forall j :: i < j < |xs| ==> !Truthy(xs[j])
    ensures LastTruthy(xs) == xs[i]
  {
    var r := LastTruthy(xs);
    var i' :| 0 <= i' < |xs| && xs[i'] == r && Truthy(xs[i']) && forall j :: i' < j < |xs| ==> !Truthy(xs[j]);
  }

  /** The converse of ForecastWarning's contract: when the reading whose
      upper bound is chosen has a value above that bound, the warning is an
      upper one; failing that, a value below the chosen lower bound gives a
      lower one. */
  lemma ForecastWarningChosen(bs: seq<Biomarker>, values: seq<real>)
    ensures (exists i :: 0 <= i < |bs| && Truthy(bs[i].refMax) && (forall j :: i < j < |bs| ==> !Truthy(bs[j].refMax))
               && exists k :: 0 <= k < |values| && values[k] > bs[i].refMax.value)
      ==> ForecastWarning(bs, values).AboveUpper?
    ensures !ForecastWarning(bs, values).AboveUpper? &&
      (exists i :: 0 <= i < |bs| && Truthy(bs[i].refMin) && (forall j :: i < j < |bs| ==> !Truthy(bs[j].refMin))
         && exists k :: 0 <= k < |values| && values[k] < bs[i].refMin.value)
      ==> ForecastWarning(bs, values).BelowLower?
  {
    forall i | 0 <= i < |bs| && Truthy(bs[i].refMax) && (forall j :: i < j < |bs| ==> !Truthy(bs[j].refMax))
      ensures LastTruthy(RefMaxes(bs)) == bs[i].refMax
    {
      LastTruthyAt(RefMaxes(bs), i);
    }
    forall i | 0 <= i < |bs| && Truthy(bs[i].refMin) && (forall j :: i < j < |bs| ==> !Truthy(bs[j].refMin))
      ensures LastTruthy(RefMins(bs)) == bs[i].refMin
    {
      LastTruthyAt(RefMins(bs), i);
    }
  }

  /** One more reading: each bound it has truthy replaces the chosen one, and
      each bound it lacks leaves the earlier choice in place. */
  lemma ForecastWarningSnoc(bs: seq<Biomarker>, b: Biomarker, values: seq<real>)
    ensures ForecastWarning(bs + [b], values) == WarningFor(values,
      if Truthy(b.refMax) then b.refMax else LastTruthy(RefMaxes(bs)),
      if Truthy(b.refMin) then b.refMin else LastTruthy(RefMins(bs)))
  {
    assert RefMaxes(bs + [b]) == RefMaxes(bs) + [b.refMax];
    assert RefMins(bs + [b]) == RefMins(bs) + [b.refMin];
    LastTruthySnoc(RefMaxes(bs), b.refMax);
    LastTruthySnoc(RefMins(bs), b.refMin);
  }

  /** A newest reading with both bounds truthy decides the warning alone. */
  lemma NewestBoundsDecide(bs: seq<Biomarker>, b: Biomarker, values: seq<real>)
    requires Truthy(b.refMax) && Truthy(b.refMin)
    ensures ForecastWarning(bs + [b], values) == WarningFor(values, b.refMax, b.refMin)
  {
    assert RefMaxes(bs + [b]) == RefMaxes(bs) + [b.refMax];
    assert RefMins(bs + [b]) == RefMins(bs) + [b.refMin];
    LastTruthySnoc(RefMaxes(bs), b.refMax);
    LastTruthySnoc(RefMins(bs), b.refMin);
  }

  /** Forecast values inside the chosen range never warn, whatever the bounds. */
  lemma InRangeNoWarning(values: seq<real>, refMax: Option<real>, refMin: Option<real>)
    requires refMax.Some? ==> forall i :: 0 <= i < |values| ==> values[i] <= refMax.value
    requires refMin.Some? ==> forall i :: 0 <= i < |values| ==> values[i] >= refMin.value
    ensures WarningFor(values, refMax, refMin) == NoWarning
  {
  }

  /** The upper warning wins even when a value is also below the lower limit. */
  lemma UpperWins(values: seq<real>, hi: real, lo: real, i: int, j: int)
    requires hi != 0.0 && lo != 0.0
    requires 0 <= i < |values| && values[i] > hi
    requires 0 <= j < |values| && values[j] < lo
    ensures WarningFor(values, Some(hi), Some(lo)) == AboveUpper(hi)
  {
  }

  /** A zero bound is falsy, so it never produces a warning: the bound is
      searched past it, and a lone zero bound behaves like no bound. */
  lemma ZeroBoundNeverWarns(values: seq<real>, refMin: Option<real>)
    ensures WarningFor(values, Some(0.0), refMin) == WarningFor(values, None, refMin)
    ensures WarningFor(values, None, Some(0.0)) == NoWarning
    ensures LastTruthy([Some(5.0), Some(0.0)]) == Some(5.0)
  {
    LastTruthySnoc([Some(5.0)], Some(0.0));
    LastTruthySnoc([], Some(5.0));
  }

  /** `historical` of the payload as written: date and value only, no id. */
  function PayloadHistory(bs: seq<Biomarker>): (h: seq<HistoryPoint>)
    ensures |h| == |bs|
    ensures forall i :: 0 <= i < |bs| ==> h[i] == HistoryPoint(bs[i].recordedAt, bs[i].value, None)
  {
    seq(|bs|, i requires 0 <= i < |bs| => HistoryPoint(bs[i].recordedAt, bs[i].value, None))
  }

  /** `historical` as the chart needs it: each point also carries the reading's
      id, which is what the anomaly lookup keys on. */
  function PayloadHistoryWithIds(bs: seq<Biomarker>): (h: seq<HistoryPoint>)
    ensures |h| == |bs|
    ensures forall i :: 0 <= i < |bs| ==> h[i] == HistoryPoint(bs[i].recordedAt, bs[i].value, Some(bs[i].id))
  {
    seq(|bs|, i requires 0 <= i < |bs| => HistoryPoint(bs[i].recordedAt, bs[i].value, Some(bs[i].id)))
  }
}
