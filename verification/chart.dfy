/** The biomarker chart's data shaping (frontend/src/components/BiomarkerChart.jsx:21-45):
    historical readings become `actual` points, forecast readings become
    `forecast` points, one bridge point joins the two lines, and the y-axis
    domain is padded around the values that survive a truthiness filter. */
module Chart {
  import opened Wrappers
  import opened Records

  /** One element of the `combined` array handed to the chart. The date label
      is kept as the underlying timestamp. */
  datatype ChartPoint = ChartPoint(date: int, actual: Option<real>, forecast: Option<real>, isAnomaly: bool)

  /** `anomalySet.has(d.id)`: a point without an id is never found. */
  predicate Marked(anomalyIds: set<int>, id: Option<int>) {
    id.Some? && id.value in anomalyIds
  }

  /** `histData`: one actual-only point per historical reading, in order. */
  function HistData(historical: seq<HistoryPoint>, anomalyIds: set<int>): (r: seq<ChartPoint>)
    ensures |r| == |historical|
    ensures forall i :: 0 <= i < |r| ==>
      r[i] == ChartPoint(historical[i].date, Some(historical[i].value), None, Marked(anomalyIds, historical[i].id))
  {
    seq(|historical|, i requires 0 <= i < |historical| =>
      ChartPoint(historical[i].date, Some(historical[i].value), None, Marked(anomalyIds, historical[i].id)))
  }

  /** `forecastData`: one forecast-only point per forecast reading, in order. A
      forecast point has no `isAnomaly` field, which reads as false. */
  function ForecastData(forecast: seq<ForecastPoint>): (r: seq<ChartPoint>)
    ensures |r| == |forecast|
    ensures forall i :: 0 <= i < |r| ==> r[i] == ChartPoint(forecast[i].date, None, Some(forecast[i].value), false)
  {
    seq(|forecast|, i requires 0 <= i < |forecast| => ChartPoint(forecast[i].date, None, Some(forecast[i].value), false))
  }

  /** The bridge: a copy of the last historical point whose `forecast` is its
      own `actual`; there is none when there is no historical point. */
  function Bridge(histData: seq<ChartPoint>): seq<ChartPoint> {
    if |histData| == 0 then []
    else var last := histData[|histData| - 1]; [last.(forecast := last.actual)]
  }

  /** `combined`: the historical points, the bridge, then the forecast points. */
  function Combined(historical: seq<HistoryPoint>, forecast: seq<ForecastPoint>, anomalyIds: set<int>): (r: seq<ChartPoint>)
    ensures |r| == |historical| + |forecast| + (if |historical| > 0 then 1 else 0)
    ensures forall i :: 0 <= i < |historical| ==>
      && r[i].actual == Some(historical[i].value)
      && r[i].forecast.None?
      && r[i].date == historical[i].date
      && (r[i].isAnomaly <==> Marked(anomalyIds, historical[i].id))
    ensures |historical| > 0 ==>
      var b := r[|historical|];
      var last := historical[|historical| - 1];
      && b.date == last.date
      && b.actual == Some(last.value)
      && b.forecast == Some(last.value)
      && (b.isAnomaly <==> Marked(anomalyIds, last.id))
    ensures var off := |r| - |forecast|;
      forall j :: off <= j < |r| ==>
        r[j] == ChartPoint(forecast[j - off].date, None, Some(forecast[j - off].value), false)
  {
    var h := HistData(historical, anomalyIds);
    var r := h + Bridge(h) + ForecastData(forecast);
    CombinedHistory(historical, forecast, anomalyIds, r);
    CombinedBridge(historical, forecast, anomalyIds, r);
    CombinedForecast(historical, forecast, anomalyIds, r);
    r
  }

  lemma CombinedHistory(historical: seq<HistoryPoint>, forecast: seq<ForecastPoint>, anomalyIds: set<int>, r: seq<ChartPoint>)
    requires var h := HistData(historical, anomalyIds); r == h + Bridge(h) + ForecastData(forecast)
    ensures forall i :: 0 <= i < |historical| ==>
      && r[i].actual == Some(historical[i].value)
      && r[i].forecast.None?
      && r[i].date == historical[i].date
      && (r[i].isAnomaly <==> Marked(anomalyIds, historical[i].id))
  {
    var h := HistData(historical, anomalyIds);
    forall i | 0 <= i < |historical| ensures r[i] == h[i] {
      assert r == h + (Bridge(h) + ForecastData(forecast));
    }
  }

  lemma CombinedBridge(historical: seq<HistoryPoint>, forecast: seq<ForecastPoint>, anomalyIds: set<int>, r: seq<ChartPoint>)
    requires var h := HistData(historical, anomalyIds); r == h + Bridge(h) + ForecastData(forecast)
    ensures |historical| > 0 ==>
      var b := r[|historical|];
      var last := historical[|historical| - 1];
      && b.date == last.date
      && b.actual == Some(last.value)
      && b.forecast == Some(last.value)
      && (b.isAnomaly <==> Marked(anomalyIds, last.id))
  {
    var h := HistData(historical, anomalyIds);
    if |h| > 0 {
      var n := |h|;
      assert r[n] == Bridge(h)[0];
      assert h[n - 1] == ChartPoint(historical[n - 1].date, Some(historical[n - 1].value), None, Marked(anomalyIds, historical[n - 1].id));
    }
  }

  lemma CombinedForecast(historical: seq<HistoryPoint>, forecast: seq<ForecastPoint>, anomalyIds: set<int>, r: seq<ChartPoint>)
    requires var h := HistData(historical, anomalyIds); r == h + Bridge(h) + ForecastData(forecast)
    ensures |r| == |historical| + |forecast| + (if |historical| > 0 then 1 else 0)
    ensures var off := |r| - |forecast|;
      forall j :: off <= j < |r| ==>
        r[j] == ChartPoint(forecast[j - off].date, None, Some(forecast[j - off].value), false)
  {
    var h := HistData(historical, anomalyIds);
    var f := ForecastData(forecast);
    var pre := h + Bridge(h);
    assert |Bridge(h)| == (if |h| > 0 then 1 else 0);
    assert r == pre + f;
    assert |r| - |forecast| == |pre|;
    var off := |r| - |forecast|;
    forall j | off <= j < |r|
      ensures r[j] == ChartPoint(forecast[j - off].date, None, Some(forecast[j - off].value), false)
    {
      assert r[j] == f[j - off];
    }
  }

  /** Only the bridge carries both an actual and a forecast value. */
  lemma OnlyBridgeHasBoth(historical: seq<HistoryPoint>, forecast: seq<ForecastPoint>, anomalyIds: set<int>, i: int)
    requires 0 <= i < |Combined(historical, forecast, anomalyIds)|
    requires Combined(historical, forecast, anomalyIds)[i].actual.Some?
    requires Combined(historical, forecast, anomalyIds)[i].forecast.Some?
    ensures |historical| > 0 && i == |historical|
  {
  }

  /** No point is marked anomalous unless it stands for a historical reading
      whose id is in the anomaly set. */
  lemma AnomalyOnlyFromIds(historical: seq<HistoryPoint>, forecast: seq<ForecastPoint>, anomalyIds: set<int>, i: int)
    requires 0 <= i < |Combined(historical, forecast, anomalyIds)|
    requires Combined(historical, forecast, anomalyIds)[i].isAnomaly
    ensures i <= |historical|
    ensures i < |historical| ==> Marked(anomalyIds, historical[i].id)
    ensures i == |historical| ==> Marked(anomalyIds, historical[i - 1].id)
  {
  }

  /** `allValues`: actuals, forecasts, refMin and refMax, keeping only truthy
      entries (so a value of 0 and an absent bound are both dropped). */
  function AxisPool(historical: seq<HistoryPoint>, forecast: seq<ForecastPoint>, refMin: Option<real>, refMax: Option<real>): (r: seq<real>)
    ensures forall v :: v in r ==> v != 0.0
    ensures |r| <= |historical| + |forecast| + 2
  {
    var raw := seq(|historical|, i requires 0 <= i < |historical| => Some(historical[i].value))
      + seq(|forecast|, j requires 0 <= j < |forecast| => Some(forecast[j].value))
      + [refMin, refMax];
    KeepTruthy(raw)
  }

  /** `.filter(Boolean)` on a list of nullable numbers. */
  function KeepTruthy(xs: seq<Option<real>>): (r: seq<real>)
    ensures forall v :: v in r <==> Some(v) in xs && v != 0.0
    ensures |r| <= |xs|
  {
    if |xs| == 0 then []
    else
      var rest := KeepTruthy(xs[1..]);
      assert xs == [xs[0]] + xs[1..];
      if Truthy(xs[0]) then [xs[0].value] + rest else rest
  }

  /** Membership in the axis pool, stated on the inputs. */
  lemma AxisPoolMembers(historical: seq<HistoryPoint>, forecast: seq<ForecastPoint>, refMin: Option<real>, refMax: Option<real>, v: real)
    ensures v in AxisPool(historical, forecast, refMin, refMax) <==>
      v != 0.0 &&
      ((exists i :: 0 <= i < |historical| && historical[i].value == v)
       || (exists j :: 0 <= j < |forecast| && forecast[j].value == v)
       || refMin == Some(v) || refMax == Some(v))
  {
    var hs := seq(|historical|, i requires 0 <= i < |historical| => Some(historical[i].value));
    var fs := seq(|forecast|, j requires 0 <= j < |forecast| => Some(forecast[j].value));
    var raw := hs + fs + [refMin, refMax];
    if Some(v) in raw {
      RawFrom(historical, forecast, refMin, refMax, v, raw);
    }
    if (exists i :: 0 <= i < |historical| && historical[i].value == v)
       || (exists j :: 0 <= j < |forecast| && forecast[j].value == v)
       || refMin == Some(v) || refMax == Some(v) {
      RawTo(historical, forecast, refMin, refMax, v, raw);
    }
  }

  /** A value in the unfiltered pool comes from a reading, a forecast or a bound. */
  lemma RawFrom(historical: seq<HistoryPoint>, forecast: seq<ForecastPoint>, refMin: Option<real>, refMax: Option<real>, v: real, raw: seq<Option<real>>)
    requires raw == seq(|historical|, i requires 0 <= i < |historical| => Some(historical[i].value))
      + seq(|forecast|, j requires 0 <= j < |forecast| => Some(forecast[j].value)) + [refMin, refMax]
    requires Some(v) in raw
    ensures (exists i :: 0 <= i < |historical| && historical[i].value == v)
       || (exists j :: 0 <= j < |forecast| && forecast[j].value == v)
       || refMin == Some(v) || refMax == Some(v)
  {
    var k :| 0 <= k < |raw| && raw[k] == Some(v);
    if k < |historical| {
      assert historical[k].value == v;
    } else if k < |historical| + |forecast| {
      assert forecast[k - |historical|].value == v;
    }
  }

  /** Every reading, forecast and bound is in the unfiltered pool. */
  lemma RawTo(historical: seq<HistoryPoint>, forecast: seq<ForecastPoint>, refMin: Option<real>, refMax: Option<real>, v: real, raw: seq<Option<real>>)
    requires raw == seq(|historical|, i requires 0 <= i < |historical| => Some(historical[i].value))
      + seq(|forecast|, j requires 0 <= j < |forecast| => Some(forecast[j].value)) + [refMin, refMax]
    requires (exists i :: 0 <= i < |historical| && historical[i].value == v)
       || (exists j :: 0 <= j < |forecast| && forecast[j].value == v)
       || refMin == Some(v) || refMax == Some(v)
    ensures Some(v) in raw
  {
    var h := |historical|;
    var f := |forecast|;
    if exists i :: 0 <= i < h && historical[i].value == v {
      var i :| 0 <= i < h && historical[i].value == v;
      assert raw[i] == Some(v);
    } else if exists j :: 0 <= j < f && forecast[j].value == v {
      var j :| 0 <= j < f && forecast[j].value == v;
      assert raw[h + j] == Some(v);
    } else if refMin == Some(v) {
      assert raw[h + f] == Some(v);
    } else {
      assert raw[h + f + 1] == Some(v);
    }
  }


  function Min(xs: seq<real>): (m: real)
    requires |xs| > 0
    ensures m in xs && forall x :: x in xs ==> m <= x
  {
    if |xs| == 1 then xs[0]
    else var m := Min(xs[1..]); assert xs == [xs[0]] + xs[1..]; if xs[0] <= m then xs[0] else m
  }

  function Max(xs: seq<real>): (m: real)
    requires |xs| > 0
    ensures m in xs && forall x :: x in xs ==> x <= m
  {
    if |xs| == 1 then xs[0]
    else var m := Max(xs[1..]); assert xs == [xs[0]] + xs[1..]; if xs[0] >= m then xs[0] else m
  }

  /** `[yMin, yMax]` = `[0.85 * min, 1.15 * max]` of the pool. An empty pool has
      no finite bounds (`Math.min()` is Infinity), which is `None` here. */
  function AxisDomain(pool: seq<real>): (r: Option<(real, real)>)
    ensures r.None? <==> |pool| == 0
    ensures r.Some? ==> exists lo :: lo in pool && r.value.0 == lo * 0.85 && forall x :: x in pool ==> lo <= x
    ensures r.Some? ==> exists hi :: hi in pool && r.value.1 == hi * 1.15 && forall x :: x in pool ==> x <= hi
  {
    if |pool| == 0 then None else Some((Min(pool) * 0.85, Max(pool) * 1.15))
  }

  /** With an all-positive pool, every pooled value lies strictly inside the
      padded domain. */
  lemma AxisDomainContainsPositivePool(pool: seq<real>)
    requires |pool| > 0
    requires forall x :: x in pool ==> x > 0.0
    ensures var d := AxisDomain(pool);
      d.Some? && forall x :: x in pool ==> d.value.0 < x < d.value.1
  {
    var lo := Min(pool);
    var hi := Max(pool);
    assert lo > 0.0 && hi > 0.0;
  }

  /** The padding is multiplicative, so a negative minimum moves the lower bound
      ABOVE that minimum and the value falls outside the domain. */
  lemma AxisDomainMissesNegativeMinimum(pool: seq<real>)
    requires exists x :: x in pool && x < 0.0
    ensures var d := AxisDomain(pool);
      d.Some? && exists m :: m in pool && m < d.value.0
  {
    var x :| x in pool && x < 0.0;
    var d := AxisDomain(pool);
    var lo :| lo in pool && d.value.0 == lo * 0.85 && forall y :: y in pool ==> lo <= y;
    assert lo <= x < 0.0;
    assert lo < lo * 0.85;
  }

  /** A chart whose readings, forecast and bounds are all zero or absent has
      an empty pool and so no finite domain,
      while a real zero reading is present in the chart itself. */
  lemma ZeroReadingsGiveNoDomain(historical: seq<HistoryPoint>, forecast: seq<ForecastPoint>, refMin: Option<real>, refMax: Option<real>, anomalyIds: set<int>)
    requires forall i :: 0 <= i < |historical| ==> historical[i].value == 0.0
    requires forall j :: 0 <= j < |forecast| ==> forecast[j].value == 0.0
    requires refMin.Some? ==> refMin.value == 0.0
    requires refMax.Some? ==> refMax.value == 0.0
    ensures AxisPool(historical, forecast, refMin, refMax) == []
    ensures AxisDomain(AxisPool(historical, forecast, refMin, refMax)).None?
    ensures |historical| > 0 ==> |Combined(historical, forecast, anomalyIds)| == |historical| + |forecast| + 1
    ensures forall i :: 0 <= i < |historical| ==> Combined(historical, forecast, anomalyIds)[i].actual == Some(0.0)
  {
    var pool := AxisPool(historical, forecast, refMin, refMax);
    if |pool| > 0 {
      AxisPoolMembers(historical, forecast, refMin, refMax, pool[0]);
    }
  }
}
