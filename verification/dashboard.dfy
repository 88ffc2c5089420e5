/** The dashboard's classifiers and list shaping
    (frontend/src/pages/Dashboard.jsx): the trend indicator, the reference-range
    status, the anomaly ids of the selected biomarker, the latest-values table,
    and the data handed to the biomarker chart. */
module Dashboard {
  import opened Wrappers
  import opened Records
  import Latest
  import Chart
  import Forecast
  import opened Anomaly
  import Text

  // ---------------------------------------------------------------- trend

  /** What `TrendIndicator` draws. The percentage is `None` where the source
      divides by a zero previous value (it would print Infinity or NaN). */
  datatype Trend = Neutral | Up(pct: Option<real>) | Down(pct: Option<real>) | Flat

  /** `(last - prev) / prev * 100`, undefined for `prev == 0`: the change
      from `prev` to `last` as a percentage of `prev`. */
  function Pct(last: real, prev: real): (r: Option<real>)
    ensures r.None? <==> prev == 0.0
    ensures r.Some? ==> r.value * prev == (last - prev) * 100.0
  {
    if prev == 0.0 then None
    else
      var q := (last - prev) / prev;
      assert q * prev == last - prev;
      Some(q * 100.0)
  }

  function TrendOf(values: seq<real>): (t: Trend)
    ensures t.Neutral? <==> |values| < 2
    ensures |values| >= 2 ==>
      var last := values[|values| - 1];
      var prev := values[|values| - 2];
      && (t.Up? <==> last > prev)
      && (t.Down? <==> last < prev)
      && (t.Flat? <==> last == prev)
      && ((t.Up? || t.Down?) ==> (t.pct.None? <==> prev == 0.0))
      && ((t.Up? || t.Down?) && t.pct.Some? ==> t.pct.value * prev == (last - prev) * 100.0)
  {
    if |values| < 2 then Neutral
    else
      var last := values[|values| - 1];
      var prev := values[|values| - 2];
      if last > prev then Up(Pct(last, prev))
      else if last < prev then Down(Pct(last, prev))
      else Flat
  }

  /** Only the last two values matter. */
  lemma TrendLastTwo(pre: seq<real>, prev: real, last: real)
    ensures TrendOf(pre + [prev, last]) == TrendOf([prev, last])
  {
    var s := pre + [prev, last];
    assert s[|s| - 1] == last && s[|s| - 2] == prev;
  }

  lemma QuotientSign(d: real, p: real)
    requires p != 0.0
    ensures d / p * 100.0 > 0.0 <==> (d > 0.0 && p > 0.0) || (d < 0.0 && p < 0.0)
  {
    var q := d / p;
    assert q * p == d;
    if q > 0.0 && p > 0.0 { assert q * p > 0.0; }
    if q > 0.0 && p < 0.0 { assert -(q * p) == q * (-p) > 0.0; }
    if q < 0.0 && p > 0.0 { assert -(q * p) == (-q) * p > 0.0; }
    if q < 0.0 && p < 0.0 { assert q * p == (-q) * (-p) > 0.0; }
  }

  /** For a positive previous value the sign of the percentage matches the
      arrow; for a negative one it is inverted ("up" with a negative
      percentage). */
  lemma PctSign(values: seq<real>)
    requires |values| >= 2
    requires values[|values| - 2] != 0.0
    ensures var t := TrendOf(values); var prev := values[|values| - 2];
      && (t.Up? && prev > 0.0 ==> t.pct.value > 0.0)
      && (t.Down? && prev > 0.0 ==> t.pct.value < 0.0)
      && (t.Up? && prev < 0.0 ==> t.pct.value < 0.0)
      && (t.Down? && prev < 0.0 ==> t.pct.value > 0.0)
  {
    var last := values[|values| - 1];
    var prev := values[|values| - 2];
    QuotientSign(last - prev, prev);
    QuotientSign(prev - last, prev);
    assert (prev - last) / prev * 100.0 == -((last - prev) / prev * 100.0);
  }

  // ------------------------------------------------------ status colour

  /** `statusColor`: '' (no badge), 'risk-red', 'risk-yellow', 'risk-green'. */
  datatype Status = NoBadge | Red | Yellow | Green

  /** The value is past a truthy bound. */
  predicate OutOfRange(value: real, refMin: Option<real>, refMax: Option<real>) {
    (Truthy(refMax) && value > refMax.value) || (Truthy(refMin) && value < refMin.value)
  }

  /** The value is within the 10% margin of a truthy bound. */
  predicate NearBound(value: real, refMin: Option<real>, refMax: Option<real>) {
    (Truthy(refMax) && value > refMax.value * 0.9) || (Truthy(refMin) && value < refMin.value * 1.1)
  }

  function StatusColor(value: real, refMin: Option<real>, refMax: Option<real>): (s: Status)
    ensures s == NoBadge <==> refMin.None? && refMax.None?
    ensures s == Red <==> !(refMin.None? && refMax.None?) && OutOfRange(value, refMin, refMax)
    ensures s == Yellow <==> !(refMin.None? && refMax.None?) && !OutOfRange(value, refMin, refMax) && NearBound(value, refMin, refMax)
  {
    if refMin.None? && refMax.None? then NoBadge
    else if (Truthy(refMax) && value > refMax.value) || (Truthy(refMin) && value < refMin.value) then Red
    else
      var warnHigh := Truthy(refMax) && value > refMax.value * 0.9;
      var warnLow := Truthy(refMin) && value < refMin.value * 1.1;
      if warnHigh || warnLow then Yellow else Green
  }

  /** A zero bound is ignored: it classifies like an absent bound, except that
      it still turns the badge on. */
  lemma ZeroBoundIgnored(value: real, refMin: Option<real>, refMax: Option<real>)
    ensures refMax.Some? ==> StatusColor(value, Some(0.0), refMax) == StatusColor(value, None, refMax)
    ensures refMin.Some? ==> StatusColor(value, refMin, Some(0.0)) == StatusColor(value, refMin, None)
    ensures StatusColor(value, Some(0.0), Some(0.0)) == Green
  {
  }

  /** With positive bounds, the green band is `[1.1 * min, 0.9 * max]` and the
      red zone is outside `[min, max]`; red wins over yellow. */
  lemma StatusBands(value: real, lo: real, hi: real)
    requires 0.0 < lo && 0.0 < hi
    ensures lo * 1.1 <= value <= hi * 0.9 ==> StatusColor(value, Some(lo), Some(hi)) == Green
    ensures (value > hi || value < lo) ==> StatusColor(value, Some(lo), Some(hi)) == Red
    ensures lo <= value <= hi && (value > hi * 0.9 || value < lo * 1.1) ==> StatusColor(value, Some(lo), Some(hi)) == Yellow
  {
  }

  /** The margins are strict: exactly 0.9 * max is green, max itself is yellow. */
  lemma StatusBoundaries()
    ensures StatusColor(90.0, None, Some(100.0)) == Green
    ensures StatusColor(100.0, None, Some(100.0)) == Yellow
    ensures StatusColor(100.01, None, Some(100.0)) == Red
    ensures StatusColor(136.0, Some(50.0), Some(150.0)) == Yellow
    ensures StatusColor(54.0, Some(50.0), None) == Yellow
    ensures StatusColor(49.0, Some(50.0), None) == Red
  {
  }

  /** The class name and the badge text of a status (lines 228-230). */
  function StatusClass(s: Status): (c: string)
    ensures c == "" <==> s == NoBadge
    ensures c != "" ==> |c| > 5 && c[..5] == "risk-"
  {
    match s
    case NoBadge => ""
    case Red => "risk-red"
    case Yellow => "risk-yellow"
    case Green => "risk-green"
  }

  function StatusLabel(s: Status): (l: Option<string>)
    ensures l.None? <==> s == NoBadge
  {
    match s
    case NoBadge => None
    case Green => Some("Normal")
    case Yellow => Some("Borderline")
    case Red => Some("Critical")
  }

  /** The badge is drawn exactly when the class is non-empty, and distinct
      statuses get distinct classes and texts. */
  lemma StatusPresentationAgrees(s: Status, t: Status)
    ensures (StatusClass(s) == "") <==> StatusLabel(s).None?
    ensures s != t ==> StatusClass(s) != StatusClass(t) && StatusLabel(s) != StatusLabel(t)
  {
  }

  // --------------------------------------------------------- anomaly ids

  /** `anomalyIds`: the ids of the anomalies whose name is the selection. */
  function AnomalyIds(anomalies: seq<AnomalyRecord>, selected: string): (ids: set<int>)
    ensures forall id :: id in ids <==> exists k :: 0 <= k < |anomalies| && anomalies[k].name == selected && anomalies[k].biomarkerId == id
  {
    set k | 0 <= k < |anomalies| && anomalies[k].name == selected :: anomalies[k].biomarkerId
  }

  // ------------------------------------------------------ latest table

  /** One row of the latest-values table. `range` is the shown range, present
      only when both bounds are non-null (a zero bound still counts). */
  datatype Row = Row(name: string, reading: Biomarker, range: Option<(real, real)>, status: Status)

  /** Index of the last reading named `name`, or -1. */
  function LastIndex(bs: seq<Biomarker>, name: string): (j: int)
    ensures -1 <= j < |bs|
    ensures j >= 0 ==> bs[j].name == name && forall i :: j < i < |bs| ==> bs[i].name != name
    ensures j < 0 ==> forall i :: 0 <= i < |bs| ==> bs[i].name != name
  {
    if |bs| == 0 then -1
    else if bs[|bs| - 1].name == name then |bs| - 1
    else LastIndex(bs[..|bs| - 1], name)
  }

  function RowFor(b: Biomarker, name: string): Row {
    Row(name, b,
      if b.refMin.Some? && b.refMax.Some? then Some((b.refMin.value, b.refMax.value)) else None,
      StatusColor(b.value, b.refMin, b.refMax))
  }

  /** The table body: for each name in order, a row from the LAST reading of
      that name in list order; names without readings are skipped. */
  function TableRows(names: seq<string>, bs: seq<Biomarker>): (rows: seq<Row>)
    ensures |rows| <= |names|
    ensures forall k :: 0 <= k < |rows| ==>
      && rows[k].name in names
      && LastIndex(bs, rows[k].name) >= 0
      && rows[k] == RowFor(bs[LastIndex(bs, rows[k].name)], rows[k].name)
    ensures forall n :: n in names && LastIndex(bs, n) >= 0 ==> exists k :: 0 <= k < |rows| && rows[k].name == n
  {
    if |names| == 0 then []
    else
      var rest := TableRows(names[1..], bs);
      var j := LastIndex(bs, names[0]);
      var head := if j < 0 then [] else [RowFor(bs[j], names[0])];
      TableStep(names, bs, head, rest);
      head + rest
  }

  /** One step of `TableRows`: the row of the first name, if any, in front of
      the rows of the others keeps the table's contract. */
  lemma TableStep(names: seq<string>, bs: seq<Biomarker>, head: seq<Row>, rest: seq<Row>)
    requires |names| > 0
    requires var j := LastIndex(bs, names[0]);
      head == if j < 0 then [] else [RowFor(bs[j], names[0])]
    requires |rest| <= |names| - 1
    requires forall k :: 0 <= k < |rest| ==>
      && rest[k].name in names[1..]
      && LastIndex(bs, rest[k].name) >= 0
      && rest[k] == RowFor(bs[LastIndex(bs, rest[k].name)], rest[k].name)
    requires forall n :: n in names[1..] && LastIndex(bs, n) >= 0 ==> exists k :: 0 <= k < |rest| && rest[k].name == n
    ensures var rows := head + rest;
      && |rows| <= |names|
      && (forall k :: 0 <= k < |rows| ==>
        && rows[k].name in names
        && LastIndex(bs, rows[k].name) >= 0
        && rows[k] == RowFor(bs[LastIndex(bs, rows[k].name)], rows[k].name))
      && forall n :: n in names && LastIndex(bs, n) >= 0 ==> exists k :: 0 <= k < |rows| && rows[k].name == n
  {
    TableStepRows(names, bs, head, rest);
    TableStepCovers(names, bs, head, rest);
  }

  lemma TableStepRows(names: seq<string>, bs: seq<Biomarker>, head: seq<Row>, rest: seq<Row>)
    requires |names| > 0
    requires var j := LastIndex(bs, names[0]);
      head == if j < 0 then [] else [RowFor(bs[j], names[0])]
    requires forall k :: 0 <= k < |rest| ==>
      && rest[k].name in names[1..]
      && LastIndex(bs, rest[k].name) >= 0
      && rest[k] == RowFor(bs[LastIndex(bs, rest[k].name)], rest[k].name)
    ensures var rows := head + rest;
      forall k :: 0 <= k < |rows| ==>
        && rows[k].name in names
        && LastIndex(bs, rows[k].name) >= 0
        && rows[k] == RowFor(bs[LastIndex(bs, rows[k].name)], rows[k].name)
  {
    var rows := head + rest;
    var h := |head|;
    forall k | 0 <= k < |rows|
      ensures rows[k].name in names
      ensures LastIndex(bs, rows[k].name) >= 0
      ensures rows[k] == RowFor(bs[LastIndex(bs, rows[k].name)], rows[k].name)
    {
      if k >= h {
        assert rows[k] == rest[k - h];
        assert rest[k - h].name in names[1..];
      }
    }
  }

  lemma TableStepCovers(names: seq<string>, bs: seq<Biomarker>, head: seq<Row>, rest: seq<Row>)
    requires |names| > 0
    requires var j := LastIndex(bs, names[0]);
      head == if j < 0 then [] else [RowFor(bs[j], names[0])]
    requires forall n :: n in names[1..] && LastIndex(bs, n) >= 0 ==> exists k :: 0 <= k < |rest| && rest[k].name == n
    ensures var rows := head + rest;
      forall n :: n in names && LastIndex(bs, n) >= 0 ==> exists k :: 0 <= k < |rows| && rows[k].name == n
  {
    var rows := head + rest;
    var h := |head|;
    forall n | n in names && LastIndex(bs, n) >= 0
      ensures exists k :: 0 <= k < |rows| && rows[k].name == n
    {
      if n == names[0] {
        assert rows[0].name == n;
      } else {
        assert n in names[1..];
        var k :| 0 <= k < |rest| && rest[k].name == n;
        assert rows[k + h] == rest[k];
      }
    }
  }

  /** The table of a single name is that name's row, if it has readings. */
  lemma TableRowsSingle(n: string, bs: seq<Biomarker>)
    ensures TableRows([n], bs) == (if LastIndex(bs, n) >= 0 then [RowFor(bs[LastIndex(bs, n)], n)] else [])
  {
    assert [n][1..] == [];
  }

  /** The table of concatenated name lists is the concatenation of the tables,
      so rows appear in the order of `names`. */
  lemma {:induction false} TableRowsAppend(a: seq<string>, b: seq<string>, bs: seq<Biomarker>)
    ensures TableRows(a + b, bs) == TableRows(a, bs) + TableRows(b, bs)
  {
    if |a| == 0 {
      assert a + b == b;
    } else {
      assert (a + b)[0] == a[0];
      assert (a + b)[1..] == a[1..] + b;
      TableRowsAppend(a[1..], b, bs);
    }
  }

  /** The readings arrive ordered by `recorded_at` ascending. */
  ghost predicate SortedByTime(bs: seq<Biomarker>) {
    forall i, j :: 0 <= i < j < |bs| ==> bs[i].recordedAt <= bs[j].recordedAt
  }

  /** On time-ordered readings the table shows a latest reading of each name. */
  lemma TableShowsLatest(names: seq<string>, bs: seq<Biomarker>, k: int)
    requires SortedByTime(bs)
    requires 0 <= k < |TableRows(names, bs)|
    ensures var r := TableRows(names, bs)[k];
      forall i :: 0 <= i < |bs| && bs[i].name == r.name ==> bs[i].recordedAt <= r.reading.recordedAt
  {
  }

  /** On strictly time-ordered readings the table's reading is exactly the one
      the latest-per-name reduction keeps. */
  lemma TableAgreesWithLatestByName(bs: seq<Biomarker>, name: string, k: int)
    requires forall i, j :: 0 <= i < j < |bs| ==> bs[i].recordedAt < bs[j].recordedAt
    requires 0 <= k < |Latest.LatestByName(bs)| && Latest.LatestByName(bs)[k].name == name
    ensures LastIndex(bs, name) >= 0 && Latest.LatestByName(bs)[k] == bs[LastIndex(bs, name)]
  {
    Latest.LatestByNameKeepsLatest(bs);
    var i :| 0 <= i < |bs| && bs[i] == Latest.LatestByName(bs)[k] && Latest.IsLatestAt(bs, i);
    var j := LastIndex(bs, name);
    assert j >= 0;
    assert Latest.IsLatestAt(bs, j);
    Latest.LatestAtUnique(bs, i, j);
  }

  /** With equal timestamps the two disagree: the reduction keeps the first
      reading, the table shows the last. */
  lemma TieBreakDiffers()
    ensures var a := Biomarker(1, 1, 1, "ldl", 100.0, None, None, None, 5);
      var b := Biomarker(2, 1, 1, "ldl", 140.0, None, None, None, 5);
      && Latest.LatestByName([a, b]) == [a]
      && TableRows(["ldl"], [a, b])[0].reading == b
  {
    var a := Biomarker(1, 1, 1, "ldl", 100.0, None, None, None, 5);
    var b := Biomarker(2, 1, 1, "ldl", 140.0, None, None, None, 5);
    assert [a, b][..1] == [a];
    assert [a][..0] == [];
    assert Latest.LatestByName([a]) == [a];
    assert Latest.NameIndex([a], "ldl") == 0;
    assert LastIndex([a, b], "ldl") == 1;
  }

  // ------------------------------------------------------------- fetch

  /** `Biomarker.name.ilike(f"%{name}%")`: the name contains the selection,
      ignoring case. */
  predicate NameMatches(b: Biomarker, selected: string) {
    Text.Contains(Text.Lower(b.name), Text.Lower(selected))
  }

  /** The list `GET /biomarkers?name=…` returns (backend/app/routers/biomarkers.py:21-24):
      with a non-empty selection, only the readings whose name contains it,
      ignoring case, in their order; an empty selection filters nothing. */
  function Fetched(bs: seq<Biomarker>, selected: string): (r: seq<Biomarker>)
    ensures |r| <= |bs|
    ensures forall b :: b in r <==> b in bs && (selected == [] || NameMatches(b, selected))
  {
    if |bs| == 0 then []
    else
      (if selected == [] || NameMatches(bs[0], selected) then [bs[0]] else []) + Fetched(bs[1..], selected)
  }

  /** The filter keeps the router's time order. */
  lemma {:induction false} FetchedSorted(bs: seq<Biomarker>, selected: string)
    requires SortedByTime(bs)
    ensures SortedByTime(Fetched(bs, selected))
  {
    if |bs| > 0 {
      assert SortedByTime(bs[1..]);
      FetchedSorted(bs[1..], selected);
      var rest := Fetched(bs[1..], selected);
      var head := if selected == [] || NameMatches(bs[0], selected) then [bs[0]] else [];
      assert Fetched(bs, selected) == head + rest;
      forall j | 0 <= j < |rest|
        ensures bs[0].recordedAt <= rest[j].recordedAt
      {
        assert rest[j] in bs[1..];
      }
    }
  }

  /** The latest-values table is built from the fetched list, so with a
      selection it only ever has rows for names that contain the selection. */
  lemma TableOnlyMatching(names: seq<string>, bs: seq<Biomarker>, selected: string, k: int)
    requires selected != []
    requires 0 <= k < |TableRows(names, Fetched(bs, selected))|
    ensures var row := TableRows(names, Fetched(bs, selected))[k];
      row.reading in bs && row.reading.name == row.name && NameMatches(row.reading, selected)
  {
    var f := Fetched(bs, selected);
    var row := TableRows(names, f)[k];
    assert f[LastIndex(f, row.name)] in f;
  }

  /** Readings of two names that both contain the selection are fetched
      together, so the chart takes its bounds from the older one even when its
      name is not the selected one, and the table shows both names. */
  lemma ChartRefsOfOtherName(a: Biomarker, b: Biomarker, selected: string)
    requires selected != [] && NameMatches(a, selected) && NameMatches(b, selected)
    requires a.recordedAt < b.recordedAt && a.name != b.name
    ensures Fetched([a, b], selected) == [a, b]
    ensures ChartRefs(Fetched([a, b], selected)) == (a.refMin, a.refMax)
    ensures |TableRows([a.name, b.name], Fetched([a, b], selected))| == 2
  {
    assert [a, b][1..] == [b];
    assert Fetched([b], selected) == [b] by {
      assert [b][1..] == [];
    }
    assert LastIndex([a, b], a.name) == 0 by {
      assert [a, b][..1] == [a];
    }
    assert LastIndex([a, b], b.name) == 1;
    assert TableRows([b.name], [a, b]) == [RowFor(b, b.name)] by {
      assert [b.name][1..] == [];
    }
    assert [a.name, b.name][1..] == [b.name];
  }

  /** A case-sensitive occurrence is also one after lower-casing both sides. */
  lemma SubstringMatches(hay: string, needle: string, i: nat)
    requires i + |needle| <= |hay| && hay[i..i + |needle|] == needle
    ensures Text.Contains(Text.Lower(hay), Text.Lower(needle))
  {
    var h := Text.Lower(hay);
    var n := Text.Lower(needle);
    assert forall k :: 0 <= k < |needle| ==> h[i + k] == Text.LowerChar(hay[i + k]) == Text.LowerChar(needle[k]) == n[k];
    assert h[i..i + |needle|] == n;
    assert Text.OccursAt(h, n, i);
  }

  /** With "Glucose" selected, an older "Fasting Glucose" reading (a prefix
      followed by the selected name) is fetched too, and its range is the one
      the chart draws. */
  lemma PrefixedNameCharted(a: Biomarker, b: Biomarker, selected: string, prefix: string)
    requires selected != [] && prefix != []
    requires a.name == prefix + selected && b.name == selected && a.recordedAt < b.recordedAt
    ensures a.name != b.name
    ensures Fetched([a, b], selected) == [a, b]
    ensures ChartRefs(Fetched([a, b], selected)) == (a.refMin, a.refMax)
  {
    assert a.name[|prefix|..|prefix| + |selected|] == selected;
    SubstringMatches(a.name, selected, |prefix|);
    assert b.name[0..|selected|] == selected;
    SubstringMatches(b.name, selected, 0);
    ChartRefsOfOtherName(a, b, selected);
  }

  // ------------------------------------------------------------- chart

  /** The chart's bounds come from the first reading of the fetched list (see
      `Fetched`); with no readings they are undefined, which the chart filters
      out. The list arrives ordered by `recorded_at` ascending, so that reading
      is an oldest one, not the latest. */
  function ChartRefs(bs: seq<Biomarker>): (r: (Option<real>, Option<real>))
    ensures |bs| == 0 ==> r == (None, None)
    ensures |bs| > 0 ==> r == (bs[0].refMin, bs[0].refMax)
    ensures SortedByTime(bs) && |bs| > 0 ==>
      exists b :: b in bs && r == (b.refMin, b.refMax) && forall c :: c in bs ==> b.recordedAt <= c.recordedAt
  {
    if |bs| == 0 then (None, None)
    else
      assert forall c :: c in bs ==> SortedByTime(bs) ==> bs[0].recordedAt <= c.recordedAt;
      (bs[0].refMin, bs[0].refMax)
  }

  /** When the reference range changes between an older and a newer reading of
      one name, the chart draws the older range while the latest-values table
      shows the newer reading with its range. */
  lemma ChartRefsOlderThanTable(a: Biomarker, b: Biomarker)
    requires a.name == b.name && a.recordedAt < b.recordedAt
    ensures SortedByTime([a, b])
    ensures ChartRefs([a, b]) == (a.refMin, a.refMax)
    ensures |TableRows([a.name], [a, b])| == 1 && TableRows([a.name], [a, b])[0].reading == b
  {
    assert LastIndex([a, b], a.name) == 1;
  }

  /** The chart series as the dashboard builds it today: historical points come
      from the forecast payload, which carries no ids. */
  function ChartAsWritten(payloadReadings: seq<Biomarker>, forecast: seq<ForecastPoint>, anomalies: seq<AnomalyRecord>, selected: string): (r: seq<Chart.ChartPoint>)
    ensures |r| == |payloadReadings| + |forecast| + (if |payloadReadings| > 0 then 1 else 0)
    ensures forall i :: 0 <= i < |payloadReadings| ==>
      r[i].date == payloadReadings[i].recordedAt && r[i].actual == Some(payloadReadings[i].value) && r[i].forecast.None?
  {
    Chart.Combined(Forecast.PayloadHistory(payloadReadings), forecast, AnomalyIds(anomalies, selected))
  }

  /** The chart series with the ids kept in the payload. */
  function ChartWithIds(payloadReadings: seq<Biomarker>, forecast: seq<ForecastPoint>, anomalies: seq<AnomalyRecord>, selected: string): (r: seq<Chart.ChartPoint>)
    ensures |r| == |payloadReadings| + |forecast| + (if |payloadReadings| > 0 then 1 else 0)
    ensures forall i :: 0 <= i < |payloadReadings| ==>
      && r[i].date == payloadReadings[i].recordedAt && r[i].actual == Some(payloadReadings[i].value) && r[i].forecast.None?
      && (r[i].isAnomaly <==> payloadReadings[i].id in AnomalyIds(anomalies, selected))
  {
    Chart.Combined(Forecast.PayloadHistoryWithIds(payloadReadings), forecast, AnomalyIds(anomalies, selected))
  }

  /** As written, no chart point is ever drawn as an anomaly. */
  lemma ChartAsWrittenNeverMarks(bs: seq<Biomarker>, forecast: seq<ForecastPoint>, anomalies: seq<AnomalyRecord>, selected: string, i: int)
    requires 0 <= i < |ChartAsWritten(bs, forecast, anomalies, selected)|
    ensures !ChartAsWritten(bs, forecast, anomalies, selected)[i].isAnomaly
  {
    var h := Forecast.PayloadHistory(bs);
    var ids := AnomalyIds(anomalies, selected);
    if Chart.Combined(h, forecast, ids)[i].isAnomaly {
      Chart.AnomalyOnlyFromIds(h, forecast, ids, i);
    }
  }

  /** A concrete case: reading 7 of "glucose" is flagged, yet its point is not
      marked. */
  lemma FlaggedReadingNotMarked()
    ensures var b := Biomarker(7, 1, 1, "glucose", 300.0, None, None, None, 10);
      var a := AnomalyRecord(7, "glucose", 300.0, 10, Anomaly.High);
      && 7 in AnomalyIds([a], "glucose")
      && !ChartAsWritten([b], [], [a], "glucose")[0].isAnomaly
  {
    var b := Biomarker(7, 1, 1, "glucose", 300.0, None, None, None, 10);
    var a := AnomalyRecord(7, "glucose", 300.0, 10, Anomaly.High);
    assert [a][0].name == "glucose";
    ChartAsWrittenNeverMarks([b], [], [a], "glucose", 0);
  }

  /** With ids, a historical point is drawn as an anomaly exactly when an
      anomaly of the selected name carries its reading's id. */
  lemma ChartWithIdsMarksFlagged(bs: seq<Biomarker>, forecast: seq<ForecastPoint>, anomalies: seq<AnomalyRecord>, selected: string, i: int)
    requires 0 <= i < |bs|
    ensures ChartWithIds(bs, forecast, anomalies, selected)[i].isAnomaly <==>
      exists k :: 0 <= k < |anomalies| && anomalies[k].name == selected && anomalies[k].biomarkerId == bs[i].id
  {
  }
}
