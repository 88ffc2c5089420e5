/** Z-score anomaly flagging per biomarker name
    (backend/app/services/analytics_service.py:135-162). Readings are grouped by
    name in order of first appearance; a group of at least three readings with
    a non-zero standard deviation flags every reading more than 2.5 standard
    deviations from the group mean, as "high" beyond 3. The test is stated
    without square roots: with `std = sqrt(var) > 0`, `|v - mean| / std > k` is
    `(v - mean)^2 > k^2 * var` (see `Stats.ZScoreTest`). */
module Anomaly {
  import opened Records
  import opened Stats

  datatype Severity = Medium | High

  /** One entry of the returned list; the rounded z-score is left out. */
  datatype AnomalyRecord = AnomalyRecord(biomarkerId: int, name: string, value: real, recordedAt: int, severity: Severity)

  /** `grouped[name]`: the readings of one name, in input order. */
  function Group(bs: seq<Biomarker>, name: string): (g: seq<Biomarker>)
    ensures forall b :: b in g <==> b in bs && b.name == name
    ensures |g| <= |bs|
  {
    if |bs| == 0 then []
    else
      assert bs == [bs[0]] + bs[1..];
      (if bs[0].name == name then [bs[0]] else []) + Group(bs[1..], name)
  }

  /** A group keeps every reading of its name as often as the input has it,
      and no other reading. */
  lemma {:induction false} GroupCounts(bs: seq<Biomarker>, name: string)
    ensures forall b :: multiset(Group(bs, name))[b] == if b.name == name then multiset(bs)[b] else 0
  {
    if |bs| > 0 {
      GroupCounts(bs[1..], name);
      assert bs == [bs[0]] + bs[1..];
      assert multiset(bs) == multiset([bs[0]]) + multiset(bs[1..]);
    }
  }

  /** The keys of `grouped`, in order of first appearance. */
  function GroupNames(bs: seq<Biomarker>): (ns: seq<string>)
    ensures forall n :: n in ns <==> exists b :: b in bs && b.name == n
    ensures forall i, j :: 0 <= i < j < |ns| ==> ns[i] != ns[j]
  {
    if |bs| == 0 then []
    else
      var pre := GroupNames(bs[..|bs| - 1]);
      var b := bs[|bs| - 1];
      assert bs == bs[..|bs| - 1] + [b];
      if b.name in pre then pre else pre + [b.name]
  }

  function Values(g: seq<Biomarker>): (vs: seq<real>)
    ensures |vs| == |g|
    ensures forall i :: 0 <= i < |g| ==> vs[i] == g[i].value
  {
    seq(|g|, i requires 0 <= i < |g| => g[i].value)
  }

  /** `z > 2.5` for a deviation `v - mean` and variance `var > 0`. */
  predicate Exceeds(v: real, mean: real, var_: real, k: real) {
    Sq(v - mean) > k * k * var_
  }

  function SeverityOf(v: real, mean: real, var_: real): Severity {
    if Exceeds(v, mean, var_, 3.0) then High else Medium
  }

  function RecordOf(b: Biomarker, mean: real, var_: real): AnomalyRecord {
    AnomalyRecord(b.id, b.name, b.value, b.recordedAt, SeverityOf(b.value, mean, var_))
  }

  /** The inner loop over one group's items. */
  function FlagItems(items: seq<Biomarker>, mean: real, var_: real): (r: seq<AnomalyRecord>)
    ensures forall a :: a in r <==> exists b :: b in items && Exceeds(b.value, mean, var_, 2.5) && a == RecordOf(b, mean, var_)
  {
    if |items| == 0 then []
    else
      assert items == [items[0]] + items[1..];
      var rest := FlagItems(items[1..], mean, var_);
      if Exceeds(items[0].value, mean, var_, 2.5) then [RecordOf(items[0], mean, var_)] + rest else rest
  }

  /** One group: skipped when it has fewer than 3 readings or zero spread. */
  function FlagGroup(items: seq<Biomarker>): seq<AnomalyRecord> {
    if |items| < 3 then []
    else
      var vs := Values(items);
      var mean := Mean(vs);
      var var_ := Variance(vs);
      if var_ == 0.0 then [] else FlagItems(items, mean, var_)
  }

  /** The groups' results, one after another. */
  function Concat<T(!new)>(parts: seq<seq<T>>): (r: seq<T>)
    ensures forall a :: a in r <==> exists i :: 0 <= i < |parts| && a in parts[i]
  {
    if |parts| == 0 then []
    else
      assert parts == [parts[0]] + parts[1..];
      parts[0] + Concat(parts[1..])
  }

  /** Every reported record carries the id, name, value and time of one of
      the input readings. */
  function DetectAnomalies(bs: seq<Biomarker>): (r: seq<AnomalyRecord>)
    ensures forall a :: a in r ==> exists b :: b in bs && Reports(a, b)
  {
    var names := GroupNames(bs);
    var parts := seq(|names|, i requires 0 <= i < |names| => FlagGroup(Group(bs, names[i])));
    PartsReportInput(bs, names, parts);
    Concat(parts)
  }

  /** `a` is a record of reading `b`. */
  predicate Reports(a: AnomalyRecord, b: Biomarker) {
    a.biomarkerId == b.id && a.name == b.name && a.value == b.value && a.recordedAt == b.recordedAt
  }

  /** Each flagged record of a group reports one of the group's readings. */
  lemma FlagGroupReports(items: seq<Biomarker>)
    ensures forall a :: a in FlagGroup(items) ==> exists b :: b in items && Reports(a, b)
  {
    if |items| >= 3 {
      var vs := Values(items);
      forall a | a in FlagGroup(items)
        ensures exists b :: b in items && Reports(a, b)
      {
        var b :| b in items && Exceeds(b.value, Mean(vs), Variance(vs), 2.5) && a == RecordOf(b, Mean(vs), Variance(vs));
        assert Reports(a, b);
      }
    }
  }

  lemma PartsReportInput(bs: seq<Biomarker>, names: seq<string>, parts: seq<seq<AnomalyRecord>>)
    requires |parts| == |names|
    requires forall i :: 0 <= i < |names| ==> parts[i] == FlagGroup(Group(bs, names[i]))
    ensures forall i, a :: 0 <= i < |parts| && a in parts[i] ==> exists b :: b in bs && Reports(a, b)
  {
    forall i, a | 0 <= i < |parts| && a in parts[i]
      ensures exists b :: b in bs && Reports(a, b)
    {
      FlagGroupReports(Group(bs, names[i]));
      var b :| b in Group(bs, names[i]) && Reports(a, b);
      assert b in bs;
    }
  }

  /** The statistics of the group a reading belongs to. */
  function GroupValues(bs: seq<Biomarker>, b: Biomarker): seq<real> {
    Values(Group(bs, b.name))
  }

  /** The source's verdict on one reading, stated on the reading's own group:
      at least 3 readings, non-zero variance, and a z-score above 2.5. */
  ghost predicate IsAnomalous(bs: seq<Biomarker>, b: Biomarker) {
    var vs := GroupValues(bs, b);
    && |vs| >= 3
    && Variance(vs) > 0.0
    && Exceeds(b.value, Mean(vs), Variance(vs), 2.5)
  }

  /** The record the source emits for an anomalous reading. */
  ghost function ExpectedRecord(bs: seq<Biomarker>, b: Biomarker): AnomalyRecord
    requires |GroupValues(bs, b)| > 0
  {
    var vs := GroupValues(bs, b);
    RecordOf(b, Mean(vs), Variance(vs))
  }

  /** Every reported anomaly is a reading of the input that passes the z-score
      test within its own group, reported with that group's severity. */
  lemma DetectAnomaliesSound(bs: seq<Biomarker>, a: AnomalyRecord)
    ensures a in DetectAnomalies(bs) ==>
      exists b :: b in bs && |GroupValues(bs, b)| >= 3 && IsAnomalous(bs, b) && a == ExpectedRecord(bs, b)
  {
    if a !in DetectAnomalies(bs) {
      return;
    }
    var names := GroupNames(bs);
    var parts := seq(|names|, i requires 0 <= i < |names| => FlagGroup(Group(bs, names[i])));
    var k :| 0 <= k < |parts| && a in parts[k];
    var n := names[k];
    var g := Group(bs, n);
    assert a in FlagGroup(g);
    var vs := Values(g);
    assert |g| >= 3;
    var b :| b in g && Exceeds(b.value, Mean(vs), Variance(vs), 2.5) && a == RecordOf(b, Mean(vs), Variance(vs));
    assert b.name == n;
    assert b in bs && IsAnomalous(bs, b);
  }

  /** Every reading that passes the z-score test within its own group is
      reported, with that group's severity. */
  lemma DetectAnomaliesComplete(bs: seq<Biomarker>, b: Biomarker)
    requires b in bs && IsAnomalous(bs, b)
    ensures ExpectedRecord(bs, b) in DetectAnomalies(bs)
  {
    var g := Group(bs, b.name);
    var names := GroupNames(bs);
    var parts := seq(|names|, i requires 0 <= i < |names| => FlagGroup(Group(bs, names[i])));
    assert b.name in names;
    var k :| 0 <= k < |names| && names[k] == b.name;
    assert b in g;
    assert ExpectedRecord(bs, b) in FlagGroup(g);
    assert ExpectedRecord(bs, b) in parts[k];
  }

  /** A reported anomaly is "high" exactly when its z-score exceeds 3. */
  lemma SeverityHighIff(bs: seq<Biomarker>, b: Biomarker)
    requires b in bs && IsAnomalous(bs, b)
    ensures var vs := GroupValues(bs, b);
      ExpectedRecord(bs, b).severity == High <==> Exceeds(b.value, Mean(vs), Variance(vs), 3.0)
  {
  }

  /** By Samuelson's inequality no z-score in a group of n readings exceeds
      sqrt(n - 1), so a group of fewer than 8 readings never has an anomaly. */
  lemma {:induction false} SmallGroupsNeverFlagged(bs: seq<Biomarker>, b: Biomarker)
    requires b in bs && |Group(bs, b.name)| < 8
    ensures !IsAnomalous(bs, b)
  {
    var g := Group(bs, b.name);
    var vs := Values(g);
    assert b in g;
    var i :| 0 <= i < |g| && g[i] == b;
    assert vs[i] == b.value;
    assert |vs| as real - 1.0 <= 2.5 * 2.5;
    NoExcessInSmallSample(vs, i, 2.5);
  }

  /** Likewise a "high" anomaly (z > 3) needs at least 11 readings. */
  lemma {:induction false} HighNeedsElevenReadings(bs: seq<Biomarker>, b: Biomarker)
    requires b in bs && IsAnomalous(bs, b)
    requires ExpectedRecord(bs, b).severity == High
    ensures |Group(bs, b.name)| >= 11
  {
    var g := Group(bs, b.name);
    var vs := Values(g);
    assert Exceeds(b.value, Mean(vs), Variance(vs), 3.0);
    if |g| < 11 {
      assert b in g;
      var i :| 0 <= i < |g| && g[i] == b;
      NoExcessInSmallSample(vs, i, 3.0);
    }
  }

  /** In a sample of n values none exceeds k deviations when k^2 >= n - 1. */
  lemma NoExcessInSmallSample(vs: seq<real>, i: int, k: real)
    requires 0 <= i < |vs| && |vs| as real - 1.0 <= k * k
    ensures !Exceeds(vs[i], Mean(vs), Variance(vs), k)
  {
    Samuelson(vs, i);
    ScaledBound(Sq(vs[i] - Mean(vs)), |vs| as real - 1.0, Variance(vs), k * k);
  }

  lemma ScaledBound(e: real, m: real, v: real, c: real)
    requires v >= 0.0 && m <= c && e <= m * v
    ensures e <= c * v
  {
    ProductNonNegative(c - m, v);
  }
}
