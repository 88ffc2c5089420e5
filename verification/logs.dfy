/** The manual-logs page (frontend/src/pages/LogsPage.jsx): the fixed table of
    log types, the per-type list sorted by time, the chart series, the
    newest-first list, and the add form's guard and payload. */
module Logs {
  import opened Wrappers
  import opened Records

  /** One entry of `LOG_TYPES` (lines 7-12): `code` is its `value` and
      `title` its `label` (a reserved word in Dafny). */
  datatype LogType = LogType(code: string, title: string, unit: string, hasSecond: bool)

  const LogTypes: seq<LogType> := [
    LogType("blood_pressure", "Blood Pressure", "mmHg", true),
    LogType("glucose", "Fasting Glucose", "mg/dL", false),
    LogType("weight", "Weight", "kg", false),
    LogType("pulse", "Pulse", "bpm", false)
  ]

  /** `LOG_TYPES.find(t => t.value === code)`. */
  function FindType(types: seq<LogType>, code: string): (r: Option<LogType>)
    ensures r.None? <==> forall i :: 0 <= i < |types| ==> types[i].code != code
    ensures r.Some? ==> exists i :: (0 <= i < |types| && types[i] == r.value && r.value.code == code
      && forall j :: 0 <= j < i ==> types[j].code != code)
  {
    if |types| == 0 then None
    else if types[0].code == code then Some(types[0])
    else
      var r := FindType(types[1..], code);
      assert forall j :: 1 <= j < |types| ==> types[1..][j - 1] == types[j];
      r
  }

  /** The unit sent with a log: the unit of the chosen type, if it is known. */
  function UnitOf(code: string): Option<string> {
    match FindType(LogTypes, code)
    case None => None
    case Some(t) => Some(t.unit)
  }

  /** Each of the four types has its own unit; any other code has none. */
  lemma UnitsOfTypes(code: string)
    ensures UnitOf("blood_pressure") == Some("mmHg")
    ensures UnitOf("glucose") == Some("mg/dL")
    ensures UnitOf("weight") == Some("kg")
    ensures UnitOf("pulse") == Some("bpm")
    ensures code !in {"blood_pressure", "glucose", "weight", "pulse"} ==> UnitOf(code).None?
  {
    var ts := LogTypes;
    assert ts[0].code == "blood_pressure" && ts[1].code == "glucose" && ts[2].code == "weight" && ts[3].code == "pulse";
    assert FindType(ts, "blood_pressure") == Some(ts[0]);
    assert FindType(ts, "glucose") == Some(ts[1]) by {
      assert ts[0].code != "glucose";
    }
    assert FindType(ts, "weight") == Some(ts[2]) by {
      assert ts[0].code != "weight" && ts[1].code != "weight";
    }
    assert FindType(ts, "pulse") == Some(ts[3]) by {
      assert ts[0].code != "pulse" && ts[1].code != "pulse" && ts[2].code != "pulse";
    }
    if code !in {"blood_pressure", "glucose", "weight", "pulse"} {
      UnknownCode(code);
    }
  }

  lemma UnknownCode(code: string)
    requires code != "blood_pressure" && code != "glucose" && code != "weight" && code != "pulse"
    ensures FindType(LogTypes, code).None?
  {
    var ts := LogTypes;
    forall i | 0 <= i < |ts| ensures ts[i].code != code {
      assert i == 0 || i == 1 || i == 2 || i == 3;
    }
  }

  /** One stored log as `/logs/` serves it; times are integer timestamps. */
  datatype LogEntry = LogEntry(id: int, logType: string, value: real, value2: Option<real>, unit: Option<string>, loggedAt: int)

  // ------------------------------------------------------------ typeLogs

  /** `logs.filter(l => l.log_type === activeType)`. */
  function OfType(logs: seq<LogEntry>, active: string): (r: seq<LogEntry>)
    ensures forall l :: l in r <==> l in logs && l.logType == active
    ensures multiset(r) <= multiset(logs)
  {
    if |logs| == 0 then []
    else
      assert logs == [logs[0]] + logs[1..];
      (if logs[0].logType == active then [logs[0]] else []) + OfType(logs[1..], active)
  }

  /** The filter keeps each log of the active type as often as the list has
      it, and no other log. */
  lemma {:induction false} OfTypeCounts(logs: seq<LogEntry>, active: string)
    ensures forall l :: multiset(OfType(logs, active))[l] == if l.logType == active then multiset(logs)[l] else 0
  {
    if |logs| > 0 {
      OfTypeCounts(logs[1..], active);
      assert logs == [logs[0]] + logs[1..];
      assert multiset(logs) == multiset([logs[0]]) + multiset(logs[1..]);
    }
  }

  /** The filter keeps the list's order: the logs of each time come out in the
      order the list has them. */
  lemma {:induction false} OfTypeAtTime(logs: seq<LogEntry>, active: string, t: int)
    ensures AtTime(OfType(logs, active), t) == OfType(AtTime(logs, t), active)
  {
    if |logs| > 0 {
      var x := logs[0];
      var tail := logs[1..];
      OfTypeAtTime(tail, active, t);
      var ft := OfType(tail, active);
      var at := AtTime(tail, t);
      var fx: seq<LogEntry> := if x.logType == active then [x] else [];
      var ax: seq<LogEntry> := if x.loggedAt == t then [x] else [];
      assert OfType(logs, active) == fx + ft;
      assert AtTime(logs, t) == ax + at;
      calc {
        AtTime(OfType(logs, active), t);
        AtTime(fx + ft, t);
        { if x.logType == active { AtTimeCons(x, ft, t); } else { assert fx + ft == ft; } }
        (if x.logType == active && x.loggedAt == t then [x] else []) + AtTime(ft, t);
        (if x.logType == active && x.loggedAt == t then [x] else []) + OfType(at, active);
        { if x.loggedAt == t { OfTypeCons(x, at, active); } else { assert ax + at == at; } }
        OfType(ax + at, active);
        OfType(AtTime(logs, t), active);
      }
    }
  }

  lemma OfTypeCons(y: LogEntry, u: seq<LogEntry>, active: string)
    ensures OfType([y] + u, active) == (if y.logType == active then [y] else []) + OfType(u, active)
  {
    assert ([y] + u)[1..] == u;
  }

  ghost predicate Sorted(s: seq<LogEntry>) {
    forall i, j :: 0 <= i < j < |s| ==> s[i].loggedAt <= s[j].loggedAt
  }

  /** The entries logged at time `t`, in order; equal results for every `t`
      mean equal-time entries kept their relative order. */
  function AtTime(s: seq<LogEntry>, t: int): seq<LogEntry> {
    if |s| == 0 then []
    else (if s[0].loggedAt == t then [s[0]] else []) + AtTime(s[1..], t)
  }

  /** Insert `x` before the first entry that is not earlier than it. */
  function Insert(x: LogEntry, s: seq<LogEntry>): (r: seq<LogEntry>)
    ensures multiset(r) == multiset(s) + multiset{x}
    ensures |r| == |s| + 1
  {
    if |s| == 0 || x.loggedAt <= s[0].loggedAt then [x] + s
    else
      assert s == [s[0]] + s[1..];
      [s[0]] + Insert(x, s[1..])
  }

  lemma {:induction false} InsertSorted(x: LogEntry, s: seq<LogEntry>)
    requires Sorted(s)
    ensures Sorted(Insert(x, s))
  {
    if |s| == 0 || x.loggedAt <= s[0].loggedAt {
      return;
    }
    InsertSorted(x, s[1..]);
    var rest := Insert(x, s[1..]);
    assert Insert(x, s) == [s[0]] + rest;
    forall k | 0 <= k < |rest| ensures s[0].loggedAt <= rest[k].loggedAt {
      InsertedFrom(x, s[1..], k);
    }
  }

  /** Every entry of an insertion is the inserted one or an entry of the list. */
  lemma InsertedFrom(x: LogEntry, s: seq<LogEntry>, k: int)
    requires 0 <= k < |Insert(x, s)|
    ensures Insert(x, s)[k] == x || Insert(x, s)[k] in s
  {
    var r := Insert(x, s);
    assert r[k] in multiset(r);
  }

  lemma AtTimeCons(y: LogEntry, u: seq<LogEntry>, t: int)
    ensures AtTime([y] + u, t) == (if y.loggedAt == t then [y] else []) + AtTime(u, t)
  {
    assert ([y] + u)[1..] == u;
  }

  lemma {:induction false} InsertAtTime(x: LogEntry, s: seq<LogEntry>, t: int)
    ensures AtTime(Insert(x, s), t) == AtTime([x] + s, t)
  {
    if |s| == 0 || x.loggedAt <= s[0].loggedAt {
      return;
    }
    var tail := s[1..];
    var hs := if s[0].loggedAt == t then [s[0]] else [];
    var hx := if x.loggedAt == t then [x] else [];
    assert AtTime(Insert(x, s), t) == hs + (hx + AtTime(tail, t)) by {
      InsertAtTime(x, tail, t);
      var rest := Insert(x, tail);
      assert Insert(x, s) == [s[0]] + rest;
      AtTimeCons(s[0], rest, t);
      AtTimeCons(x, tail, t);
    }
    assert AtTime([x] + s, t) == hx + (hs + AtTime(tail, t)) by {
      AtTimeCons(x, s, t);
      assert s == [s[0]] + tail;
      AtTimeCons(s[0], tail, t);
    }
    assert hs == [] || hx == [];
  }

  /** The stable sort of `Array.prototype.sort` by `logged_at` ascending. */
  function SortByTime(s: seq<LogEntry>): seq<LogEntry> {
    if |s| == 0 then [] else Insert(s[0], SortByTime(s[1..]))
  }

  /** The sort orders by time. */
  lemma {:induction false} SortByTimeSorted(s: seq<LogEntry>)
    ensures Sorted(SortByTime(s))
  {
    if |s| > 0 {
      SortByTimeSorted(s[1..]);
      InsertSorted(s[0], SortByTime(s[1..]));
    }
  }

  /** The sort permutes its input. */
  lemma {:induction false} SortByTimePermutes(s: seq<LogEntry>)
    ensures multiset(SortByTime(s)) == multiset(s)
  {
    if |s| > 0 {
      SortByTimePermutes(s[1..]);
      var rest := SortByTime(s[1..]);
      assert SortByTime(s) == Insert(s[0], rest);
      assert multiset(Insert(s[0], rest)) == multiset(rest) + multiset{s[0]};
      assert multiset(s) == multiset([s[0]]) + multiset(s[1..]) by {
        assert s == [s[0]] + s[1..];
      }
    }
  }

  /** The sort is stable: entries of equal time keep their relative order. */
  lemma {:induction false} SortByTimeStable(s: seq<LogEntry>, t: int)
    ensures AtTime(SortByTime(s), t) == AtTime(s, t)
  {
    if |s| == 0 {
      return;
    }
    SortByTimeStable(s[1..], t);
    var rest := SortByTime(s[1..]);
    InsertAtTime(s[0], rest, t);
    assert ([s[0]] + rest)[1..] == rest;
    assert s == [s[0]] + s[1..];
  }

  /** The sort orders by time, permutes its input and is stable. */
  lemma SortByTimeCorrect(s: seq<LogEntry>)
    ensures Sorted(SortByTime(s))
    ensures multiset(SortByTime(s)) == multiset(s)
    ensures forall t :: AtTime(SortByTime(s), t) == AtTime(s, t)
  {
    SortByTimeSorted(s);
    SortByTimePermutes(s);
    forall t ensures AtTime(SortByTime(s), t) == AtTime(s, t) {
      SortByTimeStable(s, t);
    }
  }

  /** `typeLogs`: the logs of the active type, oldest first, ties in list order. */
  function TypeLogs(logs: seq<LogEntry>, active: string): (r: seq<LogEntry>)
    ensures Sorted(r)
    ensures forall l :: l in r <==> l in logs && l.logType == active
  {
    var f := OfType(logs, active);
    SortByTimeSorted(f);
    SortByTimePermutes(f);
    assert forall l :: l in SortByTime(f) <==> l in multiset(SortByTime(f));
    SortByTime(f)
  }

  /** `typeLogs` holds exactly the active type's logs, each as often as in the
      list, sorted by time, with equal-time logs in list order. */
  lemma TypeLogsSpec(logs: seq<LogEntry>, active: string)
    ensures var r := TypeLogs(logs, active);
      && (forall l :: l in r <==> l in logs && l.logType == active)
      && multiset(r) == multiset(OfType(logs, active))
      && (forall l :: multiset(r)[l] == if l.logType == active then multiset(logs)[l] else 0)
      && Sorted(r)
      && (forall t :: AtTime(r, t) == AtTime(OfType(logs, active), t))
      && forall t :: AtTime(r, t) == OfType(AtTime(logs, t), active)
  {
    SortByTimeCorrect(OfType(logs, active));
    OfTypeCounts(logs, active);
    var r := TypeLogs(logs, active);
    forall t ensures AtTime(r, t) == OfType(AtTime(logs, t), active) {
      OfTypeAtTime(logs, active, t);
    }
  }

  // ------------------------------------------------------------- display

  /** One element of `chartData`; the date label is kept as the timestamp. */
  datatype LogPoint = LogPoint(date: int, value: real, value2: Option<real>)

  function ChartData(typeLogs: seq<LogEntry>): (r: seq<LogPoint>)
    ensures |r| == |typeLogs|
    ensures forall i :: 0 <= i < |r| ==> r[i] == LogPoint(typeLogs[i].loggedAt, typeLogs[i].value, typeLogs[i].value2)
  {
    seq(|typeLogs|, i requires 0 <= i < |typeLogs| => LogPoint(typeLogs[i].loggedAt, typeLogs[i].value, typeLogs[i].value2))
  }

  /** The chart is drawn with at least two points, and its second line only
      for blood pressure. */
  predicate ShowChart(chart: seq<LogPoint>) {
    |chart| >= 2
  }

  predicate ShowSecondLine(active: string) {
    active == "blood_pressure"
  }

  /** The chart is drawn once the active type has two logs. */
  lemma ChartShown(logs: seq<LogEntry>, active: string)
    ensures ShowChart(ChartData(TypeLogs(logs, active))) <==> |OfType(logs, active)| >= 2
  {
    var f := OfType(logs, active);
    SortByTimePermutes(f);
    assert |SortByTime(f)| == |multiset(SortByTime(f))| == |f|;
  }

  /** The second line is drawn exactly for the log type whose entry in the
      type table has a second value. */
  lemma SecondLineShown(active: string)
    ensures ShowSecondLine(active) <==> FindType(LogTypes, active).Some? && FindType(LogTypes, active).value.hasSecond
  {
    var f := FindType(LogTypes, active);
    if f.Some? && f.value.hasSecond {
      var i :| 0 <= i < |LogTypes| && LogTypes[i] == f.value && f.value.code == active;
      assert i == 0;
    }
  }

  /** The chart's points are in time order, because `typeLogs` is. */
  lemma ChartDataInTimeOrder(logs: seq<LogEntry>, active: string)
    ensures var c := ChartData(TypeLogs(logs, active));
      forall i, j :: 0 <= i < j < |c| ==> c[i].date <= c[j].date
  {
    TypeLogsSpec(logs, active);
  }

  /** `[...typeLogs].reverse()`: a reversed copy. */
  function Reverse<T>(s: seq<T>): (r: seq<T>)
    ensures |r| == |s|
    ensures forall i :: 0 <= i < |s| ==> r[i] == s[|s| - 1 - i]
  {
    seq(|s|, i requires 0 <= i < |s| => s[|s| - 1 - i])
  }

  /** Reversing twice gives the list back, so the copy loses nothing. */
  lemma ReverseInvolution<T>(s: seq<T>)
    ensures Reverse(Reverse(s)) == s
  {
  }

  /** The newest-first list starts with a newest entry. */
  lemma NewestFirst(logs: seq<LogEntry>, active: string)
    requires |TypeLogs(logs, active)| > 0
    ensures var r := Reverse(TypeLogs(logs, active));
      forall l :: l in r ==> l.loggedAt <= r[0].loggedAt
  {
    TypeLogsSpec(logs, active);
  }

  // ------------------------------------------------------------ add form

  datatype Form = Form(logType: string, value: string, value2: string)

  /** The body of `POST /logs/`. A number input that `parseFloat` cannot read
      is NaN, which JSON sends as null: `None` here. */
  datatype LogPayload = LogPayload(logType: string, value: Option<real>, value2: Option<real>, unit: Option<string>)

  /** What an add attempt sent (if anything), whether a log was stored, and
      the form afterwards. */
  datatype AddOutcome = AddOutcome(sent: Option<LogPayload>, stored: bool, form: Form)

  /** `handleAdd`. `parse` stands for `parseFloat`; `serverOk` says whether the
      request itself went through. A null `value` is refused by the server,
      which requires a number there; a null `value2` is accepted. */
  function HandleAdd(form: Form, parse: string -> Option<real>, serverOk: bool): (o: AddOutcome)
    ensures o.sent.None? <==> form.value == ""
    ensures o.sent.Some? ==>
      && o.sent.value.logType == form.logType
      && o.sent.value.value == parse(form.value)
      && o.sent.value.value2 == (if form.value2 == "" then None else parse(form.value2))
      && o.sent.value.unit == UnitOf(form.logType)
    ensures o.stored <==> form.value != "" && serverOk && parse(form.value).Some?
    ensures o.stored ==> o.form == Form(form.logType, "", "")
    ensures !o.stored ==> o.form == form
  {
    if form.value == "" then AddOutcome(None, false, form)
    else
      var payload := LogPayload(form.logType, parse(form.value),
        if form.value2 != "" then parse(form.value2) else None,
        UnitOf(form.logType));
      if serverOk && payload.value.Some? then AddOutcome(Some(payload), true, form.(value := "", value2 := ""))
      else AddOutcome(Some(payload), false, form)
  }

  /** After a stored add the form is empty, so pressing Add again sends
      nothing and keeps the chosen type. */
  lemma AddAgainIsNoOp(form: Form, parse: string -> Option<real>, ok1: bool, ok2: bool)
    requires HandleAdd(form, parse, ok1).stored
    ensures var f := HandleAdd(form, parse, ok1).form;
      && f.logType == form.logType
      && HandleAdd(f, parse, ok2) == AddOutcome(None, false, f)
  {
  }
}
