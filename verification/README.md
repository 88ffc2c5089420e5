# Health dashboard analytics in Dafny

This project models the data-shaping and classification logic of a personal
health dashboard. The backend stores lab biomarkers extracted from uploaded PDF
reports. It computes rule-based risk scores, flags z-score anomalies and warns
when a forecast crosses a reference limit. The frontend turns the same readings
into charts, status badges, a risk gauge, a manual-log page and a medicines
timeline. The model covers the following:

- **Chart series** (`Chart`): the historical and forecast points, the bridge
  point joining the two lines, anomaly marking by id, and the padded y-axis
  domain.
- **Dashboard** (`Dashboard`):
  - the trend indicator;
  - the reference-range status badge;
  - the anomaly-id filter;
  - the latest-values table;
  - the series the dashboard hands to the chart.
- **Latest reading per name** (`Latest`): the reduction written identically in
  the dashboard and in the risk scoring.
- **Risk gauge** (`Gauge`): clamp, needle angle, arc fraction and the
  three-tier styling.
- **Risk scores** (`Risk`): the case-insensitive substring lookup and the point
  tables for diabetes and cardiovascular risk.
- **Anomalies** (`Anomaly`, with `Stats` for population mean and variance):
  grouping by name, the z-score test and severity. Samuelson's inequality
  bounds what small groups can flag.
- **Forecast warning** (`Forecast`): choosing the reference bounds and the
  upper-before-lower warning. The forecast values are inputs.
- **Manual logs** (`Logs`): the type filter, the stable sort by time, the chart
  data, the newest-first list and the add form.
- **Medicines** (`Medicines`): active status, timeline styling and the add form.
- **Report upload** (`Reports`): the file-name check, the conversion of each
  extracted item into a stored reading (or skipping it), and the returned count.
- **Model-reply post-processing** (`LlmText`): trimming, fence removal and
  prompt truncation.

Shared pieces:

- `Wrappers`: `Option`.
- `Records`: the `Biomarker` record and JavaScript/Python truthiness of a
  nullable number.
- `Text`: ASCII lower-casing, `startswith`/`endswith`/`in`, and `str.strip()`.

Values are exact reals. Times are integer timestamps. Nullable fields are
`Option`s. A `float()`/`parseFloat` call on a string is a parameter
`parse: string -> Option<real>`, with `None` where Python raises or JavaScript
yields NaN. The current time, the server's answer and the extractor's output
are also parameters.

## Model

| member | source | states |
|---|---|---|
| Chart.HistData | frontend/src/components/BiomarkerChart.jsx:24-28 | one point per historical reading, in order, carrying only `actual`; it is marked anomalous exactly when the reading's id is in the anomaly set |
| Chart.ForecastData | frontend/src/components/BiomarkerChart.jsx:30-33 | one point per forecast reading, in order, carrying only `forecast` and never marked |
| Chart.Bridge | frontend/src/components/BiomarkerChart.jsx:36-39 | no contract of its own: Chart.Combined states that with history the point after it repeats the last historical point with its actual value as forecast, and Chart.OnlyBridgeHasBoth that no other point has both |
| Chart.Combined | frontend/src/components/BiomarkerChart.jsx:36-41 | length is historical + forecast, plus one when there is history. Order is the historical points, then the bridge (a copy of the last historical point with `forecast` set to its `actual`), then the forecast points. The bridge is present even with an empty forecast |
| Chart.OnlyBridgeHasBoth | frontend/src/components/BiomarkerChart.jsx:37-41 | the only merged point with both an actual and a forecast value is the bridge |
| Chart.AnomalyOnlyFromIds | frontend/src/components/BiomarkerChart.jsx:22-27 | a marked point is a historical point (or the bridge) whose reading id is in the anomaly set, so a point without an id is never marked |
| Chart.KeepTruthy | frontend/src/components/BiomarkerChart.jsx:43 | `.filter(Boolean)` keeps exactly the present, non-zero numbers |
| Chart.AxisPool | frontend/src/components/BiomarkerChart.jsx:43 | the pool holds no zero and at most one value per actual, per forecast and per bound |
| Chart.AxisPoolMembers | frontend/src/components/BiomarkerChart.jsx:43 | a value is in the axis pool iff it is a non-zero actual, forecast, refMin or refMax |
| Chart.Min | frontend/src/components/BiomarkerChart.jsx:44 | the result is an element of the pool and no element is smaller |
| Chart.Max | frontend/src/components/BiomarkerChart.jsx:45 | the result is an element of the pool and no element is larger |
| Chart.AxisDomain | frontend/src/components/BiomarkerChart.jsx:44-45 | no domain iff the pool is empty; otherwise 0.85 times the pool's minimum and 1.15 times its maximum |
| Chart.AxisDomainContainsPositivePool | frontend/src/components/BiomarkerChart.jsx:44-45 | for an all-positive pool every pooled value lies strictly inside the domain |
| Chart.AxisDomainMissesNegativeMinimum | frontend/src/components/BiomarkerChart.jsx:44 | for every pool with a negative value, the multiplicative padding puts the lower bound above the pool's minimum, so that value falls outside the domain |
| Chart.ZeroReadingsGiveNoDomain | frontend/src/components/BiomarkerChart.jsx:43-45 | for any chart whose historical and forecast values are all 0 and whose bounds are absent or 0, the pool is empty and there is no finite domain. The combined data still has one point per reading plus the bridge and the forecast, and each historical point shows its 0 |
| Dashboard.TrendOf | frontend/src/pages/Dashboard.jsx:8-15 | neutral iff fewer than two values; otherwise Up iff last > prev, Down iff last < prev, else Flat. The percentage is absent iff prev is 0, and otherwise it times prev equals (last - prev) * 100 |
| Dashboard.TrendLastTwo | frontend/src/pages/Dashboard.jsx:10-11 | only the last two values matter |
| Dashboard.Pct | frontend/src/pages/Dashboard.jsx:12 | absent iff prev is 0; otherwise the percentage times prev equals (last - prev) * 100 |
| Dashboard.PctSign | frontend/src/pages/Dashboard.jsx:12-14 | for a positive previous value the percentage's sign matches the direction; for a negative one it is inverted |
| Dashboard.StatusColor | frontend/src/pages/Dashboard.jsx:18-25 | no badge iff both bounds are null; red iff past a truthy bound; yellow iff not red but within the strict 10% margin of a truthy bound; green otherwise |
| Dashboard.ZeroBoundIgnored | frontend/src/pages/Dashboard.jsx:20-22 | a zero bound classifies like an absent one, except that it still suppresses the "no badge" outcome |
| Dashboard.StatusBands | frontend/src/pages/Dashboard.jsx:20-24 | with positive bounds: green on [1.1 min, 0.9 max], red outside [min, max], yellow in between |
| Dashboard.StatusBoundaries | frontend/src/pages/Dashboard.jsx:20-24 | the margins are strict: 0.9 max is green, max is yellow, just above max is red; the same holds near min |
| Dashboard.StatusClass | frontend/src/pages/Dashboard.jsx:18-25 | the class is empty exactly for the no-badge status; every other class starts with "risk-" |
| Dashboard.StatusLabel | frontend/src/pages/Dashboard.jsx:228-230 | the badge text is absent exactly for the no-badge status |
| Dashboard.StatusPresentationAgrees | frontend/src/pages/Dashboard.jsx:228-230 | the badge is drawn exactly when its class is non-empty, and distinct statuses get distinct classes and texts |
| Dashboard.AnomalyIds | frontend/src/pages/Dashboard.jsx:88 | an id is in the set iff some anomaly with the selected name carries it |
| Dashboard.LastIndex | frontend/src/pages/Dashboard.jsx:215-217 | the position of the last reading with the name, or -1 when there is none |
| Dashboard.TableRows | frontend/src/pages/Dashboard.jsx:214-231 | each row is built from its name's last reading in list order, and every name with readings gets a row; names without readings are skipped |
| Dashboard.RowFor | frontend/src/pages/Dashboard.jsx:216-231 | no contract of its own: Dashboard.TableRows pins each row to RowFor of its name's last reading, whose range is shown iff both bounds are non-null and whose badge is Dashboard.StatusColor of the reading |
| Dashboard.TableRowsAppend | frontend/src/pages/Dashboard.jsx:214 | rows follow the order of the name list: the table of concatenated lists is the concatenation of the tables |
| Dashboard.TableRowsSingle | frontend/src/pages/Dashboard.jsx:215-218 | one name gives its row iff it has a reading, with status and range taken from the last reading |
| Dashboard.TableShowsLatest | frontend/src/pages/Dashboard.jsx:215-216 | on time-ordered readings each row shows a reading no older than any other of its name |
| Dashboard.TableAgreesWithLatestByName | frontend/src/pages/Dashboard.jsx:81-86 | on strictly time-ordered readings the reduction's entry for a name is the table's reading |
| Dashboard.TieBreakDiffers | frontend/src/pages/Dashboard.jsx:83 | with equal timestamps the reduction keeps the first reading while the table shows the last |
| Dashboard.ChartRefs | frontend/src/pages/Dashboard.jsx:90-91 | the chart's bounds are those of the first reading of the fetched list, or absent without readings. On a list ordered by time, which is how it arrives (backend/app/routers/biomarkers.py:25), they are the bounds of an oldest reading, which need not carry the selected name (see Dashboard.ChartRefsOfOtherName) |
| Dashboard.ChartRefsOlderThanTable | frontend/src/pages/Dashboard.jsx:90-91 | for an older and a newer reading of one name, the chart draws the older reading's range while the table row shows the newer reading with its own range |
| Dashboard.Fetched | backend/app/routers/biomarkers.py:21-24 | with a non-empty selection, a reading is fetched iff it is one of the user's readings and its lower-cased name contains the lower-cased selection; an empty selection fetches all |
| Dashboard.FetchedSorted | backend/app/routers/biomarkers.py:24-25 | the filter keeps the time order of the readings |
| Dashboard.TableOnlyMatching | frontend/src/pages/Dashboard.jsx:214-231 | with a selection, every row of the latest-values table shows one of the user's readings whose name contains the selection, so other biomarkers never appear in it |
| Dashboard.ChartRefsOfOtherName | frontend/src/pages/Dashboard.jsx:64-69 | two differently named readings whose names both contain the selection are both fetched: the chart takes the older one's range and the table lists both names |
| Dashboard.PrefixedNameCharted | frontend/src/pages/Dashboard.jsx:90-91 | with "Glucose" selected, an older reading named a prefix followed by the selection (such as "Fasting Glucose") is fetched and its range is the chart's |
| Dashboard.ChartAsWritten | frontend/src/pages/Dashboard.jsx:184-191 | the series starts with one point per payload reading, in order, with its time and value and no forecast value; its length adds one point per forecast value and, when there are readings, the bridge |
| Dashboard.ChartAsWrittenNeverMarks | frontend/src/components/BiomarkerChart.jsx:27 | fed the forecast payload as written, no chart point is ever marked anomalous |
| Dashboard.FlaggedReadingNotMarked | frontend/src/components/BiomarkerChart.jsx:27 | a reading whose id is among the selection's anomalies is still drawn unmarked |
| Dashboard.ChartWithIds | frontend/src/pages/Dashboard.jsx:184-191 | the series starts with one point per payload reading, in order, with its time and value and no forecast value, marked iff the reading's id is among the selected name's anomaly ids; its length adds one point per forecast value and, when there are readings, the bridge |
| Dashboard.ChartWithIdsMarksFlagged | frontend/src/components/BiomarkerChart.jsx:22-27 | with ids in the payload, a historical point is marked iff some anomaly of the selected name names its reading |
| Latest.NameIndex | backend/app/services/analytics_service.py:64 | the position of the entry with the name, or -1 when there is none |
| Latest.LatestByName | backend/app/services/analytics_service.py:62-65 | no contract of its own (it is the reduction itself); stated by Latest.LatestByNameDistinct, Latest.LatestByNameKeepsLatest, Latest.LatestByNameOrder and Latest.LatestByNameSnoc |
| Latest.LatestByNameDistinct | backend/app/services/analytics_service.py:62-65 | the reduction has exactly one entry per name that occurs in the readings |
| Latest.LatestByNameKeepsLatest | backend/app/services/analytics_service.py:62-65 | each entry is a reading that no other reading of its name is later than, and the first such reading on ties |
| Latest.LatestAtUnique | frontend/src/pages/Dashboard.jsx:81-86 | at most one reading per name is "the latest" in that sense, so the result is determined |
| Latest.LatestByNameOrder | backend/app/services/analytics_service.py:62-65 | entries come in the order in which their names first appear, which is the dict's iteration order |
| Latest.LatestByNameSnoc | backend/app/services/analytics_service.py:63-65 | one more reading is one more loop step |
| Latest.StepShape | backend/app/services/analytics_service.py:64-65 | a step appends a new name or keeps the list's shape, replacing only a strictly later reading |
| Latest.LatestByNameOfDistinct | backend/app/services/analytics_service.py:62-65 | a list with one entry per name is its own reduction |
| Latest.LatestByNameIdempotent | backend/app/services/analytics_service.py:62-65 | reducing twice is reducing once |
| Gauge.Clamp | frontend/src/components/GaugeMeter.jsx:2 | the result lies in [0, 100], equals an in-range score, and is 0 below and 100 above the range |
| Gauge.ClampIdempotent | frontend/src/components/GaugeMeter.jsx:2 | clamping twice is clamping once |
| Gauge.ClampMonotone | frontend/src/components/GaugeMeter.jsx:2 | clamping preserves the order of scores |
| Gauge.Angle | frontend/src/components/GaugeMeter.jsx:3 | the angle lies in [-90, 90], is -90 for scores of at most 0 and 90 for scores of at least 100 |
| Gauge.AngleMonotone | frontend/src/components/GaugeMeter.jsx:2-3 | the angle never decreases as the raw score grows |
| Gauge.ArcFraction | frontend/src/components/GaugeMeter.jsx:40 | the painted share of the arc is the clamped score over 100 and never exceeds the whole arc |
| Gauge.TierOf | frontend/src/components/GaugeMeter.jsx:5-7 | Low iff below 35, High iff at least 65, Moderate otherwise |
| Gauge.TierIgnoresClamp | frontend/src/components/GaugeMeter.jsx:2-7 | the clamped and the raw score fall in the same tier |
| Gauge.StylingDistinguishesTiers | frontend/src/components/GaugeMeter.jsx:5-7 | stroke colour, text class, badge class and label all differ between tiers |
| Gauge.Stroke | frontend/src/components/GaugeMeter.jsx:5 | no contract of its own: Gauge.StylingDistinguishesTiers states that the three tiers get different colours |
| Gauge.TextClass | frontend/src/components/GaugeMeter.jsx:6 | no contract of its own: Gauge.StylingDistinguishesTiers states that the three tiers get different text classes |
| Gauge.BadgeClass | frontend/src/components/GaugeMeter.jsx:48 | no contract of its own: Gauge.StylingDistinguishesTiers states that the three tiers get different badge classes |
| Gauge.Label | frontend/src/components/GaugeMeter.jsx:7 | no contract of its own: Gauge.StylingDistinguishesTiers states that the three tiers get different labels |
| Gauge.Render | frontend/src/components/GaugeMeter.jsx:2-48 | the shown number is the clamped score, the angle and arc follow it, and all four styling outputs come from the one tier |
| Gauge.RenderExamples | frontend/src/components/GaugeMeter.jsx:2-7 | 0 and 100 give the needle's extremes, out-of-range scores are shown clamped, and 35 and 65 belong to the upper tier |
| Risk.FirstMatch | backend/app/services/analytics_service.py:69-71 | the first latest entry whose name contains the term, ignoring ASCII case, or -1 when none does |
| Risk.Matches | backend/app/services/analytics_service.py:70 | no contract of its own: `n.lower() in key.lower()`, with Text.Contains stating the substring search and Risk.FirstMatch the first matching entry |
| Risk.FirstTerm | backend/app/services/analytics_service.py:67-72 | the first term that matches some entry, with no earlier term matching any, or -1 when no term matches |
| Risk.GetVal | backend/app/services/analytics_service.py:67-72 | None iff no term matches any entry; otherwise the value of the first matching entry for the first term that matches at all |
| Risk.PointsMonotone | backend/app/services/analytics_service.py:80-125 | each point table is monotone (HDL reversed) and bounded by 50, 50, 30, 20, 25 and 25 |
| Risk.PointsBoundaries | backend/app/services/analytics_service.py:81-123 | every threshold is inclusive exactly where the code writes `>=` |
| Risk.HbA1cPoints | backend/app/services/analytics_service.py:80-86 | no contract of its own: Risk.PointsMonotone bounds it by 50 and Risk.PointsBoundaries pins 0, 30 and 50 at 5.7 and 6.5 |
| Risk.GlucosePoints | backend/app/services/analytics_service.py:90-96 | no contract of its own: Risk.PointsMonotone bounds it by 50 and Risk.PointsBoundaries pins 0, 30 and 50 at 100 and 126 |
| Risk.LdlPoints | backend/app/services/analytics_service.py:111 | no contract of its own: Risk.PointsMonotone bounds it by 30 and Risk.PointsBoundaries pins 0, 10, 20 and 30 at 100, 130 and 160 |
| Risk.HdlPoints | backend/app/services/analytics_service.py:115 | no contract of its own: Risk.PointsMonotone states it never increases with the value and is at most 20; Risk.PointsBoundaries pins 20, 10 and 0 around 40 and 60 |
| Risk.TriglyceridePoints | backend/app/services/analytics_service.py:119 | no contract of its own: Risk.PointsMonotone bounds it by 25 and Risk.PointsBoundaries pins 0, 15 and 25 at 150 and 200 |
| Risk.SystolicPoints | backend/app/services/analytics_service.py:123 | no contract of its own: Risk.PointsMonotone bounds it by 25 and Risk.PointsBoundaries pins 0, 15 and 25 at 130 and 140 |
| Risk.FactorIf | backend/app/services/analytics_service.py:80-88 | a factor is listed iff its marker was found, and every listed factor carries the marker's value and points |
| Risk.SumPointsAppend | backend/app/services/analytics_service.py:87-97 | the points of concatenated factor lists add up |
| Risk.DiabetesScore | backend/app/services/analytics_service.py:78-100 | the factors are HbA1c then fasting glucose, each iff found, and each carries its value and table points. The score is the sum of their points and lies in [0, 100], so the cap never applies |
| Risk.CardioScore | backend/app/services/analytics_service.py:108-127 | the factors are LDL, HDL, triglycerides and systolic pressure, each iff found, in that order. Every factor, HDL and triglycerides included, carries its found value and table points. The score is the sum of their points and lies in [0, 100] |
| Risk.CardioPins | backend/app/services/analytics_service.py:113-120 | any factor named HDL or Triglycerides is the one built from the found HDL or triglyceride value with its table points |
| Risk.Found | backend/app/services/analytics_service.py:67-72 | a lookup returns a value exactly when some entry matches some term |
| Risk.Diabetes | backend/app/services/analytics_service.py:75-100 | an HbA1c factor carries the looked-up HbA1c value; the score is the sum of the factors' points and lies in [0, 100] |
| Risk.DiabetesNamesFound | backend/app/services/analytics_service.py:75-100 | HbA1c and fasting glucose are listed, in that order, exactly when some latest reading matches their search terms |
| Risk.Cardiovascular | backend/app/services/analytics_service.py:103-127 | an HDL factor carries the looked-up HDL value; the score is the sum of the factors' points and lies in [0, 100] |
| Risk.CardiovascularFound | backend/app/services/analytics_service.py:103-127 | LDL, HDL, triglycerides and systolic pressure are listed, in that order, exactly when some latest reading matches their search terms |
| Risk.ComputeRiskScores | backend/app/services/analytics_service.py:59-132 | both scores lie in [0, 100] |
| Risk.HbA1cReported | backend/app/services/analytics_service.py:59-100 | an HbA1c factor is reported exactly when the latest reading of some name matches "hba1c" or "hemoglobin a1c" |
| Risk.ScoresUseLatestOnly | backend/app/services/analytics_service.py:62-65 | the scores depend only on the latest reading of each name |
| Risk.NoMatchesNoRisk | backend/app/services/analytics_service.py:72-127 | without any matching reading both scores are 0 with no factors |
| Anomaly.Group | backend/app/services/analytics_service.py:137-139 | a name's group holds exactly that name's readings |
| Anomaly.GroupCounts | backend/app/services/analytics_service.py:137-139 | a group holds each reading of its name as often as the input does, and no other reading |
| Anomaly.GroupNames | backend/app/services/analytics_service.py:137-142 | the group keys are exactly the names present, each once |
| Anomaly.FlagItems | backend/app/services/analytics_service.py:150-160 | a record is emitted iff some item of the group passes the z-score test |
| Anomaly.FlagGroup | backend/app/services/analytics_service.py:142-160 | no contract of its own: Anomaly.DetectAnomaliesSound and Anomaly.DetectAnomaliesComplete state that a group of at least 3 readings with non-zero spread reports exactly its readings that pass the z-score test, and Anomaly.SmallGroupsNeverFlagged that no reading of a group under 8 passes the test |
| Anomaly.SeverityOf | backend/app/services/analytics_service.py:159 | no contract of its own: Anomaly.SeverityHighIff states that it is high iff the z-score exceeds 3 |
| Anomaly.DetectAnomalies | backend/app/services/analytics_service.py:135-162 | every reported record carries the id, name, value and time of an input reading |
| Anomaly.DetectAnomaliesSound | backend/app/services/analytics_service.py:135-162 | every reported anomaly is a reading whose group has at least 3 readings and non-zero spread, whose z-score exceeds 2.5, and whose record carries its group's severity |
| Anomaly.DetectAnomaliesComplete | backend/app/services/analytics_service.py:135-162 | every reading that passes the test in its group is reported |
| Anomaly.SeverityHighIff | backend/app/services/analytics_service.py:159 | severity is high iff the z-score exceeds 3 |
| Anomaly.SmallGroupsNeverFlagged | backend/app/services/analytics_service.py:143-152 | a group of fewer than 8 readings never has an anomaly |
| Anomaly.NoExcessInSmallSample | backend/app/services/analytics_service.py:146-152 | when n - 1 is at most k squared, no reading of an n-sample exceeds k standard deviations |
| Anomaly.HighNeedsElevenReadings | backend/app/services/analytics_service.py:150-159 | a high-severity anomaly needs at least 11 readings in its group |
| Stats.Variance | backend/app/services/analytics_service.py:147 | the population variance is non-negative |
| Stats.Mean | backend/app/services/analytics_service.py:146 | no contract of its own: Stats.DeviationsSumToZero states that the deviations from it sum to zero, which characterises the mean |
| Stats.DeviationsSumToZero | backend/app/services/analytics_service.py:146 | deviations from the mean sum to zero |
| Stats.SquareOfSumBound | backend/app/services/analytics_service.py:146-147 | the square of a sum is at most n times the sum of squares |
| Stats.Samuelson | backend/app/services/analytics_service.py:146-151 | no squared deviation exceeds n - 1 times the variance |
| Stats.ZScoreTest | backend/app/services/analytics_service.py:151-152 | the z-score test `abs(d) / std > k` is the same as `d^2 > k^2 * var` |
| Forecast.LastTruthy | backend/app/services/analytics_service.py:37-38 | None iff no entry is truthy; otherwise the last truthy entry |
| Forecast.LastTruthySnoc | backend/app/services/analytics_service.py:37-38 | a later truthy bound replaces the chosen one, and a falsy one leaves it alone |
| Forecast.WarningFor | backend/app/services/analytics_service.py:39-49 | an upper warning iff the upper bound is truthy and some value exceeds it; a lower warning iff there is none and some value is below a truthy lower bound; each warning carries its limit |
| Forecast.ForecastWarning | backend/app/services/analytics_service.py:36-49 | an upper warning's limit is the truthy ref_max of the latest reading that has one, and some forecast value exceeds it; likewise for a lower warning with ref_min. Without any truthy bound there is no warning |
| Forecast.NewestBoundsDecide | backend/app/services/analytics_service.py:37-49 | a newest reading with both bounds truthy decides the warning alone, whatever came before |
| Forecast.LastTruthyAt | backend/app/services/analytics_service.py:37-38 | a truthy entry with no truthy entry after it is the one chosen |
| Forecast.ForecastWarningChosen | backend/app/services/analytics_service.py:36-49 | the converse of ForecastWarning: a forecast value above the truthy ref_max of the latest reading that has one gives an upper warning; otherwise a value below the latest truthy ref_min gives a lower warning |
| Forecast.ForecastWarningSnoc | backend/app/services/analytics_service.py:36-49 | appending a reading: each of its truthy bounds replaces the chosen one, and each falsy bound keeps the earlier readings' choice |
| Forecast.InRangeNoWarning | backend/app/services/analytics_service.py:40-49 | values inside the bounds never warn |
| Forecast.UpperWins | backend/app/services/analytics_service.py:45 | the upper warning wins even when a value is also below the lower limit |
| Forecast.ZeroBoundNeverWarns | backend/app/services/analytics_service.py:37-45 | a zero bound is never chosen over an earlier non-zero one, and never warns |
| Forecast.PayloadHistory | backend/app/services/analytics_service.py:52 | the payload's history has one point per reading, with its date and value and no id |
| Forecast.PayloadHistoryWithIds | backend/app/services/analytics_service.py:52 | the same history, with each point also carrying its reading's id |
| Logs.FindType | frontend/src/pages/LogsPage.jsx:37 | None iff no type has the code; otherwise the first type with it |
| Logs.UnitOf | frontend/src/pages/LogsPage.jsx:37 | no contract of its own: Logs.UnitsOfTypes states the unit of each of the four types and none for any other code |
| Logs.UnitsOfTypes | frontend/src/pages/LogsPage.jsx:7-12 | each of the four log types has its own unit, and any other code has none |
| Logs.OfType | frontend/src/pages/LogsPage.jsx:52 | the filter keeps exactly the logs of the active type, without adding any |
| Logs.OfTypeCounts | frontend/src/pages/LogsPage.jsx:52 | the filter keeps each log of the active type as often as the list has it, and no other log |
| Logs.OfTypeAtTime | frontend/src/pages/LogsPage.jsx:52 | the filter keeps the list's order: the logs of any one time come out as the filter of that time's logs |
| Logs.Insert | frontend/src/pages/LogsPage.jsx:52 | insertion adds exactly the one entry |
| Logs.InsertSorted | frontend/src/pages/LogsPage.jsx:52 | insertion keeps a time-sorted list sorted |
| Logs.InsertAtTime | frontend/src/pages/LogsPage.jsx:52 | insertion keeps the order of entries with equal times |
| Logs.SortByTimeSorted | frontend/src/pages/LogsPage.jsx:52 | the sorted list is in ascending time order |
| Logs.SortByTime | frontend/src/pages/LogsPage.jsx:52 | no contract of its own: Logs.SortByTimeCorrect states that it is sorted by time, a permutation and stable |
| Logs.SortByTimePermutes | frontend/src/pages/LogsPage.jsx:52 | the sorted list holds the same entries, each as often |
| Logs.SortByTimeStable | frontend/src/pages/LogsPage.jsx:52 | entries with equal times keep their relative order |
| Logs.SortByTimeCorrect | frontend/src/pages/LogsPage.jsx:52 | the sort orders by time ascending, is a permutation and is stable |
| Logs.TypeLogs | frontend/src/pages/LogsPage.jsx:52 | `typeLogs` is sorted by time and holds exactly the active type's logs |
| Logs.TypeLogsSpec | frontend/src/pages/LogsPage.jsx:52 | `typeLogs` holds each log of the active type as often as the full list does and no other log. It is sorted by time, and the logs of any one time appear in the order the full list has them |
| Logs.ChartData | frontend/src/pages/LogsPage.jsx:53 | one chart point per log, in order, with its time, value and second value |
| Logs.ChartDataInTimeOrder | frontend/src/pages/LogsPage.jsx:52-53 | the chart's points are in time order |
| Logs.ChartShown | frontend/src/pages/LogsPage.jsx:111 | the chart is drawn exactly when the active type has at least two logs |
| Logs.ShowChart | frontend/src/pages/LogsPage.jsx:111 | no contract of its own: Logs.ChartShown states that the chart is drawn iff the active type has at least two logs |
| Logs.SecondLineShown | frontend/src/pages/LogsPage.jsx:121 | the second line is drawn exactly for the log type whose table entry has a second value |
| Logs.ShowSecondLine | frontend/src/pages/LogsPage.jsx:121 | no contract of its own: Logs.SecondLineShown states that it holds exactly for the type with hasSecond |
| Logs.Reverse | frontend/src/pages/LogsPage.jsx:134 | the list is the logs in reverse order |
| Logs.ReverseInvolution | frontend/src/pages/LogsPage.jsx:134 | reversing twice gives the list back, so the copy loses nothing |
| Logs.NewestFirst | frontend/src/pages/LogsPage.jsx:134 | the newest-first list starts with a newest log |
| Logs.HandleAdd | frontend/src/pages/LogsPage.jsx:29-43 | nothing is sent iff the value is empty. Otherwise the payload carries the type, the parsed value, null for an empty second value and the type's unit. A log is stored iff the request succeeds with a number. Success clears both values and keeps the type; anything else leaves the form unchanged |
| Logs.AddAgainIsNoOp | frontend/src/pages/LogsPage.jsx:30-39 | after a stored add, pressing Add again sends nothing and the type is kept |
| Medicines.ActiveOverTime | frontend/src/pages/MedicinesPage.jsx:44 | without an end date a medicine is always active. With one, it is active up to and including the instant its end date denotes and inactive after it. Once inactive, it stays inactive |
| Medicines.IsActive | frontend/src/pages/MedicinesPage.jsx:44 | no contract of its own: Medicines.ActiveOverTime states when it holds and Medicines.View that the entry reads "Active" iff it holds |
| Medicines.View | frontend/src/pages/MedicinesPage.jsx:93-107 | the entry reads "Active" iff the medicine is active and "Completed" iff not |
| Medicines.ViewAgrees | frontend/src/pages/MedicinesPage.jsx:93-107 | dot, icon, pill and text all agree: two entries look alike iff both are active or both are not |
| Medicines.NullIfEmpty | frontend/src/pages/MedicinesPage.jsx:26-29 | an empty field is sent as null and any other as itself |
| Medicines.HandleAdd | frontend/src/pages/MedicinesPage.jsx:20-35 | nothing is sent iff the drug name or the start date is empty; otherwise the payload maps empty optional fields to null, and the form resets iff the request succeeds |
| Medicines.NoDateOrderCheck | frontend/src/pages/MedicinesPage.jsx:21 | an end date before the start date is sent as it is |
| Medicines.AddAgainIsNoOp | frontend/src/pages/MedicinesPage.jsx:21-31 | after a successful add, another add sends nothing |
| Reports.ToFloat | backend/app/routers/reports.py:54 | numbers and booleans convert; null and compound values raise |
| Reports.BoundOf | backend/app/routers/reports.py:56-57 | a bound is absent iff its key is missing, null or the empty string, so a numeric zero is kept. A kept bound is float() of the field, and the item is rejected iff the field is present, not null, not "" and float() raises |
| Reports.ReadingOf | backend/app/routers/reports.py:50-62 | a missing name becomes "Unknown", a null name stays null, a missing value becomes 0 and a missing unit "". The item is skipped iff the value or a present bound fails to convert. A stored reading carries the report id, the user id and the report date. Its value is float() of the present value, its unit is the present unit, and its bounds are the converted bounds (absent ones null) |
| Reports.StoreAll | backend/app/routers/reports.py:48-62 | at most one reading per item, each tagged with the report, the user and the report date |
| Reports.StoreAllAppend | backend/app/routers/reports.py:48-62 | items are handled independently, so a skipped item does not stop the rest |
| Reports.StoreOne | backend/app/routers/reports.py:49-62 | a single item is stored exactly when it converts |
| Reports.UploadReport | backend/app/routers/reports.py:25-68 | 400 iff the lowercased name does not end in ".pdf". The count is the number of extracted items, skipped ones included, or 0 when extraction raised. Nothing is stored when extraction raised, when an item is not an object, or when a converted reading has a null name, since the commit then fails. Otherwise the stored readings are exactly the converted items, in order |
| Reports.UploadSingleItem | backend/app/routers/reports.py:46-66 | a single object item is stored exactly when it converts and its name is not null |
| Reports.NullNameDiscardsAll | backend/app/routers/reports.py:46-66 | one converted item with a null name discards every reading of the upload, and the count still covers all items |
| Reports.PdfNameCases | backend/app/routers/reports.py:25 | for every stem, ".pdf" in any ASCII case passes and ".txt" fails; a bare "pdf" without the dot fails |
| Reports.IsPdfName | backend/app/routers/reports.py:25 | no contract of its own: Reports.PdfNameCases states that ".pdf" in any ASCII case passes for every stem and that ".txt" and a bare "pdf" are rejected |
| Reports.ConversionCases | backend/app/routers/reports.py:53-57 | the defaults, the skip on an empty or null value, and the kept zero bound, on concrete items |
| LlmText.Before | backend/app/ai/openai_service.py:36 | the text before the first fence, or all of it when there is none |
| LlmText.Unfence | backend/app/ai/openai_service.py:33-38 | trimmed text without an opening fence passes unchanged; otherwise the result is the segment up to the next fence, minus one leading "json" |
| LlmText.UnfenceFenced | backend/app/ai/openai_service.py:35-38 | for text that opens with a fence once stripped, the result is the segment before the next fence, minus one leading "json" |
| LlmText.UnfencedHasNoFence | backend/app/ai/openai_service.py:35-38 | the result of unfencing fenced text contains no fence |
| LlmText.JsonFenceRoundTrip | backend/app/ai/openai_service.py:35-38 | a body wrapped in a ```json fence comes back unchanged |
| LlmText.BareFenceRoundTrip | backend/app/ai/openai_service.py:35-38 | a body not starting with "json", wrapped in a bare fence, comes back unchanged |
| LlmText.UnclosedFence | backend/app/ai/openai_service.py:36 | without a closing fence everything after the opening one is kept |
| LlmText.PlainTextKept | backend/app/ai/openai_service.py:33-39 | text that neither starts nor ends with whitespace and does not open with a fence reaches the parser unchanged, even when it starts with "json" |
| LlmText.PromptText | backend/app/ai/openai_service.py:22 | the prompt embeds a prefix of the report text of at most 4000 characters, and all of a short one |
| LlmText.PromptRecords | backend/app/ai/openai_service.py:48 | the summary prompt embeds at most the first 80 records, and all of a short history |
| LlmText.TakeIdempotent | backend/app/ai/openai_service.py:22 | truncation is idempotent and agrees with any shorter truncation |
| Text.Lower | backend/app/services/analytics_service.py:70 | lower-casing maps each character and keeps the length |
| Text.Contains | backend/app/services/analytics_service.py:70 | `needle in hay` holds iff the needle occurs at some position |
| Text.Strip | backend/app/ai/openai_service.py:33 | the result is the middle of the text with all leading and trailing whitespace removed |
| Text.StripIdempotent | backend/app/ai/openai_service.py:33 | stripping twice is stripping once |

## Left out

- Rendering: JSX markup, recharts and SVG. The needle's end point uses trigonometry and is not modelled; the arc is modelled as a fraction of the semicircle.
- `TrendIndicator` is modelled, but the dashboard never renders it.
- The dashboard's `latestByName` is computed but never used by the page. It is modelled through `Latest`, and `Dashboard.TableAgreesWithLatestByName` and `Dashboard.TieBreakDiffers` compare it with the table.
- Formatting: `toFixed`, `round(z, 2)`, date labels and ISO strings. Dates are integer timestamps, and JavaScript `Date` parsing and time zones are not modelled.
- Floating point. Values are exact reals, so inputs exactly at a 10% margin can classify differently from IEEE doubles (for example 1.1 * 50 is slightly above 55 in doubles). NaN and Infinity are not modelled: an undefined trend percentage and an empty axis pool give `None` instead.
- The regression in `forecast_biomarker` (polyfit, average gap, future dates). Forecast values are an input. The endpoint's minimum of two readings belongs to the router and is not modelled.
- HTTP, authentication, the database, PDF text extraction and the model calls. Their outcomes are parameters: `serverOk`, `extraction`, the reading id and the report date.
- `float()` and `parseFloat` are the parameter `parse`. `Logs.HandleAdd` treats a value `parse` cannot read as refused by the server, because the log endpoint requires a number and JSON sends NaN as null.
- Dashboard.Fetched: the readings the dashboard and the forecast work on come from a case-insensitive substring match of the selected name (backend/app/routers/biomarkers.py:24, 59), not an exact one. So the latest-values table only shows names that contain the selection; `biomarkers[0]` and the chart's range can belong to another name (an older "Fasting Glucose" reading when "Glucose" is selected); and the forecast's history and warning mix every matching name. The filter is modelled for the dashboard; the forecast takes its readings as an input. SQL `LIKE` wildcards (`%`, `_`) inside the selection are not modelled.
- Medicines.IsActive: an end date is a calendar date (backend/app/models/models.py:70), and `new Date("YYYY-MM-DD")` is the first instant of that day. The model compares integer instants, so a course shows "Completed" already during its last day; the model's end instant is that first instant, not the end of the day.
- Lower-casing is ASCII only, while Python's `str.lower` and JavaScript's case rules cover all of Unicode.
- Reports.ReadingOf: a present name or unit is a string or null. A name or unit of any other JSON type (a number, a boolean, an array) is not modelled. The extraction prompt (backend/app/ai/openai_service.py:18-19) asks for strings, but nothing enforces that. A null name is modelled: it converts, and the commit then fails (backend/app/models/models.py:39), so the upload stores nothing.
- Reports.UploadReport: an extraction result that is not a list is not modelled; the items are always a sequence. The outer handler's effect (nothing stored) is modelled for a raising extractor and for a non-object item.
- Anomaly.DetectAnomalies: the order of the returned list is not stated, only its membership. The `z_score` field is left out of the record.
- LlmText.JsonFenceRoundTrip, LlmText.BareFenceRoundTrip, LlmText.UnclosedFence: stated only for bodies without backticks, since a backtick run inside the body would end the segment early.
- `json.loads` is not modelled. The unfenced text is the result.
- In these places the model follows the code's literal behaviour:
  - zero bounds are ignored by the status badge and by the forecast warning;
  - zero values are dropped from the axis pool;
  - on equal timestamps the first reading of a name is kept.

## Findings

| source | as written | input that shows it | evidently intended | confidence | as-written member | corrected member |
|---|---|---|---|---|---|---|
| backend/app/services/analytics_service.py:52 | the forecast payload's `historical` points carry only `date` and `value`, so `anomalySet.has(d.id)` in frontend/src/components/BiomarkerChart.jsx:27 never finds an id and no anomaly dot is drawn | reading id 7 of "glucose" flagged as an anomaly while "glucose" is selected | each historical point carries its reading's `id`, so flagged readings are marked | not executed | Dashboard.ChartAsWrittenNeverMarks | Dashboard.ChartWithIdsMarksFlagged |
