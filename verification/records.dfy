/** The stored records shared by the backend and the dashboard, and the
    truthiness test that both JavaScript and Python apply to a nullable number. */
module Records {
  import opened Wrappers

  /** One row of the `biomarkers` table (backend/app/models/models.py:34-44), as
      the API serves it. Times are integer timestamps; values are exact reals. */
  datatype Biomarker = Biomarker(
    id: int,
    reportId: int,
    userId: int,
    name: string,
    value: real,
    unit: Option<string>,
    refMin: Option<real>,
    refMax: Option<real>,
    recordedAt: int)

  /** One historical point of a forecast payload as the chart receives it. The
      `id` is optional because the payload may omit it. */
  datatype HistoryPoint = HistoryPoint(date: int, value: real, id: Option<int>)

  /** One forecast point: a date and an already computed value. */
  datatype ForecastPoint = ForecastPoint(date: int, value: real)

  /** A nullable number is truthy when it is present and not zero; this is the
      test `x && …`, `if x:` and `.filter(Boolean)` perform (NaN is not modelled). */
  predicate Truthy(x: Option<real>) {
    x.Some? && x.value != 0.0
  }
}
