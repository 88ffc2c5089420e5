/** The medicines page (frontend/src/pages/MedicinesPage.jsx): whether a
    medicine is still active, how the timeline entry shows it, and the add
    form's guard and payload. */
module Medicines {
  import opened Wrappers

  /** A stored medicine; dates are integer timestamps (the moment the date
      string denotes, which for a date-only string is the first instant of
      that day), and `now` is passed in where the page reads the clock. */
  datatype Medicine = Medicine(id: int, drugName: string, dosage: Option<string>, startDate: int, endDate: Option<int>, notes: Option<string>)

  /** `isActive`: no end date, or an end date not before now. */
  predicate IsActive(m: Medicine, now: int) {
    m.endDate.None? || m.endDate.value >= now
  }

  /** Without an end date a medicine is active at every time; with one it is
      active up to and including the instant its end date denotes, and
      inactive from then on. */
  lemma ActiveOverTime(m: Medicine, now: int, later: int)
    requires now <= later
    ensures m.endDate.None? ==> IsActive(m, now) && IsActive(m, later)
    ensures m.endDate.Some? ==> IsActive(m, m.endDate.value) && !IsActive(m, m.endDate.value + 1)
    ensures !IsActive(m, now) ==> !IsActive(m, later)
  {
  }

  /** How one timeline entry looks (lines 93-107). */
  datatype EntryView = EntryView(dotClass: string, iconClass: string, pillClass: string, status: string)

  function View(m: Medicine, now: int): (v: EntryView)
    ensures v.status == "Active" <==> IsActive(m, now)
    ensures v.status == "Completed" <==> !IsActive(m, now)
  {
    var active := IsActive(m, now);
    EntryView(
      if active then "border-emerald-400 bg-emerald-400" else "border-slate-600 bg-slate-800",
      if active then "text-emerald-400" else "text-slate-500",
      if active then "risk-green" else "text-slate-400 bg-slate-800",
      if active then "Active" else "Completed")
  }

  /** Dot, icon, pill and text all tell the same story: two entries look the
      same exactly when both are active or both are not. */
  lemma ViewAgrees(m: Medicine, n: Medicine, now: int)
    ensures View(m, now) == View(n, now) <==> (IsActive(m, now) <==> IsActive(n, now))
    ensures View(m, now).pillClass == "risk-green" <==> View(m, now).dotClass == "border-emerald-400 bg-emerald-400"
  {
  }

  datatype Form = Form(drugName: string, dosage: string, startDate: string, endDate: string, notes: string)

  const EmptyForm := Form("", "", "", "", "")

  /** The body of `POST /medicines/`: the date strings go out unparsed. */
  datatype Payload = Payload(drugName: string, dosage: Option<string>, startDate: string, endDate: Option<string>, notes: Option<string>)

  /** `x || null` on a text field. */
  function NullIfEmpty(s: string): (r: Option<string>)
    ensures r.None? <==> s == ""
    ensures r.Some? ==> r.value == s
  {
    if s == "" then None else Some(s)
  }

  datatype AddOutcome = AddOutcome(sent: Option<Payload>, form: Form)

  /** `handleAdd`; `serverOk` says whether the request went through. */
  function HandleAdd(form: Form, serverOk: bool): (o: AddOutcome)
    ensures o.sent.None? <==> form.drugName == "" || form.startDate == ""
    ensures o.sent.Some? ==> o.sent.value == Payload(form.drugName, NullIfEmpty(form.dosage), form.startDate, NullIfEmpty(form.endDate), NullIfEmpty(form.notes))
    ensures o.form == (if o.sent.Some? && serverOk then EmptyForm else form)
  {
    if form.drugName == "" || form.startDate == "" then AddOutcome(None, form)
    else
      var p := Payload(form.drugName, NullIfEmpty(form.dosage), form.startDate, NullIfEmpty(form.endDate), NullIfEmpty(form.notes));
      AddOutcome(Some(p), if serverOk then EmptyForm else form)
  }

  /** The guard checks presence only: an end date before the start date is
      sent as it is. */
  lemma NoDateOrderCheck()
    ensures HandleAdd(Form("Metformin", "", "2024-05-01", "2024-01-01", ""), true).sent
      == Some(Payload("Metformin", None, "2024-05-01", Some("2024-01-01"), None))
  {
  }

  /** After a successful add the form is empty, so another add sends nothing. */
  lemma AddAgainIsNoOp(form: Form, ok1: bool, ok2: bool)
    requires HandleAdd(form, ok1).sent.Some? && ok1
    ensures HandleAdd(HandleAdd(form, ok1).form, ok2) == AddOutcome(None, EmptyForm)
  {
  }
}
