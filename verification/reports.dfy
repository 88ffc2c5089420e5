/** Report upload (backend/app/routers/reports.py:19-68): the file-name check,
    turning each item the extractor returned into a stored reading or skipping
    it, and the count the endpoint reports. Saving the file, reading the PDF
    and calling the extractor are not part of this model: the extractor's
    outcome is an input, and `float()` on a string is the `parse` parameter. */
module Reports {
  import opened Wrappers
  import opened Text

  /** A JSON value as the extractor may place it in an item field. */
  datatype Field = FNull | FText(s: string) | FNumber(x: real) | FBool(b: bool) | FCompound

  /** One element of the extractor's array: an object, whose fields are
      present (`Some`) or missing (`None`), or anything else. A present name
      or unit is a string or JSON null (`Some(None)`). */
  datatype Item =
    | Object(name: Option<Option<string>>, value: Option<Field>, unit: Option<Option<string>>, refMin: Option<Field>, refMax: Option<Field>)
    | NonObject

  /** A reading as it is added to the session; the database assigns its id.
      A null name (`None`) is accepted here and rejected at commit, because
      the name column is not nullable (backend/app/models/models.py:39). */
  datatype NewReading = NewReading(reportId: int, userId: int, name: Option<string>, value: real, unit: Option<string>,
    refMin: Option<real>, refMax: Option<real>, recordedAt: int)

  /** Python's `float(x)`: `None` where it raises ValueError or TypeError. */
  function ToFloat(f: Field, parse: string -> Option<real>): (r: Option<real>)
    ensures f.FNumber? ==> r == Some(f.x)
    ensures f.FBool? ==> r == Some(if f.b then 1.0 else 0.0)
    ensures (f.FNull? || f.FCompound?) ==> r.None?
  {
    match f
    case FNull => None
    case FText(s) => parse(s)
    case FNumber(x) => Some(x)
    case FBool(b) => Some(if b then 1.0 else 0.0)
    case FCompound => None
  }

  /** The result of converting an optional bound: absent, converted, or a
      conversion error that skips the item. */
  datatype Bound = NoBound | HasBound(v: real) | BadBound

  /** `float(b[k]) if b.get(k) not in [None, ""] else None`. */
  function BoundOf(f: Option<Field>, parse: string -> Option<real>): (r: Bound)
    ensures r == NoBound <==> f.None? || f == Some(FNull) || f == Some(FText(""))
    ensures f == Some(FNumber(0.0)) ==> r == HasBound(0.0)
    ensures r.HasBound? ==> f.Some? && Some(r.v) == ToFloat(f.value, parse)
    ensures r == BadBound <==> f.Some? && f.value != FNull && f.value != FText("") && ToFloat(f.value, parse).None?
  {
    if f.None? || f.value == FNull || f.value == FText("") then NoBound
    else match ToFloat(f.value, parse)
      case None => BadBound
      case Some(v) => HasBound(v)
  }

  /** The reading built from one object item, or `None` when a conversion
      raises and the item is skipped. */
  function ReadingOf(item: Item, parse: string -> Option<real>, reportId: int, userId: int, reportDate: int): (r: Option<NewReading>)
    requires item.Object?
    ensures r.Some? ==>
      && r.value.reportId == reportId && r.value.userId == userId && r.value.recordedAt == reportDate
      && r.value.name == item.name.GetOr(Some("Unknown"))
      && (item.value.None? ==> r.value.value == 0.0)
      && (item.unit.None? ==> r.value.unit == Some(""))
    ensures r.Some? && item.value.Some? ==> Some(r.value.value) == ToFloat(item.value.value, parse)
    ensures r.Some? && item.unit.Some? ==> r.value.unit == item.unit.value
    ensures r.Some? ==> r.value.refMin == (if BoundOf(item.refMin, parse).HasBound? then Some(BoundOf(item.refMin, parse).v) else None)
    ensures r.Some? ==> r.value.refMax == (if BoundOf(item.refMax, parse).HasBound? then Some(BoundOf(item.refMax, parse).v) else None)
    ensures item.value.Some? && ToFloat(item.value.value, parse).None? ==> r.None?
    ensures BoundOf(item.refMin, parse) == BadBound || BoundOf(item.refMax, parse) == BadBound ==> r.None?
    ensures r.None? ==>
      || (item.value.Some? && ToFloat(item.value.value, parse).None?)
      || BoundOf(item.refMin, parse) == BadBound
      || BoundOf(item.refMax, parse) == BadBound
  {
    var value := if item.value.None? then Some(0.0) else ToFloat(item.value.value, parse);
    var lo := BoundOf(item.refMin, parse);
    var hi := BoundOf(item.refMax, parse);
    if value.None? || lo == BadBound || hi == BadBound then None
    else
      Some(NewReading(reportId, userId, item.name.GetOr(Some("Unknown")), value.value,
        item.unit.GetOr(Some("")),
        if lo.HasBound? then Some(lo.v) else None,
        if hi.HasBound? then Some(hi.v) else None,
        reportDate))
  }

  predicate AllObjects(items: seq<Item>) {
    forall i :: 0 <= i < |items| ==> items[i].Object?
  }

  /** The inner loop: skipped items do not stop the rest. */
  function StoreAll(items: seq<Item>, parse: string -> Option<real>, reportId: int, userId: int, reportDate: int): (r: seq<NewReading>)
    requires AllObjects(items)
    ensures |r| <= |items|
    ensures forall k :: 0 <= k < |r| ==> r[k].reportId == reportId && r[k].userId == userId && r[k].recordedAt == reportDate
  {
    if |items| == 0 then []
    else
      var head := ReadingOf(items[0], parse, reportId, userId, reportDate);
      (if head.Some? then [head.value] else []) + StoreAll(items[1..], parse, reportId, userId, reportDate)
  }

  /** Items are handled one at a time: the readings of a concatenation are
      the concatenation of the readings. */
  lemma {:induction false} StoreAllAppend(a: seq<Item>, b: seq<Item>, parse: string -> Option<real>, reportId: int, userId: int, reportDate: int)
    requires AllObjects(a) && AllObjects(b)
    ensures AllObjects(a + b)
    ensures StoreAll(a + b, parse, reportId, userId, reportDate)
      == StoreAll(a, parse, reportId, userId, reportDate) + StoreAll(b, parse, reportId, userId, reportDate)
  {
    if |a| == 0 {
      assert a + b == b;
    } else {
      var ab := a + b;
      assert ab[0] == a[0];
      assert ab[1..] == a[1..] + b;
      StoreAllAppend(a[1..], b, parse, reportId, userId, reportDate);
      var head := ReadingOf(a[0], parse, reportId, userId, reportDate);
      var h := if head.Some? then [head.value] else [];
      assert StoreAll(ab, parse, reportId, userId, reportDate) == h + StoreAll(a[1..] + b, parse, reportId, userId, reportDate);
      assert StoreAll(a, parse, reportId, userId, reportDate) == h + StoreAll(a[1..], parse, reportId, userId, reportDate);
    }
  }

  /** A single item is stored exactly when it converts. */
  lemma StoreOne(item: Item, parse: string -> Option<real>, reportId: int, userId: int, reportDate: int)
    requires item.Object?
    ensures var r := ReadingOf(item, parse, reportId, userId, reportDate);
      StoreAll([item], parse, reportId, userId, reportDate) == (if r.Some? then [r.value] else [])
  {
    assert [item][1..] == [];
  }

  /** What the endpoint does. */
  datatype Upload =
    | Rejected(status: int)
    | Uploaded(reportId: int, stored: seq<NewReading>, extracted: nat)

  /** `file.filename.lower().endswith(".pdf")`. */
  predicate IsPdfName(filename: string) {
    EndsWith(Lower(filename), ".pdf")
  }

  /** Some reading in the session has a null name, so the commit raises. */
  predicate CommitFails(rs: seq<NewReading>) {
    exists k :: 0 <= k < |rs| && rs[k].name.None?
  }

  /** `upload_report`. `extraction` is `None` when the extractor raised, so
      that `biomarkers_data` was never assigned. An item that is not an object
      raises outside the inner handler, and a null name makes the commit
      raise; the outer handler swallows either, so nothing is stored. */
  function UploadReport(filename: string, extraction: Option<seq<Item>>, parse: string -> Option<real>,
                        reportId: int, userId: int, reportDate: int): (u: Upload)
    ensures u.Rejected? <==> !IsPdfName(filename)
    ensures u.Rejected? ==> u.status == 400
    ensures u.Uploaded? ==> u.reportId == reportId
    ensures u.Uploaded? ==> u.extracted == (if extraction.None? then 0 else |extraction.value|)
    ensures u.Uploaded? ==> |u.stored| <= u.extracted
    ensures u.Uploaded? && (extraction.None? || !AllObjects(extraction.value)) ==> u.stored == []
    ensures u.Uploaded? && extraction.Some? && AllObjects(extraction.value) ==>
      var rs := StoreAll(extraction.value, parse, reportId, userId, reportDate);
      u.stored == (if CommitFails(rs) then [] else rs)
    ensures u.Uploaded? ==> forall k :: 0 <= k < |u.stored| ==>
      && u.stored[k].reportId == reportId && u.stored[k].userId == userId && u.stored[k].recordedAt == reportDate
      && u.stored[k].name.Some?
  {
    if !IsPdfName(filename) then Rejected(400)
    else match extraction
      case None => Uploaded(reportId, [], 0)
      case Some(items) =>
        if AllObjects(items) then
          var rs := StoreAll(items, parse, reportId, userId, reportDate);
          Uploaded(reportId, if CommitFails(rs) then [] else rs, |items|)
        else Uploaded(reportId, [], |items|)
  }

  /** A single object item is stored exactly when it converts and its name
      is not null. */
  lemma UploadSingleItem(filename: string, x: Item, parse: string -> Option<real>, reportId: int, userId: int, reportDate: int)
    requires IsPdfName(filename) && x.Object?
    ensures var r := ReadingOf(x, parse, reportId, userId, reportDate);
      UploadReport(filename, Some([x]), parse, reportId, userId, reportDate)
        == Uploaded(reportId, if r.Some? && r.value.name.Some? then [r.value] else [], 1)
  {
    StoreOne(x, parse, reportId, userId, reportDate);
  }

  /** One converting item with a null name discards the whole upload, the
      items before and after it included. */
  lemma NullNameDiscardsAll(filename: string, a: seq<Item>, x: Item, b: seq<Item>, parse: string -> Option<real>,
                            reportId: int, userId: int, reportDate: int)
    requires IsPdfName(filename) && AllObjects(a) && AllObjects(b) && x.Object?
    requires var r := ReadingOf(x, parse, reportId, userId, reportDate); r.Some? && r.value.name.None?
    ensures AllObjects(a + [x] + b)
    ensures UploadReport(filename, Some(a + [x] + b), parse, reportId, userId, reportDate)
      == Uploaded(reportId, [], |a| + 1 + |b|)
  {
    var sa := StoreAll(a, parse, reportId, userId, reportDate);
    StoreOne(x, parse, reportId, userId, reportDate);
    StoreAllAppend(a, [x], parse, reportId, userId, reportDate);
    StoreAllAppend(a + [x], b, parse, reportId, userId, reportDate);
    var rs := StoreAll(a + [x] + b, parse, reportId, userId, reportDate);
    assert rs[|sa|].name.None?;
  }

  /** Lower-casing a name lower-cases its extension in place. */
  lemma LowerSuffix(stem: string, ext: string)
    ensures EndsWith(Lower(stem + ext), Lower(ext))
  {
    var s := stem + ext;
    var l := Lower(s);
    var le := Lower(ext);
    var tail := l[|stem|..];
    assert |tail| == |le|;
    forall i | 0 <= i < |ext| ensures tail[i] == le[i] {
      assert tail[i] == l[|stem| + i];
      assert s[|stem| + i] == ext[i];
    }
    assert tail == le;
  }

  /** The file-name check ignores ASCII case and looks only at the end of the
      name: a trailing ".txt" fails it whatever comes before. */
  lemma PdfNameCases(stem: string)
    ensures IsPdfName(stem + ".pdf") && IsPdfName(stem + ".PDF") && IsPdfName(stem + ".Pdf")
    ensures !IsPdfName(stem + ".txt")
    ensures !IsPdfName("pdf")
  {
    LowerSuffix(stem, ".pdf");
    LowerSuffix(stem, ".PDF");
    LowerSuffix(stem, ".Pdf");
    var l := Lower(stem + ".txt");
    assert (stem + ".txt")[|stem| + 3] == 't';
    assert l[|l| - 1] == 't';
  }

  /** The field conversions the extractor's format leads to: a missing name
      or value gets its default, an empty or null value skips the item, an
      empty or null bound is absent, and a numeric zero bound is kept. */
  lemma ConversionCases(parse: string -> Option<real>, r: int, u: int, d: int)
    requires parse("") == None
    ensures ReadingOf(Object(None, None, None, None, None), parse, r, u, d)
      == Some(NewReading(r, u, Some("Unknown"), 0.0, Some(""), None, None, d))
    ensures ReadingOf(Object(Some(Some("ldl")), Some(FText("")), None, None, None), parse, r, u, d).None?
    ensures ReadingOf(Object(Some(Some("ldl")), Some(FNull), None, None, None), parse, r, u, d).None?
    ensures ReadingOf(Object(Some(Some("ldl")), Some(FNumber(1.0)), Some(None), Some(FText("")), Some(FNull)), parse, r, u, d)
      == Some(NewReading(r, u, Some("ldl"), 1.0, None, None, None, d))
    ensures ReadingOf(Object(Some(Some("ldl")), Some(FNumber(1.0)), None, Some(FNumber(0.0)), None), parse, r, u, d).value.refMin
      == Some(0.0)
    ensures ReadingOf(Object(Some(None), Some(FNumber(1.0)), None, None, None), parse, r, u, d).value.name.None?
  {
  }
}
