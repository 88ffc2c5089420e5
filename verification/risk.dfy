/** Rule-based risk scores (backend/app/services/analytics_service.py:59-132):
    the latest reading of each name is looked up by case-insensitive substring
    search, each found marker earns points from a fixed threshold table, and a
    score is the capped sum of its factors' points. */
module Risk {
  import opened Wrappers
  import opened Records
  import opened Text
  import Latest

  datatype Factor = Factor(name: string, value: real, points: int)
  datatype RiskScore = RiskScore(score: int, factors: seq<Factor>)
  datatype RiskScores = RiskScores(diabetes: RiskScore, cardiovascular: RiskScore)

  /** `n.lower() in key.lower()`. */
  predicate Matches(entry: Biomarker, term: string) {
    Contains(Lower(entry.name), Lower(term))
  }

  /** Inner loop of `get_val`: the first entry of `latest` that matches. */
  function FirstMatch(latest: seq<Biomarker>, term: string): (k: int)
    ensures -1 <= k < |latest|
    ensures k >= 0 ==> Matches(latest[k], term) && forall j :: 0 <= j < k ==> !Matches(latest[j], term)
    ensures k < 0 ==> forall j :: 0 <= j < |latest| ==> !Matches(latest[j], term)
  {
    if |latest| == 0 then -1
    else if Matches(latest[0], term) then 0
    else var k := FirstMatch(latest[1..], term); if k < 0 then -1 else k + 1
  }

  /** Outer loop of `get_val`: the first term that matches some entry. */
  function FirstTerm(latest: seq<Biomarker>, terms: seq<string>): (t: int)
    ensures -1 <= t < |terms|
    ensures t >= 0 ==> FirstMatch(latest, terms[t]) >= 0 && forall u :: 0 <= u < t ==> FirstMatch(latest, terms[u]) < 0
    ensures t < 0 ==> forall u :: 0 <= u < |terms| ==> FirstMatch(latest, terms[u]) < 0
  {
    if |terms| == 0 then -1
    else if FirstMatch(latest, terms[0]) >= 0 then 0
    else var t := FirstTerm(latest, terms[1..]); if t < 0 then -1 else t + 1
  }

  /** `get_val(names)`: the terms are tried in order, and for each term the
      entries in order; the first hit's value is returned. */
  function GetVal(latest: seq<Biomarker>, terms: seq<string>): (r: Option<real>)
    ensures r.None? <==> forall t, j :: 0 <= t < |terms| && 0 <= j < |latest| ==> !Matches(latest[j], terms[t])
    ensures r.Some? ==> exists t :: (0 <= t < |terms| && FirstMatch(latest, terms[t]) >= 0
      && r.value == latest[FirstMatch(latest, terms[t])].value
      && forall u :: 0 <= u < t ==> FirstMatch(latest, terms[u]) < 0)
  {
    var t := FirstTerm(latest, terms);
    if t < 0 then None else Some(latest[FirstMatch(latest, terms[t])].value)
  }

  // Search terms for each marker, in the order `get_val` tries them
  // (analytics_service.py:75-76, 103-106).
  const HbA1cTerms: seq<string> := ["hba1c", "hemoglobin a1c"]
  const GlucoseTerms: seq<string> := ["fasting glucose", "glucose"]
  const LdlTerms: seq<string> := ["ldl"]
  const HdlTerms: seq<string> := ["hdl"]
  const TriglycerideTerms: seq<string> := ["triglyceride"]
  const SystolicTerms: seq<string> := ["systolic", "blood pressure"]

  // Threshold tables (analytics_service.py:80-125).

  function HbA1cPoints(v: real): int {
    if v >= 6.5 then 50 else if v >= 5.7 then 30 else 0
  }

  function GlucosePoints(v: real): int {
    if v >= 126.0 then 50 else if v >= 100.0 then 30 else 0
  }

  function LdlPoints(v: real): int {
    if v >= 160.0 then 30 else if v >= 130.0 then 20 else if v >= 100.0 then 10 else 0
  }

  function HdlPoints(v: real): int {
    if v < 40.0 then 20 else if v < 60.0 then 10 else 0
  }

  function TriglyceridePoints(v: real): int {
    if v >= 200.0 then 25 else if v >= 150.0 then 15 else 0
  }

  function SystolicPoints(v: real): int {
    if v >= 140.0 then 25 else if v >= 130.0 then 15 else 0
  }

  /** Higher readings never earn fewer points, except HDL, where lower
      readings never earn fewer; each table's top entry bounds it. */
  lemma PointsMonotone(v: real, w: real)
    requires v <= w
    ensures 0 <= HbA1cPoints(v) <= HbA1cPoints(w) <= 50
    ensures 0 <= GlucosePoints(v) <= GlucosePoints(w) <= 50
    ensures 0 <= LdlPoints(v) <= LdlPoints(w) <= 30
    ensures 20 >= HdlPoints(v) >= HdlPoints(w) >= 0
    ensures 0 <= TriglyceridePoints(v) <= TriglyceridePoints(w) <= 25
    ensures 0 <= SystolicPoints(v) <= SystolicPoints(w) <= 25
  {
  }

  /** The factor list entry for one marker, present only when it was found. */
  function FactorIf(name: string, v: Option<real>, points: real -> int): (r: seq<Factor>)
    ensures |r| == (if v.Some? then 1 else 0)
    ensures v.Some? ==> r[0] == Factor(name, v.value, points(v.value))
    ensures FactorNames(r) == (if v.Some? then [name] else [])
    ensures forall f :: f in r ==> v.Some? && f == Factor(name, v.value, points(v.value))
  {
    if v.Some? then [Factor(name, v.value, points(v.value))] else []
  }

  function SumPoints(fs: seq<Factor>): int {
    if |fs| == 0 then 0 else fs[0].points + SumPoints(fs[1..])
  }

  lemma {:induction false} SumPointsAppend(a: seq<Factor>, b: seq<Factor>)
    ensures SumPoints(a + b) == SumPoints(a) + SumPoints(b)
  {
    if |a| == 0 {
      assert a + b == b;
    } else {
      assert (a + b)[1..] == a[1..] + b;
      SumPointsAppend(a[1..], b);
    }
  }

  function Min(a: int, b: int): int {
    if a <= b then a else b
  }

  /** The diabetes score from the two looked-up values (lines 75-100). */
  function Diabetes(latest: seq<Biomarker>): (s: RiskScore)
    ensures forall f :: f in s.factors && f.name == "HbA1c" ==>
      GetVal(latest, HbA1cTerms).Some? && f.value == GetVal(latest, HbA1cTerms).value
    ensures s.score == SumPoints(s.factors) && 0 <= s.score <= 100
  {
    DiabetesScore(GetVal(latest, HbA1cTerms), GetVal(latest, GlucoseTerms))
  }

  /** A diabetes factor is listed exactly when some latest reading matches
      its terms, HbA1c before fasting glucose. */
  lemma DiabetesNamesFound(latest: seq<Biomarker>)
    ensures FactorNames(Diabetes(latest).factors)
      == Present(["HbA1c", "Fasting Glucose"], [!Misses(latest, HbA1cTerms), !Misses(latest, GlucoseTerms)])
  {
    DiabetesFound(latest, HbA1cTerms, GlucoseTerms);
  }

  /** The diabetes factor names follow which lookups found a reading. */
  lemma DiabetesFound(latest: seq<Biomarker>, t1: seq<string>, t2: seq<string>)
    ensures FactorNames(DiabetesScore(GetVal(latest, t1), GetVal(latest, t2)).factors)
      == Present(["HbA1c", "Fasting Glucose"], [!Misses(latest, t1), !Misses(latest, t2)])
  {
    Found(latest, t1);
    Found(latest, t2);
  }

  /** A lookup finds a value exactly when some entry matches some term. */
  lemma Found(latest: seq<Biomarker>, terms: seq<string>)
    ensures GetVal(latest, terms).Some? == !Misses(latest, terms)
  {
  }

  /** The cardiovascular score from the four looked-up values (lines 103-127). */
  function Cardiovascular(latest: seq<Biomarker>): (s: RiskScore)
    ensures forall f :: f in s.factors && f.name == "HDL" ==>
      GetVal(latest, HdlTerms).Some? && f.value == GetVal(latest, HdlTerms).value
    ensures s.score == SumPoints(s.factors) && 0 <= s.score <= 100
  {
    CardioScore(GetVal(latest, LdlTerms), GetVal(latest, HdlTerms),
      GetVal(latest, TriglycerideTerms), GetVal(latest, SystolicTerms))
  }

  /** A cardiovascular factor is listed exactly when some latest reading
      matches its terms, in the order LDL, HDL, triglycerides, systolic. */
  lemma CardiovascularFound(latest: seq<Biomarker>)
    ensures FactorNames(Cardiovascular(latest).factors) == Present(["LDL", "HDL", "Triglycerides", "BP Systolic"],
      [!Misses(latest, LdlTerms), !Misses(latest, HdlTerms), !Misses(latest, TriglycerideTerms), !Misses(latest, SystolicTerms)])
  {
    CardioFound(latest, LdlTerms, HdlTerms, TriglycerideTerms, SystolicTerms);
  }

  lemma CardioFound(latest: seq<Biomarker>, t1: seq<string>, t2: seq<string>, t3: seq<string>, t4: seq<string>)
    ensures FactorNames(CardioScore(GetVal(latest, t1), GetVal(latest, t2), GetVal(latest, t3), GetVal(latest, t4)).factors)
      == Present(["LDL", "HDL", "Triglycerides", "BP Systolic"],
           [!Misses(latest, t1), !Misses(latest, t2), !Misses(latest, t3), !Misses(latest, t4)])
  {
    Found(latest, t1);
    Found(latest, t2);
    Found(latest, t3);
    Found(latest, t4);
  }

  /** Both scores lie in [0, 100]. */
  function ComputeRiskScores(bs: seq<Biomarker>): (r: RiskScores)
    ensures 0 <= r.diabetes.score <= 100 && 0 <= r.cardiovascular.score <= 100
  {
    ScoresOf(Latest.LatestByName(bs))
  }

  /** Both scores computed from one lookup table. */
  function ScoresOf(latest: seq<Biomarker>): (r: RiskScores)
    ensures 0 <= r.diabetes.score <= 100
    ensures 0 <= r.cardiovascular.score <= 100
  {
    RiskScores(Diabetes(latest), Cardiovascular(latest))
  }

  /** An HbA1c factor is reported exactly when the latest reading of some
      name matches "hba1c" or "hemoglobin a1c". */
  lemma HbA1cReported(bs: seq<Biomarker>)
    ensures "HbA1c" in FactorNames(ComputeRiskScores(bs).diabetes.factors)
      <==> !Misses(Latest.LatestByName(bs), HbA1cTerms)
  {
    var latest := Latest.LatestByName(bs);
    DiabetesNamesFound(latest);
    HbA1cNamed(Diabetes(latest), !Misses(latest, HbA1cTerms), !Misses(latest, GlucoseTerms));
  }

  /** "HbA1c" is among the diabetes factor names exactly when HbA1c was found. */
  lemma HbA1cNamed(d: RiskScore, a: bool, b: bool)
    requires FactorNames(d.factors) == Present(["HbA1c", "Fasting Glucose"], [a, b])
    ensures "HbA1c" in FactorNames(d.factors) <==> a
  {
    PresentCons(["HbA1c", "Fasting Glucose"], [a, b]);
    PresentCons(["Fasting Glucose"], [b]);
    assert "HbA1c" != "Fasting Glucose" by { assert "HbA1c"[0] != "Fasting Glucose"[0]; }
  }

  /** The names of a factor list, in order. */
  function FactorNames(fs: seq<Factor>): (ns: seq<string>)
    ensures |ns| == |fs|
  {
    if |fs| == 0 then [] else [fs[0].name] + FactorNames(fs[1..])
  }

  /** Keeps the names whose marker was found, preserving their order. */
  function Present(names: seq<string>, found: seq<bool>): seq<string>
    requires |names| == |found|
  {
    if |names| == 0 then []
    else (if found[0] then [names[0]] else []) + Present(names[1..], found[1..])
  }

  lemma PresentCons(names: seq<string>, found: seq<bool>)
    requires |names| == |found| > 0
    ensures Present(names, found) == (if found[0] then [names[0]] else []) + Present(names[1..], found[1..])
  {
  }

  lemma {:induction false} FactorNamesAppend(a: seq<Factor>, b: seq<Factor>)
    ensures FactorNames(a + b) == FactorNames(a) + FactorNames(b)
  {
    if |a| == 0 {
      assert a + b == b;
    } else {
      assert (a + b)[1..] == a[1..] + b;
      FactorNamesAppend(a[1..], b);
    }
  }

  /** Diabetes score: the factors are HbA1c then fasting glucose, each present
      exactly when found and carrying its table's points; the score is the sum
      of their points and lies in [0, 100], so the cap at 100 never changes it. */
  function DiabetesScore(hba1c: Option<real>, glucose: Option<real>): (s: RiskScore)
    ensures FactorNames(s.factors) == Present(["HbA1c", "Fasting Glucose"], [hba1c.Some?, glucose.Some?])
    ensures hba1c.Some? ==> |s.factors| > 0 && s.factors[0] == Factor("HbA1c", hba1c.value, HbA1cPoints(hba1c.value))
    ensures glucose.Some? ==> |s.factors| > 0 && s.factors[|s.factors| - 1] == Factor("Fasting Glucose", glucose.value, GlucosePoints(glucose.value))
    ensures forall f :: f in s.factors && f.name == "HbA1c" ==> hba1c.Some? && f == Factor("HbA1c", hba1c.value, HbA1cPoints(hba1c.value))
    ensures s.score == SumPoints(s.factors)
    ensures 0 <= s.score <= 100
  {
    var a := FactorIf("HbA1c", hba1c, HbA1cPoints);
    var b := FactorIf("Fasting Glucose", glucose, GlucosePoints);
    SumPointsAppend(a, b);
    FactorNamesAppend(a, b);
    assert SumPoints(a) == (if hba1c.Some? then HbA1cPoints(hba1c.value) else 0);
    assert SumPoints(b) == (if glucose.Some? then GlucosePoints(glucose.value) else 0);
    PresentCons(["HbA1c", "Fasting Glucose"], [hba1c.Some?, glucose.Some?]);
    PresentCons(["Fasting Glucose"], [glucose.Some?]);
    assert "HbA1c" != "Fasting Glucose" by { assert "HbA1c"[0] != "Fasting Glucose"[0]; }
    RiskScore(Min(SumPoints(a + b), 100), a + b)
  }

  /** Cardiovascular score: the factors are LDL, HDL, triglycerides and systolic
      pressure in that order, each present exactly when found; the score is the
      sum of their points (at most 30 + 20 + 25 + 25 = 100), so the cap never
      changes it. */
  function CardioScore(ldl: Option<real>, hdl: Option<real>, tg: Option<real>, bp: Option<real>): (s: RiskScore)
    ensures FactorNames(s.factors)
      == Present(["LDL", "HDL", "Triglycerides", "BP Systolic"], [ldl.Some?, hdl.Some?, tg.Some?, bp.Some?])
    ensures ldl.Some? ==> |s.factors| > 0 && s.factors[0] == Factor("LDL", ldl.value, LdlPoints(ldl.value))
    ensures bp.Some? ==> |s.factors| > 0 && s.factors[|s.factors| - 1] == Factor("BP Systolic", bp.value, SystolicPoints(bp.value))
    ensures forall f :: f in s.factors && f.name == "HDL" ==> hdl.Some? && f == Factor("HDL", hdl.value, HdlPoints(hdl.value))
    ensures forall f :: f in s.factors && f.name == "Triglycerides" ==>
      tg.Some? && f == Factor("Triglycerides", tg.value, TriglyceridePoints(tg.value))
    ensures s.score == SumPoints(s.factors)
    ensures 0 <= s.score <= 100
  {
    var fs := CardioFactors(ldl, hdl, tg, bp);
    CardioNames(ldl, hdl, tg, bp);
    CardioSum(ldl, hdl, tg, bp);
    CardioPins(ldl, hdl, tg, bp);
    RiskScore(Min(SumPoints(fs), 100), fs)
  }

  /** The cardiovascular factors in the order the source appends them. */
  function CardioFactors(ldl: Option<real>, hdl: Option<real>, tg: Option<real>, bp: Option<real>): (fs: seq<Factor>)
    ensures ldl.Some? ==> |fs| > 0 && fs[0] == Factor("LDL", ldl.value, LdlPoints(ldl.value))
    ensures bp.Some? ==> |fs| > 0 && fs[|fs| - 1] == Factor("BP Systolic", bp.value, SystolicPoints(bp.value))
  {
    FactorIf("LDL", ldl, LdlPoints) + FactorIf("HDL", hdl, HdlPoints)
      + FactorIf("Triglycerides", tg, TriglyceridePoints) + FactorIf("BP Systolic", bp, SystolicPoints)
  }

  lemma CardioNames(ldl: Option<real>, hdl: Option<real>, tg: Option<real>, bp: Option<real>)
    ensures FactorNames(CardioFactors(ldl, hdl, tg, bp))
      == Present(["LDL", "HDL", "Triglycerides", "BP Systolic"], [ldl.Some?, hdl.Some?, tg.Some?, bp.Some?])
  {
    var a := FactorIf("LDL", ldl, LdlPoints);
    var b := FactorIf("HDL", hdl, HdlPoints);
    var c := FactorIf("Triglycerides", tg, TriglyceridePoints);
    var d := FactorIf("BP Systolic", bp, SystolicPoints);
    FourParts(a, b, c, d);
    PresentFour(["LDL", "HDL", "Triglycerides", "BP Systolic"], [ldl.Some?, hdl.Some?, tg.Some?, bp.Some?]);
  }

  /** Every factor named "HDL" or "Triglycerides" carries its own reading and points. */
  lemma CardioPins(ldl: Option<real>, hdl: Option<real>, tg: Option<real>, bp: Option<real>)
    ensures forall f :: f in CardioFactors(ldl, hdl, tg, bp) && f.name == "HDL" ==>
      hdl.Some? && f == Factor("HDL", hdl.value, HdlPoints(hdl.value))
    ensures forall f :: f in CardioFactors(ldl, hdl, tg, bp) && f.name == "Triglycerides" ==>
      tg.Some? && f == Factor("Triglycerides", tg.value, TriglyceridePoints(tg.value))
  {
    var a := FactorIf("LDL", ldl, LdlPoints);
    var b := FactorIf("HDL", hdl, HdlPoints);
    var c := FactorIf("Triglycerides", tg, TriglyceridePoints);
    var d := FactorIf("BP Systolic", bp, SystolicPoints);
    assert "LDL" != "HDL" && "LDL" != "Triglycerides" && "BP Systolic" != "HDL" && "BP Systolic" != "Triglycerides" && "HDL" != "Triglycerides" by {
      assert "LDL"[0] != "HDL"[0] && "LDL"[0] != "Triglycerides"[0] && "BP Systolic"[0] != "HDL"[0];
      assert "BP Systolic"[0] != "Triglycerides"[0] && "HDL"[0] != "Triglycerides"[0];
    }
    forall f | f in a + b + c + d
      ensures f in a || f in b || f in c || f in d
    {
    }
  }

  lemma CardioSum(ldl: Option<real>, hdl: Option<real>, tg: Option<real>, bp: Option<real>)
    ensures 0 <= SumPoints(CardioFactors(ldl, hdl, tg, bp)) <= 100
  {
    var a := FactorIf("LDL", ldl, LdlPoints);
    var b := FactorIf("HDL", hdl, HdlPoints);
    var c := FactorIf("Triglycerides", tg, TriglyceridePoints);
    var d := FactorIf("BP Systolic", bp, SystolicPoints);
    FourParts(a, b, c, d);
    FactorIfBound("LDL", ldl, LdlPoints, 30);
    FactorIfBound("HDL", hdl, HdlPoints, 20);
    FactorIfBound("Triglycerides", tg, TriglyceridePoints, 25);
    FactorIfBound("BP Systolic", bp, SystolicPoints, 25);
  }

  lemma FourParts(a: seq<Factor>, b: seq<Factor>, c: seq<Factor>, d: seq<Factor>)
    ensures SumPoints(a + b + c + d) == SumPoints(a) + SumPoints(b) + SumPoints(c) + SumPoints(d)
    ensures FactorNames(a + b + c + d) == FactorNames(a) + FactorNames(b) + FactorNames(c) + FactorNames(d)
  {
    SumPointsAppend(a, b);
    SumPointsAppend(a + b, c);
    SumPointsAppend(a + b + c, d);
    FactorNamesAppend(a, b);
    FactorNamesAppend(a + b, c);
    FactorNamesAppend(a + b + c, d);
  }

  lemma FactorIfBound(name: string, v: Option<real>, points: real -> int, hi: int)
    requires forall x :: 0 <= points(x) <= hi
    ensures 0 <= SumPoints(FactorIf(name, v, points)) <= hi
  {
    assert 0 <= points(0.0) <= hi;
    if v.Some? {
      assert FactorIf(name, v, points)[1..] == [];
      assert 0 <= points(v.value) <= hi;
    }
  }

  lemma PresentFour(names: seq<string>, found: seq<bool>)
    requires |names| == |found| == 4
    ensures Present(names, found)
      == (if found[0] then [names[0]] else []) + (if found[1] then [names[1]] else [])
       + (if found[2] then [names[2]] else []) + (if found[3] then [names[3]] else [])
  {
    PresentCons(names, found);
    PresentCons(names[1..], found[1..]);
    PresentCons(names[2..], found[2..]);
    PresentCons(names[3..], found[3..]);
    assert names[1..][1..] == names[2..] && found[1..][1..] == found[2..];
    assert names[2..][1..] == names[3..] && found[2..][1..] == found[3..];
    assert names[3..][1..] == [] && found[3..][1..] == [];
  }

  /** Threshold boundaries are inclusive where the source writes `>=`. */
  lemma PointsBoundaries()
    ensures HbA1cPoints(6.5) == 50 && HbA1cPoints(5.7) == 30 && HbA1cPoints(5.6) == 0
    ensures GlucosePoints(126.0) == 50 && GlucosePoints(100.0) == 30 && GlucosePoints(99.0) == 0
    ensures LdlPoints(160.0) == 30 && LdlPoints(130.0) == 20 && LdlPoints(100.0) == 10 && LdlPoints(99.0) == 0
    ensures HdlPoints(39.0) == 20 && HdlPoints(40.0) == 10 && HdlPoints(60.0) == 0
    ensures TriglyceridePoints(200.0) == 25 && TriglyceridePoints(150.0) == 15 && TriglyceridePoints(149.0) == 0
    ensures SystolicPoints(140.0) == 25 && SystolicPoints(130.0) == 15 && SystolicPoints(129.0) == 0
  {
  }

  /** The scores depend only on the latest reading of each name. */
  lemma ScoresUseLatestOnly(bs: seq<Biomarker>)
    ensures ComputeRiskScores(Latest.LatestByName(bs)) == ComputeRiskScores(bs)
  {
    Latest.LatestByNameIdempotent(bs);
  }

  /** No entry matches any of `terms`. */
  ghost predicate Misses(latest: seq<Biomarker>, terms: seq<string>) {
    forall t, j :: 0 <= t < |terms| && 0 <= j < |latest| ==> !Matches(latest[j], terms[t])
  }

  /** Without any matching reading both scores are 0 with no factors. */
  lemma NoMatchesNoRisk(latest: seq<Biomarker>)
    requires Misses(latest, HbA1cTerms) && Misses(latest, GlucoseTerms)
    requires Misses(latest, LdlTerms) && Misses(latest, HdlTerms) && Misses(latest, TriglycerideTerms)
    requires Misses(latest, SystolicTerms)
    ensures Diabetes(latest) == RiskScore(0, [])
    ensures Cardiovascular(latest) == RiskScore(0, [])
  {
    var d := Diabetes(latest);
    var c := Cardiovascular(latest);
    assert |FactorNames(d.factors)| == 0;
    assert |FactorNames(c.factors)| == 0;
  }
}
