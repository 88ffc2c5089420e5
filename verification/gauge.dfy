/** The semicircular risk gauge (frontend/src/components/GaugeMeter.jsx:1-48):
    the score is clamped to [0, 100], turned into a needle angle and an arc
    fraction, and one three-way tier drives the stroke colour, the number's
    text class, the badge class and the label. */
module Gauge {

  datatype Tier = Low | Moderate | High

  /** What the gauge draws for one score. `arcFraction` is the share of the
      semicircle's length (pi * r) painted in colour. */
  datatype GaugeView = GaugeView(
    shown: real,
    angle: real,
    arcFraction: real,
    tier: Tier,
    stroke: string,
    textClass: string,
    badgeClass: string,
    riskLabel: string)

  /** `Math.max(0, Math.min(100, score))`. */
  function Clamp(score: real): (c: real)
    ensures 0.0 <= c <= 100.0
    ensures 0.0 <= score <= 100.0 ==> c == score
    ensures score < 0.0 ==> c == 0.0
    ensures score > 100.0 ==> c == 100.0
  {
    var upper := if 100.0 <= score then 100.0 else score;
    if 0.0 >= upper then 0.0 else upper
  }

  /** Clamping twice is clamping once. */
  lemma ClampIdempotent(score: real)
    ensures Clamp(Clamp(score)) == Clamp(score)
  {
  }

  /** Clamping never reverses the order of two scores. */
  lemma ClampMonotone(s1: real, s2: real)
    requires s1 <= s2
    ensures Clamp(s1) <= Clamp(s2)
  {
  }

  /** Needle angle in degrees: -90 for an empty gauge, +90 for a full one. */
  function Angle(score: real): (a: real)
    ensures -90.0 <= a <= 90.0
    ensures score <= 0.0 ==> a == -90.0
    ensures score >= 100.0 ==> a == 90.0
  {
    Clamp(score) / 100.0 * 180.0 - 90.0
  }

  /** The angle never decreases as the raw score grows. */
  lemma {:induction false} AngleMonotone(s1: real, s2: real)
    requires s1 <= s2
    ensures Angle(s1) <= Angle(s2)
  {
    ClampMonotone(s1, s2);
  }

  /** The painted share of the arc; it never exceeds the whole arc. */
  function ArcFraction(score: real): (f: real)
    ensures 0.0 <= f <= 1.0
    ensures f * 100.0 == Clamp(score)
  {
    Clamp(score) / 100.0
  }

  /** The one set of cut points: below 35 is Low, below 65 Moderate, else High. */
  function TierOf(clamped: real): (t: Tier)
    ensures t == Low <==> clamped < 35.0
    ensures t == High <==> clamped >= 65.0
  {
    if clamped < 35.0 then Low else if clamped < 65.0 then Moderate else High
  }

  /** The tier of the clamped score is the tier of the raw score, because both
      cut points lie inside [0, 100]. */
  lemma TierIgnoresClamp(score: real)
    ensures TierOf(Clamp(score)) == TierOf(score)
  {
  }

  function Stroke(t: Tier): string {
    match t
    case Low => "#10b981"
    case Moderate => "#f59e0b"
    case High => "#ef4444"
  }

  function TextClass(t: Tier): string {
    match t
    case Low => "text-emerald-400"
    case Moderate => "text-amber-400"
    case High => "text-red-400"
  }

  function BadgeClass(t: Tier): string {
    match t
    case Low => "risk-green"
    case Moderate => "risk-yellow"
    case High => "risk-red"
  }

  function Label(t: Tier): string {
    match t
    case Low => "Low"
    case Moderate => "Moderate"
    case High => "High"
  }

  /** Distinct tiers look different in every one of the four styling outputs. */
  lemma StylingDistinguishesTiers(t1: Tier, t2: Tier)
    requires t1 != t2
    ensures Stroke(t1) != Stroke(t2) && TextClass(t1) != TextClass(t2)
    ensures BadgeClass(t1) != BadgeClass(t2) && Label(t1) != Label(t2)
  {
  }

  /** Everything the gauge renders for one score. */
  function Render(score: real): (v: GaugeView)
    ensures 0.0 <= v.shown <= 100.0
    ensures 0.0 <= score <= 100.0 ==> v.shown == score
    ensures -90.0 <= v.angle <= 90.0 && v.angle == v.shown * 1.8 - 90.0
    ensures 0.0 <= v.arcFraction <= 1.0 && v.arcFraction * 100.0 == v.shown
    ensures v.tier == TierOf(score)
    ensures v.riskLabel == Label(v.tier) && v.stroke == Stroke(v.tier)
    ensures v.textClass == TextClass(v.tier) && v.badgeClass == BadgeClass(v.tier)
  {
    var c := Clamp(score);
    var t := TierOf(c);
    TierIgnoresClamp(score);
    GaugeView(c, Angle(score), ArcFraction(score), t, Stroke(t), TextClass(t), BadgeClass(t), Label(t))
  }

  /** Boundary examples: the extremes of the needle and both cut points. */
  lemma RenderExamples()
    ensures Render(0.0).angle == -90.0 && Render(100.0).angle == 90.0
    ensures Render(-10.0).shown == 0.0 && Render(150.0).shown == 100.0
    ensures Render(50.0).tier == Moderate
    ensures Render(35.0).tier == Moderate && Render(65.0).tier == High
    ensures Render(34.9).tier == Low
  {
  }
}
