/** The text handling around the two model calls
    (backend/app/ai/openai_service.py): the prompt inputs are truncated, and the
    model's reply is trimmed and unwrapped from a markdown code fence before it
    reaches the JSON parser. Both calls post-process their reply with the same
    statements, so one function stands for both. The calls themselves and
    `json.loads` are not part of this model. */
module LlmText {
  import opened Text

  const Fence := "```"

  lemma OccursShift(s: string, sep: string, i: int)
    requires 1 <= i && |s| > 0
    ensures OccursAt(s, sep, i) <==> OccursAt(s[1..], sep, i - 1)
  {
    if i + |sep| <= |s| {
      assert s[1..][i - 1..i - 1 + |sep|] == s[i..i + |sep|];
    }
  }

  /** `s.split(sep)[0]`: the text before the first occurrence of `sep`, or all
      of `s` when there is none. */
  function Before(s: string, sep: string): (r: string)
    requires |sep| > 0
    decreases |s|
    ensures |r| <= |s| && r == s[..|r|]
    ensures forall i :: 0 <= i < |r| ==> !OccursAt(s, sep, i)
    ensures |r| < |s| ==> OccursAt(s, sep, |r|)
    ensures |r| == |s| ==> forall i :: !OccursAt(s, sep, i)
  {
    if |s| < |sep| then s
    else if s[..|sep|] == sep then
      assert OccursAt(s, sep, 0);
      []
    else
      var t := Before(s[1..], sep);
      assert forall i :: 1 <= i ==> (OccursAt(s, sep, i) <==> OccursAt(s[1..], sep, i - 1)) by {
        forall i | 1 <= i ensures OccursAt(s, sep, i) <==> OccursAt(s[1..], sep, i - 1) {
          OccursShift(s, sep, i);
        }
      }
      assert !OccursAt(s, sep, 0);
      [s[0]] + t
  }

  /** The reply handling: strip whitespace; if the text opens with a fence,
      keep what lies between it and the next fence (or the rest, if none
      follows); then drop one leading "json". */
  function Unfence(raw: string): (r: string)
    ensures !StartsWith(Strip(raw), Fence) ==> r == Strip(raw)
    ensures StartsWith(Strip(raw), Fence) ==>
      var seg := Before(Strip(raw)[3..], Fence);
      r == (if StartsWith(seg, "json") then seg[4..] else seg)
  {
    var t := Strip(raw);
    if StartsWith(t, Fence) then
      var seg := Before(t[3..], Fence);
      if StartsWith(seg, "json") then seg[4..] else seg
    else t
  }

  /** An occurrence inside a prefix is an occurrence in the whole string. */
  lemma OccursInPrefix(s: string, p: string, sep: string, i: int)
    requires |p| <= |s| && p == s[..|p|]
    requires OccursAt(p, sep, i)
    ensures OccursAt(s, sep, i)
  {
    assert s[i..i + |sep|] == p[i..i + |sep|];
  }

  /** An occurrence in a suffix is an occurrence in the whole string, shifted. */
  lemma OccursInSuffix(s: string, k: nat, sep: string, i: int)
    requires k <= |s|
    requires OccursAt(s[k..], sep, i)
    ensures OccursAt(s, sep, k + i)
  {
    assert s[k + i..k + i + |sep|] == s[k..][i..i + |sep|];
  }

  /** The result never contains a fence when the input was fenced. */
  lemma UnfencedHasNoFence(raw: string)
    requires StartsWith(Strip(raw), Fence)
    ensures forall i :: !OccursAt(Unfence(raw), Fence, i)
  {
    var t := Strip(raw);
    var body := t[3..];
    var seg := Before(body, Fence);
    var off := if StartsWith(seg, "json") then 4 else 0;
    var r := Unfence(raw);
    assert r == seg[off..];
    forall i | OccursAt(r, Fence, i) ensures false {
      OccursInSuffix(seg, off, Fence, i);
      OccursInPrefix(body, seg, Fence, off + i);
    }
  }

  lemma OccursAtJoin(a: string, b: string)
    ensures OccursAt(a + b, b, |a|)
  {
    assert (a + b)[|a|..|a| + |b|] == b;
  }

  lemma OccursHead(s: string, sep: string, i: int)
    requires |sep| > 0 && OccursAt(s, sep, i)
    ensures s[i] == sep[0]
  {
    assert s[i..i + |sep|][0] == s[i];
  }

  /** A fence right after backtick-free text ends the segment there. */
  lemma FenceSegment(inner: string)
    requires forall k :: 0 <= k < |inner| ==> inner[k] != '`'
    ensures Before(inner + Fence, Fence) == inner
  {
    var s := inner + Fence;
    var r := Before(s, Fence);
    OccursAtJoin(inner, Fence);
    if |r| < |inner| {
      OccursHead(s, Fence, |r|);
      assert false;
    }
    assert s[..|inner|] == inner;
  }

  /** Unfencing text that, once stripped, opens with a fence. */
  lemma UnfenceFenced(raw: string, rest: string)
    requires Strip(raw) == Fence + rest
    ensures var seg := Before(rest, Fence);
      Unfence(raw) == if StartsWith(seg, "json") then seg[4..] else seg
  {
    var t := Strip(raw);
    assert t[..3] == Fence;
    assert t[3..] == rest;
  }

  /** Backtick-free text stays backtick-free behind a "json" tag. */
  lemma TaggedNoBacktick(body: string)
    requires forall k :: 0 <= k < |body| ==> body[k] != '`'
    ensures var inner := "json" + body;
      forall k :: 0 <= k < |inner| ==> inner[k] != '`'
  {
    var inner := "json" + body;
    forall k | 0 <= k < |inner| ensures inner[k] != '`' {
      if k >= 4 {
        assert inner[k] == body[k - 4];
      }
    }
  }

  /** A backtick-free JSON body round-trips through a ```json fence. */
  lemma JsonFenceRoundTrip(body: string)
    requires forall k :: 0 <= k < |body| ==> body[k] != '`'
    ensures Unfence("```json" + body + "```") == body
  {
    var inner := "json" + body;
    var a := "```json" + body + "```";
    assert a == Fence + (inner + Fence);
    assert a[0] == '`' && a[|a| - 1] == '`';
    StripFixpoint(a);
    UnfenceFenced(a, inner + Fence);
    TaggedNoBacktick(body);
    FenceSegment(inner);
    assert inner[..4] == "json";
    assert inner[4..] == body;
  }

  /** A backtick-free body that does not start with "json" round-trips
      through a bare fence. */
  lemma BareFenceRoundTrip(body: string)
    requires forall k :: 0 <= k < |body| ==> body[k] != '`'
    requires !StartsWith(body, "json")
    ensures Unfence("```" + body + "```") == body
  {
    var b := "```" + body + "```";
    assert b == Fence + (body + Fence);
    assert b[0] == '`' && b[|b| - 1] == '`';
    StripFixpoint(b);
    UnfenceFenced(b, body + Fence);
    FenceSegment(body);
  }

  /** Backtick-free text has no fence, so the segment is all of it. */
  lemma NoFenceSegment(inner: string)
    requires forall k :: 0 <= k < |inner| ==> inner[k] != '`'
    ensures Before(inner, Fence) == inner
  {
    var r := Before(inner, Fence);
    if |r| < |inner| {
      OccursHead(inner, Fence, |r|);
      assert false;
    }
  }

  /** An unclosed fence keeps everything after it. */
  lemma UnclosedFence(body: string)
    requires forall k :: 0 <= k < |body| ==> body[k] != '`'
    requires |body| > 0 && !IsSpace(body[|body| - 1])
    ensures Unfence("```json" + body) == body
  {
    var inner := "json" + body;
    var a := "```json" + body;
    assert a == Fence + inner;
    assert a[0] == '`' && a[|a| - 1] == body[|body| - 1];
    StripFixpoint(a);
    UnfenceFenced(a, inner);
    TaggedNoBacktick(body);
    NoFenceSegment(inner);
    assert inner[..4] == "json";
    assert inner[4..] == body;
  }

  /** Text with no surrounding whitespace that does not open with a fence is
      passed on unchanged, even when it starts with "json". */
  lemma PlainTextKept(body: string)
    requires body != [] ==> !IsSpace(body[0]) && !IsSpace(body[|body| - 1])
    requires !StartsWith(body, Fence)
    ensures Unfence(body) == body
  {
    StripFixpoint(body);
  }

  /** `s[:n]` for a non-negative `n`. */
  function Take<T>(s: seq<T>, n: nat): (r: seq<T>)
    ensures |r| == if |s| <= n then |s| else n
    ensures r == s[..|r|]
  {
    if |s| <= n then s else s[..n]
  }

  /** The extraction prompt embeds at most 4000 characters of report text. */
  function PromptText(text: string): (r: string)
    ensures |r| <= 4000 && |r| <= |text| && r == text[..|r|]
    ensures |text| <= 4000 ==> r == text
  {
    Take(text, 4000)
  }

  /** The summary prompt embeds at most the first 80 records. */
  function PromptRecords<T>(records: seq<T>): (r: seq<T>)
    ensures |r| <= 80 && |r| <= |records| && r == records[..|r|]
    ensures |records| <= 80 ==> r == records
  {
    Take(records, 80)
  }

  /** Truncation is idempotent and keeps a prefix of what it was given. */
  lemma TakeIdempotent<T>(s: seq<T>, n: nat)
    ensures Take(Take(s, n), n) == Take(s, n)
    ensures forall m: nat :: m <= n ==> Take(Take(s, n), m) == Take(s, m)
  {
  }
}
