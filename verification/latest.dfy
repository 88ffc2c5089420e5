/** The "latest reading per name" reduction, written identically in the
    dashboard (frontend/src/pages/Dashboard.jsx:81-86) and in the risk scoring
    (backend/app/services/analytics_service.py:62-65): walk the readings in
    order and replace the kept reading of a name only by a STRICTLY later one.
    The result is an association list in order of each name's first appearance,
    which is the iteration order of the Python dict built there. */
module Latest {
  import opened Records

  /** Position of the entry named `name` in `latest`, or -1. */
  function NameIndex(latest: seq<Biomarker>, name: string): (k: int)
    ensures -1 <= k < |latest|
    ensures k >= 0 ==> latest[k].name == name
    ensures k < 0 ==> forall j :: 0 <= j < |latest| ==> latest[j].name != name
  {
    if |latest| == 0 then -1
    else if latest[|latest| - 1].name == name then |latest| - 1
    else NameIndex(latest[..|latest| - 1], name)
  }

  /** One step of the loop: a new name is appended; a known name is replaced
      only when the reading is strictly later. */
  function Step(latest: seq<Biomarker>, b: Biomarker): seq<Biomarker> {
    var k := NameIndex(latest, b.name);
    if k < 0 then latest + [b]
    else if b.recordedAt > latest[k].recordedAt then latest[k := b]
    else latest
  }

  function LatestByName(bs: seq<Biomarker>): seq<Biomarker>
    decreases |bs|
  {
    if |bs| == 0 then [] else Step(LatestByName(bs[..|bs| - 1]), bs[|bs| - 1])
  }

  /** `bs[i]` is the reading the reduction must keep for its name: no reading of
      that name is later, and every earlier one of that name is strictly older
      (so among equally late readings the first one wins). */
  ghost predicate IsLatestAt(bs: seq<Biomarker>, i: int) {
    && 0 <= i < |bs|
    && (forall j :: 0 <= j < |bs| && bs[j].name == bs[i].name ==> bs[j].recordedAt <= bs[i].recordedAt)
    && (forall j :: 0 <= j < i && bs[j].name == bs[i].name ==> bs[j].recordedAt < bs[i].recordedAt)
  }

  /** Index of the first reading carrying `name`. */
  function FirstIndex(bs: seq<Biomarker>, name: string): (i: int)
    ensures -1 <= i < |bs|
    ensures i >= 0 ==> bs[i].name == name && forall j :: 0 <= j < i ==> bs[j].name != name
    ensures i < 0 ==> forall j :: 0 <= j < |bs| ==> bs[j].name != name
  {
    if |bs| == 0 then -1
    else if bs[0].name == name then 0
    else var i := FirstIndex(bs[1..], name); if i < 0 then -1 else i + 1
  }

  /** The set of names that carry an entry in `s`. */
  function Names(s: seq<Biomarker>): set<string> {
    set k | 0 <= k < |s| :: s[k].name
  }

  ghost predicate DistinctNames(s: seq<Biomarker>) {
    forall k, m :: 0 <= k < m < |s| ==> s[k].name != s[m].name
  }

  /** What one step does to the list: append a new name, or keep the positions
      and names and possibly replace the entry of a known name by `b`. */
  lemma StepShape(l: seq<Biomarker>, b: Biomarker)
    ensures var r := Step(l, b); var k := NameIndex(l, b.name);
      && (k < 0 ==> r == l + [b])
      && (k >= 0 ==> |r| == |l| && (r[k] == b || r[k] == l[k])
                      && forall j :: 0 <= j < |l| && j != k ==> r[j] == l[j])
      && Names(r) == Names(l) + {b.name}
  {
    var r := Step(l, b);
    var k := NameIndex(l, b.name);
    if k >= 0 {
      assert r[k].name == l[k].name;
      forall nm | nm in Names(r) ensures nm in Names(l) + {b.name} {
        var j :| 0 <= j < |r| && r[j].name == nm;
      }
      forall nm | nm in Names(l) + {b.name} ensures nm in Names(r) {
        if nm != b.name {
          var j :| 0 <= j < |l| && l[j].name == nm;
          assert r[j].name == nm;
        } else {
          assert r[k].name == nm;
        }
      }
    } else {
      forall nm | nm in Names(r) ensures nm in Names(l) + {b.name} {
        var j :| 0 <= j < |r| && r[j].name == nm;
        if j < |l| { assert l[j].name == nm; }
      }
      forall nm | nm in Names(l) + {b.name} ensures nm in Names(r) {
        if nm != b.name {
          var j :| 0 <= j < |l| && l[j].name == nm;
          assert r[j].name == nm;
        } else {
          assert r[|l|].name == nm;
        }
      }
    }
  }

  lemma NamesSnoc(pre: seq<Biomarker>, b: Biomarker)
    ensures Names(pre + [b]) == Names(pre) + {b.name}
  {
    var bs := pre + [b];
    forall nm | nm in Names(bs) ensures nm in Names(pre) + {b.name} {
      var i :| 0 <= i < |bs| && bs[i].name == nm;
      if i < |pre| { assert pre[i].name == nm; }
    }
    forall nm | nm in Names(pre) + {b.name} ensures nm in Names(bs) {
      if nm != b.name {
        var i :| 0 <= i < |pre| && pre[i].name == nm;
        assert bs[i].name == nm;
      } else {
        assert bs[|pre|].name == nm;
      }
    }
  }

  lemma LatestByNameSnoc(pre: seq<Biomarker>, b: Biomarker)
    ensures LatestByName(pre + [b]) == Step(LatestByName(pre), b)
  {
    assert (pre + [b])[..|pre|] == pre;
  }

  /** Every name occurring in the readings has exactly one entry. */
  lemma {:induction false} LatestByNameDistinct(bs: seq<Biomarker>)
    ensures DistinctNames(LatestByName(bs))
    ensures Names(LatestByName(bs)) == Names(bs)
    decreases |bs|
  {
    if |bs| == 0 {
      return;
    }
    var pre := bs[..|bs| - 1];
    var b := bs[|bs| - 1];
    assert bs == pre + [b];
    LatestByNameDistinct(pre);
    LatestByNameSnoc(pre, b);
    StepDistinct(LatestByName(pre), b);
    StepShape(LatestByName(pre), b);
    NamesSnoc(pre, b);
  }

  /** A step keeps names distinct. */
  lemma StepDistinct(l: seq<Biomarker>, b: Biomarker)
    requires DistinctNames(l)
    ensures DistinctNames(Step(l, b))
  {
    var r := Step(l, b);
    StepNames(l, b);
    forall k, m | 0 <= k < m < |r| ensures r[k].name != r[m].name {
      assert r[k].name == l[k].name;
      if m == |l| {
        assert l[k].name in Names(l);
      }
    }
  }

  /** Each kept entry is the first of the latest readings of its name. */
  lemma {:induction false} LatestByNameKeepsLatest(bs: seq<Biomarker>)
    ensures forall k :: 0 <= k < |LatestByName(bs)| ==>
      exists i :: 0 <= i < |bs| && bs[i] == LatestByName(bs)[k] && IsLatestAt(bs, i)
    decreases |bs|
  {
    if |bs| == 0 {
      assert LatestByName(bs) == [];
      return;
    }
    var pre := bs[..|bs| - 1];
    var b := bs[|bs| - 1];
    assert bs == pre + [b];
    var n := |pre|;
    LatestByNameKeepsLatest(pre);
    LatestByNameDistinct(pre);
    LatestByNameSnoc(pre, b);
    var l := LatestByName(pre);
    var r := LatestByName(bs);
    StepShape(l, b);
    var k := NameIndex(l, b.name);
    forall kk | 0 <= kk < |r|
      ensures exists i :: IsLatestAt(bs, i) && bs[i] == r[kk]
    {
      if kk < |l| && r[kk] == l[kk] {
        var i :| IsLatestAt(pre, i) && pre[i] == l[kk];
        KeptEntryStaysLatest(pre, b, l, i, kk);
      } else if kk < |l| {
        var i :| IsLatestAt(pre, i) && pre[i] == l[k];
        NewerEntryIsLatest(pre, b, i);
      } else {
        NewNameIsLatest(pre, b);
      }
    }
  }

  lemma KeptEntryStaysLatest(pre: seq<Biomarker>, b: Biomarker, l: seq<Biomarker>, i: int, kk: int)
    requires l == LatestByName(pre) && DistinctNames(l)
    requires 0 <= kk < |l| && Step(l, b)[kk] == l[kk]
    requires IsLatestAt(pre, i) && pre[i] == l[kk]
    ensures IsLatestAt(pre + [b], i)
  {
    var k := NameIndex(l, b.name);
    if l[kk].name == b.name {
      assert kk == k;
      assert b.recordedAt <= l[k].recordedAt;
    }
  }

  lemma NewerEntryIsLatest(pre: seq<Biomarker>, b: Biomarker, i: int)
    requires IsLatestAt(pre, i) && pre[i].name == b.name && b.recordedAt > pre[i].recordedAt
    ensures IsLatestAt(pre + [b], |pre|)
  {
  }

  lemma NewNameIsLatest(pre: seq<Biomarker>, b: Biomarker)
    requires b.name !in Names(LatestByName(pre))
    ensures IsLatestAt(pre + [b], |pre|)
  {
    LatestByNameDistinct(pre);
    forall j | 0 <= j < |pre| ensures pre[j].name != b.name {
      assert pre[j].name in Names(pre);
    }
  }

  /** Entries come in the order in which their names first appear. */
  lemma {:induction false} LatestByNameOrder(bs: seq<Biomarker>)
    ensures var r := LatestByName(bs);
      forall k, m :: 0 <= k < m < |r| ==> 0 <= FirstIndex(bs, r[k].name) < FirstIndex(bs, r[m].name)
    decreases |bs|
  {
    if |bs| == 0 {
      return;
    }
    var pre := bs[..|bs| - 1];
    var b := bs[|bs| - 1];
    assert bs == pre + [b];
    LatestByNameOrder(pre);
    LatestByNameDistinct(pre);
    LatestByNameSnoc(pre, b);
    var l := LatestByName(pre);
    var r := LatestByName(bs);
    StepNames(l, b);
    forall kk, m | 0 <= kk < m < |r|
      ensures 0 <= FirstIndex(bs, r[kk].name) < FirstIndex(bs, r[m].name)
    {
      OrderPair(pre, b, l, r, kk, m);
    }
  }

  /** A step keeps the names at every old position and may append `b`, whose
      name is then new. */
  lemma StepNames(l: seq<Biomarker>, b: Biomarker)
    ensures var r := Step(l, b);
      && |l| <= |r| <= |l| + 1
      && (forall j :: 0 <= j < |l| ==> r[j].name == l[j].name)
      && (|r| > |l| ==> r[|l|] == b && b.name !in Names(l))
  {
    StepShape(l, b);
    var k := NameIndex(l, b.name);
    if k >= 0 {
      assert Step(l, b)[k].name == l[k].name;
    }
  }

  /** The order of two entries after one more reading. */
  lemma OrderPair(pre: seq<Biomarker>, b: Biomarker, l: seq<Biomarker>, r: seq<Biomarker>, kk: int, m: int)
    requires Names(l) == Names(pre)
    requires forall k, m :: 0 <= k < m < |l| ==> 0 <= FirstIndex(pre, l[k].name) < FirstIndex(pre, l[m].name)
    requires |l| <= |r| <= |l| + 1 && forall j :: 0 <= j < |l| ==> r[j].name == l[j].name
    requires |r| > |l| ==> r[|l|] == b && b.name !in Names(l)
    requires 0 <= kk < m < |r|
    ensures 0 <= FirstIndex(pre + [b], r[kk].name) < FirstIndex(pre + [b], r[m].name)
  {
    assert r[kk].name == l[kk].name;
    assert l[kk].name in Names(pre);
    FirstIndexExtend(pre, b, l[kk].name);
    FirstIndexExtend(pre, b, r[m].name);
    if m < |l| {
      assert l[m].name in Names(pre);
    } else {
      FirstIndexOfAbsent(pre, b.name);
    }
  }

  lemma FirstIndexOfAbsent(bs: seq<Biomarker>, nm: string)
    requires nm !in Names(bs)
    ensures FirstIndex(bs, nm) < 0
  {
  }

  lemma FirstIndexExtend(pre: seq<Biomarker>, b: Biomarker, nm: string)
    ensures FirstIndex(pre + [b], nm)
      == (if FirstIndex(pre, nm) >= 0 then FirstIndex(pre, nm) else if b.name == nm then |pre| else -1)
  {
    var bs := pre + [b];
    var f := FirstIndex(bs, nm);
    if FirstIndex(pre, nm) >= 0 {
      assert bs[FirstIndex(pre, nm)] == pre[FirstIndex(pre, nm)];
    } else if b.name == nm {
      assert bs[|pre|] == b;
    }
  }

  /** At most one reading per name satisfies `IsLatestAt`, so "the latest
      reading of a name" is well defined. */
  lemma LatestAtUnique(bs: seq<Biomarker>, i: int, j: int)
    requires IsLatestAt(bs, i) && IsLatestAt(bs, j) && bs[i].name == bs[j].name
    ensures i == j
  {
  }

  /** A list with one entry per name is its own reduction. */
  lemma {:induction false} LatestByNameOfDistinct(l: seq<Biomarker>)
    requires DistinctNames(l)
    ensures LatestByName(l) == l
    decreases |l|
  {
    if |l| == 0 {
      return;
    }
    var pre := l[..|l| - 1];
    var b := l[|l| - 1];
    assert l == pre + [b];
    LatestByNameOfDistinct(pre);
    assert NameIndex(pre, b.name) < 0;
  }

  /** Reducing twice is reducing once. */
  lemma LatestByNameIdempotent(bs: seq<Biomarker>)
    ensures LatestByName(LatestByName(bs)) == LatestByName(bs)
  {
    LatestByNameDistinct(bs);
    LatestByNameOfDistinct(LatestByName(bs));
  }
}
