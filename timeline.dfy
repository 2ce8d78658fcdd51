/** A signal timeline: the recorded level changes of one wire, and the
    as-of-time lookup every sampling step of the decoder goes through. */
module Timelines {
  import opened Values

  /** A recorded change: (timestamp, captured value). */
  type Event = (int, Raw)

  /** The changes of one wire in the order the trace parser produced them. */
  type Timeline = seq<Event>

  predicate SortedByTime(s: Timeline)
  {
    forall i, j :: 0 <= i < j < |s| ==> s[i].0 <= s[j].0
  }

  predicate StrictlyIncreasing(s: Timeline)
  {
    forall i, j :: 0 <= i < j < |s| ==> s[i].0 < s[j].0
  }

  /** No two changes share a timestamp, whatever order they were captured in. */
  predicate DistinctTimes(s: Timeline)
  {
    forall i, j :: 0 <= i < j < |s| ==> s[i].0 != s[j].0
  }

  // ---------------------------------------------------------------------
  // The stable sort by timestamp that every scan applies first
  // ---------------------------------------------------------------------

  /** Inserts `e` behind the trailing events of `s` stamped later than `e`;
      on a sorted `s` that puts it after every event stamped no later, so
      that events with equal timestamps keep their relative order. */
  function InsertByTime(s: Timeline, e: Event): (r: Timeline)
    ensures |r| == |s| + 1
  {
    if s == [] || s[|s| - 1].0 <= e.0 then s + [e]
    else InsertByTime(s[..|s| - 1], e) + [s[|s| - 1]]
  }

  /** The events of `tv` ordered by timestamp by a stable sort (insertion). */
  function SortByTime(tv: Timeline): (r: Timeline)
    ensures |r| == |tv|
  {
    if tv == [] then []
    else InsertByTime(SortByTime(tv[..|tv| - 1]), tv[|tv| - 1])
  }

  lemma {:induction false} InsertByTimePermutes(s: Timeline, e: Event)
    ensures multiset(InsertByTime(s, e)) == multiset(s) + multiset{e}
  {
    if !(s == [] || s[|s| - 1].0 <= e.0) {
      var p := s[..|s| - 1];
      InsertByTimePermutes(p, e);
      assert s == p + [s[|s| - 1]];
    }
  }

  lemma {:induction false} InsertByTimeSorted(s: Timeline, e: Event)
    requires SortedByTime(s)
    ensures SortedByTime(InsertByTime(s, e))
  {
    if !(s == [] || s[|s| - 1].0 <= e.0) {
      var p, l := s[..|s| - 1], s[|s| - 1];
      InsertByTimeSorted(p, e);
      var r' := InsertByTime(p, e);
      InsertByTimePermutes(p, e);
      forall i | 0 <= i < |r'|
        ensures r'[i].0 <= l.0
      {
        assert r'[i] in multiset(r');
        if r'[i] != e {
          assert r'[i] in multiset(p);
          assert r'[i] in p;
        }
      }
      assert InsertByTime(s, e) == r' + [l];
    }
  }

  /** Sorting only reorders: the result holds the same events as the input. */
  lemma {:induction false} SortByTimePermutes(tv: Timeline)
    ensures multiset(SortByTime(tv)) == multiset(tv)
  {
    if tv != [] {
      var p, l := tv[..|tv| - 1], tv[|tv| - 1];
      SortByTimePermutes(p);
      InsertByTimePermutes(SortByTime(p), l);
      assert tv == p + [l];
    }
  }

  /** Sorting puts the events in time order. */
  lemma {:induction false} SortByTimeSorted(tv: Timeline)
    ensures SortedByTime(SortByTime(tv))
  {
    if tv != [] {
      var p := tv[..|tv| - 1];
      SortByTimeSorted(p);
      InsertByTimeSorted(SortByTime(p), tv[|tv| - 1]);
    }
  }
  /** Inserting an event at a timestamp not yet present keeps the timeline
      strictly increasing. */
  lemma {:induction false} InsertByTimeStrict(s: Timeline, e: Event)
    requires StrictlyIncreasing(s)
    requires forall k :: 0 <= k < |s| ==> s[k].0 != e.0
    ensures StrictlyIncreasing(InsertByTime(s, e))
  {
    if !(s == [] || s[|s| - 1].0 <= e.0) {
      var p, l := s[..|s| - 1], s[|s| - 1];
      assert StrictlyIncreasing(p);
      InsertByTimeStrict(p, e);
      var r' := InsertByTime(p, e);
      InsertByTimePermutes(p, e);
      forall i | 0 <= i < |r'|
        ensures r'[i].0 < l.0
      {
        assert r'[i] in multiset(r');
        if r'[i] != e {
          assert r'[i] in multiset(p);
          assert r'[i] in p;
        }
      }
      assert InsertByTime(s, e) == r' + [l];
    }
  }

  /** A capture whose timestamps are pairwise distinct, in any order, sorts
      into a strictly increasing timeline. */
  lemma {:induction false} SortByTimeStrict(tv: Timeline)
    requires DistinctTimes(tv)
    ensures StrictlyIncreasing(SortByTime(tv))
  {
    if tv != [] {
      var p, e := tv[..|tv| - 1], tv[|tv| - 1];
      assert DistinctTimes(p);
      SortByTimeStrict(p);
      var s := SortByTime(p);
      SortByTimePermutes(p);
      forall k | 0 <= k < |s|
        ensures s[k].0 != e.0
      {
        assert s[k] in multiset(s);
        assert s[k] in p;
      }
      InsertByTimeStrict(s, e);
    }
  }


  lemma InsertAtEnd(s: Timeline, e: Event)
    requires s == [] || s[|s| - 1].0 <= e.0
    ensures InsertByTime(s, e) == s + [e]
  {
  }

  /** A timeline already in time order is left as it is. */
  lemma {:induction false} SortOfSorted(tv: Timeline)
    requires SortedByTime(tv)
    ensures SortByTime(tv) == tv
  {
    if tv != [] {
      var n := |tv| - 1;
      var p, l := tv[..n], tv[n];
      assert SortedByTime(p);
      SortOfSorted(p);
      if n > 0 {
        assert p[n - 1] == tv[n - 1];
      }
      InsertAtEnd(p, l);
      assert tv == p + [l];
    }
  }

  /** The events of `s` stamped exactly `t`, in their order in `s`. */
  function AtTime(s: Timeline, t: int): Timeline
  {
    if s == [] then []
    else AtTime(s[..|s| - 1], t) + (if s[|s| - 1].0 == t then [s[|s| - 1]] else [])
  }

  lemma AtTimeSnoc(s: Timeline, e: Event, t: int)
    ensures AtTime(s + [e], t) == AtTime(s, t) + (if e.0 == t then [e] else [])
  {
    assert (s + [e])[..|s|] == s;
  }

  lemma {:induction false} InsertKeepsTies(s: Timeline, e: Event, t: int)
    ensures AtTime(InsertByTime(s, e), t) == AtTime(s, t) + (if e.0 == t then [e] else [])
  {
    if s == [] || s[|s| - 1].0 <= e.0 {
      AtTimeSnoc(s, e, t);
    } else {
      var p, l := s[..|s| - 1], s[|s| - 1];
      InsertKeepsTies(p, e, t);
      AtTimeSnoc(InsertByTime(p, e), l, t);
    }
  }

  /** Stability: sorting keeps the input order among events with equal timestamps. */
  lemma {:induction false} SortKeepsTies(tv: Timeline, t: int)
    ensures AtTime(SortByTime(tv), t) == AtTime(tv, t)
  {
    if tv != [] {
      var p, l := tv[..|tv| - 1], tv[|tv| - 1];
      var sp := SortByTime(p);
      assert SortByTime(tv) == InsertByTime(sp, l);
      SortKeepsTies(p, t);
      InsertKeepsTies(sp, l, t);
      assert tv == p + [l];
      AtTimeSnoc(p, l, t);
    }
  }

  lemma {:induction false} AtTimeLast(s: Timeline, t: int, k: int)
    requires 0 <= k < |s| && s[k].0 == t
    requires forall j :: k < j < |s| ==> s[j].0 != t
    ensures AtTime(s, t) != [] && AtTime(s, t)[|AtTime(s, t)| - 1] == s[k]
  {
    if k < |s| - 1 {
      AtTimeLast(s[..|s| - 1], t, k);
    }
  }

  /** `s[i]` is the last event of `s` stamped `t`. */
  ghost predicate LastStampedAt(s: Timeline, t: int, i: int)
  {
    0 <= i < |s| && s[i].0 == t && forall j :: i < j < |s| ==> s[j].0 != t
  }

  lemma {:induction false} AtTimeLastIndex(s: Timeline, t: int) returns (i: int)
    requires AtTime(s, t) != []
    ensures LastStampedAt(s, t, i) && s[i] == AtTime(s, t)[|AtTime(s, t)| - 1]
  {
    var l := s[|s| - 1];
    if l.0 == t {
      i := |s| - 1;
    } else {
      var p := s[..|s| - 1];
      i := AtTimeLastIndex(p, t);
      assert s[i] == p[i];
    }
  }

  // ---------------------------------------------------------------------
  // As-of-time lookup
  // ---------------------------------------------------------------------

  /** The normalised value of the last event of `s` stamped at or before
      `ts`, or `Zero` when there is none (the baseline before the first
      event). */
  function LastAtOrBefore(s: Timeline, ts: int): Value
  {
    if s == [] then Zero
    else if s[|s| - 1].0 <= ts then Normalize(s[|s| - 1].1)
    else LastAtOrBefore(s[..|s| - 1], ts)
  }

  /** The value a wire holds at time `ts`: its events are put in time order
      by the stable sort, and the last one stamped at or before `ts` wins. */
  function ValueAt(tv: Timeline, ts: int): Value
  {
    LastAtOrBefore(SortByTime(tv), ts)
  }

  /** The latest event stamped at or before `ts` is `tv[i]`: it has the
      largest such timestamp and no later event in `tv` shares it. */
  ghost predicate LatestAtOrBefore(tv: Timeline, ts: int, i: int)
  {
    && 0 <= i < |tv|
    && tv[i].0 <= ts
    && (forall j :: 0 <= j < |tv| && tv[j].0 <= ts ==> tv[j].0 <= tv[i].0)
    && (forall j :: i < j < |tv| ==> tv[j].0 != tv[i].0)
  }

  lemma {:induction false} LastAtOrBeforeNone(s: Timeline, ts: int)
    requires forall j :: 0 <= j < |s| ==> s[j].0 > ts
    ensures LastAtOrBefore(s, ts) == Zero
  {
    if s != [] {
      LastAtOrBeforeNone(s[..|s| - 1], ts);
    }
  }

  /** `s[k]` is the last event of `s` stamped at or before `ts`. */
  ghost predicate LastIndexAtOrBefore(s: Timeline, ts: int, k: int)
  {
    0 <= k < |s| && s[k].0 <= ts && forall j :: k < j < |s| ==> s[j].0 > ts
  }

  lemma {:induction false} LastAtOrBeforeWitness(s: Timeline, ts: int, k0: int) returns (k: int)
    requires 0 <= k0 < |s| && s[k0].0 <= ts
    ensures LastIndexAtOrBefore(s, ts, k) && LastAtOrBefore(s, ts) == Normalize(s[k].1)
  {
    if s[|s| - 1].0 <= ts {
      k := |s| - 1;
    } else {
      var p := s[..|s| - 1];
      assert p[k0].0 <= ts;
      k := LastAtOrBeforeWitness(p, ts, k0);
      assert s[k] == p[k];
    }
  }

  /** Before the first event stamped at or before `ts`, a wire reads `Zero`. */
  lemma ValueAtBeforeFirst(tv: Timeline, ts: int)
    requires forall i :: 0 <= i < |tv| ==> tv[i].0 > ts
    ensures ValueAt(tv, ts) == Zero
  {
    var s := SortByTime(tv);
    SortByTimePermutes(tv);
    forall j | 0 <= j < |s|
      ensures s[j].0 > ts
    {
      assert s[j] in multiset(tv);
    }
    LastAtOrBeforeNone(s, ts);
  }

  lemma SortedLatest(s: Timeline, ts: int, k: int, m: int)
    requires SortedByTime(s) && LastIndexAtOrBefore(s, ts, k)
    requires 0 <= m < |s| && s[m].0 <= ts
    ensures s[m].0 <= s[k].0
  {
  }

  /** In the sorted `s`, the last event at or before `ts` carries the largest
      timestamp at or before `ts` of any event of `tv`. */
  lemma LastIndexIsLatest(tv: Timeline, s: Timeline, ts: int, k: int)
    requires s == SortByTime(tv)
    requires LastIndexAtOrBefore(s, ts, k)
    ensures forall j :: 0 <= j < |tv| && tv[j].0 <= ts ==> tv[j].0 <= s[k].0
  {
    SortByTimePermutes(tv);
    SortByTimeSorted(tv);
    forall j | 0 <= j < |tv| && tv[j].0 <= ts
      ensures tv[j].0 <= s[k].0
    {
      assert tv[j] in multiset(tv);
      assert tv[j] in s;
      var m :| 0 <= m < |s| && s[m] == tv[j];
      SortedLatest(s, ts, k, m);
    }
  }

  /** Otherwise it reads the normalised value of the latest event at or before
      `ts`; among events sharing that timestamp, the one recorded last wins. */
  lemma ValueAtIsLatest(tv: Timeline, ts: int)
    requires exists i :: 0 <= i < |tv| && tv[i].0 <= ts
    ensures exists i :: LatestAtOrBefore(tv, ts, i) && ValueAt(tv, ts) == Normalize(tv[i].1)
  {
    var s := SortByTime(tv);
    SortByTimePermutes(tv);
    var i0 :| 0 <= i0 < |tv| && tv[i0].0 <= ts;
    assert tv[i0] in multiset(s);
    var k0 :| 0 <= k0 < |s| && s[k0] == tv[i0];
    var k := LastAtOrBeforeWitness(s, ts, k0);
    var t := s[k].0;
    AtTimeLast(s, t, k);
    SortKeepsTies(tv, t);
    var i := AtTimeLastIndex(tv, t);
    LastIndexIsLatest(tv, s, ts, k);
    assert LatestAtOrBefore(tv, ts, i);
  }

  /** Sampling exactly at an event's own timestamp sees that event (the bound
      is inclusive), provided no later event carries the same timestamp. */
  lemma ValueAtOwnTime(tv: Timeline, i: int)
    requires 0 <= i < |tv|
    requires forall j :: i < j < |tv| ==> tv[j].0 != tv[i].0
    ensures ValueAt(tv, tv[i].0) == Normalize(tv[i].1)
  {
    ValueAtIsLatest(tv, tv[i].0);
    var i' :| LatestAtOrBefore(tv, tv[i].0, i') && ValueAt(tv, tv[i].0) == Normalize(tv[i'].1);
    assert tv[i'].0 == tv[i].0;
    assert i' == i;
  }

  lemma {:induction false} LastAtOrBeforeSteady(s: Timeline, p: int, t: int)
    requires p <= t
    requires forall j :: 0 <= j < |s| ==> !(p < s[j].0 <= t)
    ensures LastAtOrBefore(s, t) == LastAtOrBefore(s, p)
  {
    if s != [] && s[|s| - 1].0 > t {
      LastAtOrBeforeSteady(s[..|s| - 1], p, t);
    }
  }

  /** A wire keeps its value between changes: with no event stamped in
      `(p, t]`, it reads the same at `t` as at `p`. */
  lemma ValueAtSteady(tv: Timeline, p: int, t: int)
    requires p <= t
    requires forall i :: 0 <= i < |tv| ==> !(p < tv[i].0 <= t)
    ensures ValueAt(tv, t) == ValueAt(tv, p)
  {
    var s := SortByTime(tv);
    SortByTimePermutes(tv);
    forall j | 0 <= j < |s|
      ensures !(p < s[j].0 <= t)
    {
      assert s[j] in multiset(tv);
    }
    LastAtOrBeforeSteady(s, p, t);
  }

  lemma {:induction false} LastAtOrBeforePrefix(s: Timeline, ts: int, i: int)
    requires SortedByTime(s)
    requires 0 <= i <= |s|
    requires forall j :: 0 <= j < i ==> s[j].0 <= ts
    requires i < |s| ==> s[i].0 > ts
    ensures LastAtOrBefore(s, ts) == if i == 0 then Zero else Normalize(s[i - 1].1)
  {
    if i < |s| {
      LastAtOrBeforePrefix(s[..|s| - 1], ts, i);
    }
  }

  /** `value_at`: sorts the events, walks them in time order remembering the
      last normalised value, and stops at the first event after `ts`. */
  method ValueAtScan(tv: Timeline, ts: int) returns (v: Value)
    ensures v == ValueAt(tv, ts)
  {
    var s := SortByTime(tv);
    SortByTimeSorted(tv);
    v := Zero;
    var i := 0;
    while i < |s|
      invariant 0 <= i <= |s|
      invariant forall j :: 0 <= j < i ==> s[j].0 <= ts
      invariant v == if i == 0 then Zero else Normalize(s[i - 1].1)
    {
      if s[i].0 > ts {
        break;
      }
      v := Normalize(s[i].1);
      i := i + 1;
    }
    LastAtOrBeforePrefix(s, ts, i);
  }
}
