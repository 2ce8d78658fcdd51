/** The clock side of the decoder: reset rising edges, the (rise, fall) cycle
    list built from the clock wire, and the sampling instants taken from it. */
module Clock {
  import opened Values
  import opened Timelines

  /** Added to a clock edge before a wire is read, so that a sample never lands
      on the instant of a change. */
  const SAMPLE_EPS: int := 1

  /** One clock cycle: (rising-edge time, falling-edge time). */
  type Cycle = (int, int)

  // ---------------------------------------------------------------------
  // Rising edges (used on the reset wire)
  // ---------------------------------------------------------------------

  /** `s[i]` reads `One` and is either the first event or follows one that does not. */
  predicate IsRiseAt(s: Timeline, i: int)
    requires 0 <= i < |s|
  {
    Normalize(s[i].1) == One && (i == 0 || Normalize(s[i - 1].1) != One)
  }

  /** `t` is the timestamp of a rise of `s`. */
  ghost predicate IsRiseTime(s: Timeline, t: int)
  {
    exists i :: 0 <= i < |s| && IsRiseAt(s, i) && s[i].0 == t
  }

  /** The timestamps of the rises of `s`, in the order of `s`. */
  function Rises(s: Timeline): (r: seq<int>)
    ensures |r| <= |s|
    ensures forall k :: 0 <= k < |r| ==> IsRiseTime(s, r[k])
    ensures forall i :: 0 <= i < |s| && IsRiseAt(s, i) ==> s[i].0 in r
  {
    if s == [] then []
    else
      var p := s[..|s| - 1];
      assert forall i :: 0 <= i < |p| ==> (IsRiseAt(p, i) <==> IsRiseAt(s, i));
      Rises(p) + (if IsRiseAt(s, |s| - 1) then [s[|s| - 1].0] else [])
  }

  /** On a time-ordered timeline the rises come out in time order. */
  lemma {:induction false} RisesInOrder(s: Timeline)
    requires SortedByTime(s)
    ensures forall a, b :: 0 <= a < b < |Rises(s)| ==> Rises(s)[a] <= Rises(s)[b]
  {
    if s != [] {
      var n := |s| - 1;
      var p := s[..n];
      RisesInOrder(p);
      var r, rp := Rises(s), Rises(p);
      assert r == rp + (if IsRiseAt(s, n) then [s[n].0] else []);
      forall a, b | 0 <= a < b < |r|
        ensures r[a] <= r[b]
      {
        if b >= |rp| {
          assert r[a] == rp[a] && r[b] == s[n].0;
          assert IsRiseTime(p, rp[a]);
          var i :| 0 <= i < |p| && IsRiseAt(p, i) && p[i].0 == rp[a];
          assert s[i] == p[i] && i < n;
        } else {
          assert r[a] == rp[a] && r[b] == rp[b];
        }
      }
    }
  }

  /** On a timeline with one change per instant the rises are strictly increasing. */
  lemma {:induction false} RisesStrictlyIncreasing(s: Timeline)
    requires StrictlyIncreasing(s)
    ensures forall a, b :: 0 <= a < b < |Rises(s)| ==> Rises(s)[a] < Rises(s)[b]
  {
    if s != [] {
      var n := |s| - 1;
      var p := s[..n];
      RisesStrictlyIncreasing(p);
      var r, rp := Rises(s), Rises(p);
      assert r == rp + (if IsRiseAt(s, n) then [s[n].0] else []);
      forall a, b | 0 <= a < b < |r|
        ensures r[a] < r[b]
      {
        if b >= |rp| {
          assert r[a] == rp[a] && r[b] == s[n].0;
          assert IsRiseTime(p, rp[a]);
          var i :| 0 <= i < |p| && IsRiseAt(p, i) && p[i].0 == rp[a];
          assert s[i] == p[i] && i < n;
        } else {
          assert r[a] == rp[a] && r[b] == rp[b];
        }
      }
    }
  }

  /** The rises `rise_edges` reports for a capture in any order are in time
      order, and strictly so when no two changes share a timestamp. */
  lemma RisesOfCapture(tv: Timeline)
    ensures var r := Rises(SortByTime(tv));
      forall a, b :: 0 <= a < b < |r| ==> r[a] <= r[b]
    ensures DistinctTimes(tv) ==> var r := Rises(SortByTime(tv));
      forall a, b :: 0 <= a < b < |r| ==> r[a] < r[b]
  {
    SortByTimeSorted(tv);
    RisesInOrder(SortByTime(tv));
    if DistinctTimes(tv) {
      SortByTimeStrict(tv);
      RisesStrictlyIncreasing(SortByTime(tv));
    }
  }

  lemma RisesSnoc(s: Timeline, i: int)
    requires 0 <= i < |s|
    ensures Rises(s[..i + 1]) == Rises(s[..i]) + (if IsRiseAt(s, i) then [s[i].0] else [])
  {
    assert s[..i + 1][..i] == s[..i];
  }

  /** One step of the `rise_edges` loop, in terms of the level `last` it remembers. */
  lemma RiseStep(s: Timeline, i: int, last: Option<Value>)
    requires 0 <= i < |s|
    requires last == if i == 0 then None else Some(Normalize(s[i - 1].1))
    ensures Rises(s[..i + 1]) ==
      Rises(s[..i]) + (if Normalize(s[i].1) == One && last != Some(One) then [s[i].0] else [])
  {
    RisesSnoc(s, i);
  }

  /** `rise_edges`: sorts the events and records every change to `'1'` from
      anything else; the first event counts as a rise when it reads `'1'`. */
  method RiseEdges(tv: Timeline) returns (edges: seq<int>)
    ensures edges == Rises(SortByTime(tv))
  {
    var s := SortByTime(tv);
    edges := [];
    var last: Option<Value> := None;
    var i := 0;
    while i < |s|
      invariant 0 <= i <= |s|
      invariant edges == Rises(s[..i])
      invariant last == if i == 0 then None else Some(Normalize(s[i - 1].1))
    {
      var vv := Normalize(s[i].1);
      RiseStep(s, i, last);
      if vv == One && last != Some(One) {
        edges := edges + [s[i].0];
      }
      last := Some(vv);
      i := i + 1;
    }
    assert s[..|s|] == s;
  }

  // ---------------------------------------------------------------------
  // Clock cycles
  // ---------------------------------------------------------------------

  /** The state of the clock scan: the last level seen (none before the first
      event), the time of a rise still waiting for its fall, and the cycles
      closed so far. */
  datatype CycleScan = CycleScan(last: Option<Value>, pending: Option<int>, cycles: seq<Cycle>)

  /** One event through the clock scan. The first event only sets the level; a
      repeated level changes nothing; a change to `One` opens a cycle; a change
      from `One` to `Zero` closes the open one; any other change (into or out of
      `X`/`Z`) only updates the level. */
  function CycleStep(st: CycleScan, e: Event): CycleScan
  {
    var vv := Normalize(e.1);
    if st.last.None? then CycleScan(Some(vv), st.pending, st.cycles)
    else if st.last == Some(vv) then st
    else if vv == One && st.last != Some(One) then CycleScan(Some(vv), Some(e.0), st.cycles)
    else if vv == Zero && st.last == Some(One) && st.pending.Some? then
      CycleScan(Some(vv), None, st.cycles + [(st.pending.value, e.0)])
    else CycleScan(Some(vv), st.pending, st.cycles)
  }

  /** The clock scan run over the time-ordered events `s`. */
  function ScanCycles(s: Timeline): CycleScan
  {
    if s == [] then CycleScan(None, None, [])
    else CycleStep(ScanCycles(s[..|s| - 1]), s[|s| - 1])
  }

  /** The cycles `build_sck_cycles` returns for a clock timeline; a rise left
      open at the end of the trace is dropped. */
  function SckCycles(tv: Timeline): seq<Cycle>
  {
    ScanCycles(SortByTime(tv)).cycles
  }

  /** Every cycle rises no later than it falls and falls no later than any
      later cycle rises. */
  ghost predicate WellFormedCycles(c: seq<Cycle>)
  {
    && (forall k :: 0 <= k < |c| ==> c[k].0 <= c[k].1)
    && (forall i, j :: 0 <= i < j < |c| ==> c[i].1 <= c[j].0)
  }

  /** Every cycle rises strictly before it falls and falls strictly before any
      later cycle rises. */
  ghost predicate ChronologicalCycles(c: seq<Cycle>)
  {
    && (forall k :: 0 <= k < |c| ==> c[k].0 < c[k].1)
    && (forall i, j :: 0 <= i < j < |c| ==> c[i].1 < c[j].0)
  }

  /** `s[i]` opens a cycle: a change to `One` that is not the first event. */
  predicate OpensCycle(s: Timeline, i: int)
    requires 0 <= i < |s|
  {
    0 < i && Normalize(s[i].1) == One && Normalize(s[i - 1].1) != One
  }

  /** `s[i]` can close a cycle: a change from `One` straight to `Zero`. */
  predicate ClosesCycle(s: Timeline, i: int)
    requires 0 <= i < |s|
  {
    0 < i && Normalize(s[i].1) == Zero && Normalize(s[i - 1].1) == One
  }

  /** Every event of `s` from index `i` up to (not including) `j` reads `One`. */
  ghost predicate HighFrom(s: Timeline, i: int, j: int)
    requires 0 <= i <= j <= |s|
  {
    forall m :: i <= m < j ==> Normalize(s[m].1) == One
  }

  /** Cycle `c` runs from an event of `s` that opens a cycle to a later one
      that closes it, the clock reading `One` throughout: the fall is paired
      with the latest rise before it. */
  ghost predicate CycleFromEdges(s: Timeline, c: Cycle)
  {
    exists i, j :: 0 <= i < j < |s| && OpensCycle(s, i) && ClosesCycle(s, j) && HighFrom(s, i, j) &&
      c == (s[i].0, s[j].0)
  }

  /** The scan's level is that of the last event. */
  lemma ScanLast(s: Timeline)
    requires s != []
    ensures ScanCycles(s).last == Some(Normalize(s[|s| - 1].1))
  {
  }

  /** A run of `One`s opened at some event and reaching to the end of `s`,
      the opening event stamped `r`. */
  ghost predicate OpenRun(s: Timeline, r: int)
  {
    exists i :: 0 <= i < |s| && OpensCycle(s, i) && HighFrom(s, i, |s|) && s[i].0 == r
  }

  lemma CycleFromEdgesSnoc(s: Timeline, c: Cycle)
    requires s != [] && CycleFromEdges(s[..|s| - 1], c)
    ensures CycleFromEdges(s, c)
  {
    var p := s[..|s| - 1];
    var i, j :| 0 <= i < j < |p| && OpensCycle(p, i) && ClosesCycle(p, j) && HighFrom(p, i, j) &&
      c == (p[i].0, p[j].0);
    assert OpensCycle(s, i) && ClosesCycle(s, j) && HighFrom(s, i, j);
  }

  lemma OpenRunSnoc(s: Timeline, r: int)
    requires s != [] && OpenRun(s[..|s| - 1], r) && Normalize(s[|s| - 1].1) == One
    ensures OpenRun(s, r)
  {
    var p := s[..|s| - 1];
    var i :| 0 <= i < |p| && OpensCycle(p, i) && HighFrom(p, i, |p|) && p[i].0 == r;
    assert OpensCycle(s, i) && HighFrom(s, i, |s|);
  }

  lemma OpenRunCloses(s: Timeline, r: int)
    requires s != [] && OpenRun(s[..|s| - 1], r) && ClosesCycle(s, |s| - 1)
    ensures CycleFromEdges(s, (r, s[|s| - 1].0))
  {
    var p := s[..|s| - 1];
    var i :| 0 <= i < |p| && OpensCycle(p, i) && HighFrom(p, i, |p|) && p[i].0 == r;
    assert OpensCycle(s, i) && HighFrom(s, i, |s| - 1);
  }

  lemma {:induction false} ScanCyclesFromEdges(s: Timeline)
    ensures forall k :: 0 <= k < |ScanCycles(s).cycles| ==> CycleFromEdges(s, ScanCycles(s).cycles[k])
    ensures ScanCycles(s).pending.Some? && ScanCycles(s).last == Some(One) ==>
      OpenRun(s, ScanCycles(s).pending.value)
  {
    if s != [] {
      var n := |s| - 1;
      var p := s[..n];
      ScanCyclesFromEdges(p);
      var st, st' := ScanCycles(p), ScanCycles(s);
      var vv := Normalize(s[n].1);
      forall k | 0 <= k < |st.cycles|
        ensures CycleFromEdges(s, st.cycles[k])
      {
        CycleFromEdgesSnoc(s, st.cycles[k]);
      }
      if p != [] {
        ScanLast(p);
        assert st.last == Some(Normalize(s[n - 1].1));
        if st.last == Some(vv) {
          if st.pending.Some? && st.last == Some(One) {
            OpenRunSnoc(s, st.pending.value);
          }
        } else if vv == One {
          assert OpensCycle(s, n) && HighFrom(s, n, |s|);
        } else if vv == Zero && st.last == Some(One) && st.pending.Some? {
          OpenRunCloses(s, st.pending.value);
          assert st'.cycles == st.cycles + [(st.pending.value, s[n].0)];
        }
      }
    }
  }

  /** The cycles of a prefix of the events are a prefix of the cycles of all
      of them: the scan only ever appends. */
  lemma {:induction false} ScanCyclesPrefix(s: Timeline, n: int)
    requires 0 <= n <= |s|
    ensures ScanCycles(s[..n]).cycles <= ScanCycles(s).cycles
  {
    if n < |s| {
      var p := s[..|s| - 1];
      assert p[..n] == s[..n];
      ScanCyclesPrefix(p, n);
    } else {
      assert s[..n] == s;
    }
  }

  /** From the event that opens a cycle on through a run of `One`s, the scan
      reads `One` and holds that event's timestamp as the open rise. */
  lemma {:induction false} ScanHoldsRise(s: Timeline, i: int, m: int)
    requires 0 <= i <= m < |s| && OpensCycle(s, i) && HighFrom(s, i, m + 1)
    ensures ScanCycles(s[..m + 1]).last == Some(One)
    ensures ScanCycles(s[..m + 1]).pending == Some(s[i].0)
  {
    var q := s[..m + 1];
    assert q[..m] == s[..m];
    if m == i {
      ScanLast(s[..i]);
    } else {
      ScanHoldsRise(s, i, m - 1);
    }
  }

  /** Conversely, every fall from `One` straight to `Zero` that ends a run of
      `One`s opened by a rise closes a cycle from that rise. */
  lemma ScanCyclesComplete(s: Timeline, i: int, j: int)
    requires 0 <= i < j < |s| && OpensCycle(s, i) && ClosesCycle(s, j) && HighFrom(s, i, j)
    ensures (s[i].0, s[j].0) in ScanCycles(s).cycles
  {
    ScanHoldsRise(s, i, j - 1);
    var q := s[..j + 1];
    assert q[..j] == s[..j];
    var st := ScanCycles(q);
    assert st.cycles == ScanCycles(s[..j]).cycles + [(s[i].0, s[j].0)];
    ScanCyclesPrefix(s, j + 1);
    assert (s[i].0, s[j].0) == st.cycles[|st.cycles| - 1];
  }

  lemma {:induction false} ScanCyclesOrdered(s: Timeline)
    requires SortedByTime(s)
    ensures var st := ScanCycles(s);
      && WellFormedCycles(st.cycles)
      && (s != [] ==> forall k :: 0 <= k < |st.cycles| ==> st.cycles[k].1 <= s[|s| - 1].0)
      && (st.pending.Some? ==> s != [] && st.pending.value <= s[|s| - 1].0)
      && (st.pending.Some? ==> forall k :: 0 <= k < |st.cycles| ==> st.cycles[k].1 <= st.pending.value)
  {
    if s != [] {
      var n := |s| - 1;
      var p, e := s[..n], s[n];
      assert SortedByTime(p);
      ScanCyclesOrdered(p);
      assert ScanCycles(s) == CycleStep(ScanCycles(p), e);
      if n > 0 {
        assert p[n - 1].0 <= e.0;
      }
    }
  }

  lemma {:induction false} ScanCyclesChronological(s: Timeline)
    requires StrictlyIncreasing(s)
    ensures var st := ScanCycles(s);
      && ChronologicalCycles(st.cycles)
      && (s != [] ==> forall k :: 0 <= k < |st.cycles| ==> st.cycles[k].1 <= s[|s| - 1].0)
      && (st.pending.Some? ==> s != [] && st.pending.value <= s[|s| - 1].0)
      && (st.pending.Some? ==> forall k :: 0 <= k < |st.cycles| ==> st.cycles[k].1 < st.pending.value)
  {
    if s != [] {
      var n := |s| - 1;
      var p, e := s[..n], s[n];
      assert StrictlyIncreasing(p);
      ScanCyclesChronological(p);
      assert ScanCycles(s) == CycleStep(ScanCycles(p), e);
      if n > 0 {
        assert p[n - 1].0 < e.0;
      }
    }
  }

  /** Whatever the clock timeline, the cycles come out in order: each rises no
      later than it falls, and falls no later than the next one rises. */
  lemma SckCyclesWellFormed(tv: Timeline)
    ensures WellFormedCycles(SckCycles(tv))
  {
    SortByTimeSorted(tv);
    ScanCyclesOrdered(SortByTime(tv));
  }

  /** On a clock capture with pairwise distinct timestamps (one change per
      instant, in any capture order) every cycle has rise < fall and each
      rise is after the previous fall. */
  lemma SckCyclesChronological(tv: Timeline)
    requires DistinctTimes(tv)
    ensures ChronologicalCycles(SckCycles(tv))
  {
    SortByTimeStrict(tv);
    ScanCyclesChronological(SortByTime(tv));
  }


  /** Each cycle rises at a change to `One` that is not the first event (an
      initial `'1'` opens nothing) and falls at a later change from `One`
      straight to `Zero` (a detour through `X`/`Z` closes nothing), the clock
      reading `One` in between. */
  lemma SckCyclesFromEdges(tv: Timeline)
    ensures forall k :: 0 <= k < |SckCycles(tv)| ==> CycleFromEdges(SortByTime(tv), SckCycles(tv)[k])
  {
    ScanCyclesFromEdges(SortByTime(tv));
  }

  /** Every such rise and fall of the sorted clock events is a cycle of
      `build_sck_cycles`. */
  lemma SckCyclesComplete(tv: Timeline, i: int, j: int)
    requires 0 <= i < j < |SortByTime(tv)|
    requires OpensCycle(SortByTime(tv), i) && ClosesCycle(SortByTime(tv), j) && HighFrom(SortByTime(tv), i, j)
    ensures (SortByTime(tv)[i].0, SortByTime(tv)[j].0) in SckCycles(tv)
  {
    ScanCyclesComplete(SortByTime(tv), i, j);
  }

  /** A clean low-high-low clock is one cycle, and without the final fall it is none. */
  lemma SckCyclesExampleClean()
    ensures SckCycles([(0, Text("0")), (10, Text("1")), (20, Text("0"))]) == [(10, 20)]
    ensures SckCycles([(0, Text("0")), (10, Text("1"))]) == []
  {
    var e0: Event, e1: Event, e2: Event := (0, Text("0")), (10, Text("1")), (20, Text("0"));
    SortOfSorted([e0, e1, e2]);
    SortOfSorted([e0, e1]);
    assert [e0, e1, e2][..2] == [e0, e1] && [e0, e1][..1] == [e0] && [e0][..0] == [];
    assert ScanCycles([e0]) == CycleScan(Some(Zero), None, []);
    assert ScanCycles([e0, e1]) == CycleScan(Some(One), Some(10), []);
  }

  /** An initial `'1'` opens no cycle. */
  lemma SckCyclesExampleInitialHigh()
    ensures SckCycles([(0, Text("1")), (10, Text("0"))]) == []
  {
    var e0: Event, e1: Event := (0, Text("1")), (10, Text("0"));
    assert Normalize(e0.1) == One && Normalize(e1.1) == Zero;
    SortOfSorted([e0, e1]);
    assert [e0, e1][..1] == [e0] && [e0][..0] == [];
    assert ScanCycles([e0]) == CycleScan(Some(One), None, []);
    assert ScanCycles([e0, e1]) == CycleScan(Some(Zero), None, []);
  }

  /** A fall that passes through `'x'` closes no cycle. */
  lemma SckCyclesExampleUnknown()
    ensures SckCycles([(0, Text("0")), (10, Text("1")), (20, Text("x")), (30, Text("0"))]) == []
  {
    var e0: Event, e1: Event, e2: Event, e3: Event := (0, Text("0")), (10, Text("1")), (20, Text("x")), (30, Text("0"));
    SortOfSorted([e0, e1, e2, e3]);
    assert [e0, e1, e2, e3][..3] == [e0, e1, e2] && [e0, e1, e2][..2] == [e0, e1];
    assert [e0, e1][..1] == [e0] && [e0][..0] == [];
    assert ScanCycles([e0]) == CycleScan(Some(Zero), None, []);
    assert ScanCycles([e0, e1]) == CycleScan(Some(One), Some(10), []);
    assert ScanCycles([e0, e1, e2]) == CycleScan(Some(X), Some(10), []);
  }

  /** `build_sck_cycles`: sorts the clock events and runs the level-tracking
      scan over them. */
  method BuildSckCycles(tv: Timeline) returns (cycles: seq<Cycle>)
    ensures cycles == SckCycles(tv)
  {
    var s := SortByTime(tv);
    var last: Option<Value> := None;
    var pending: Option<int> := None;
    cycles := [];
    var i := 0;
    while i < |s|
      invariant 0 <= i <= |s|
      invariant CycleScan(last, pending, cycles) == ScanCycles(s[..i])
    {
      assert s[..i + 1][..i] == s[..i];
      var t, vv := s[i].0, Normalize(s[i].1);
      i := i + 1;
      if last.None? {
        last := Some(vv);
        continue;
      }
      if last == Some(vv) {
        continue;
      }
      if vv == One && last != Some(One) {
        pending := Some(t);
      } else if vv == Zero && last == Some(One) && pending.Some? {
        cycles := cycles + [(pending.value, t)];
        pending := None;
      }
      last := Some(vv);
    }
    assert s[..|s|] == s;
  }

  // ---------------------------------------------------------------------
  // Sampling instants
  // ---------------------------------------------------------------------

  /** `pos_ts`: the sampling instant of a host-driven bit, just after the rising
      edge of cycle `start + bit`. */
  function PosTs(cycles: seq<Cycle>, start: int, bit: int): (t: int)
    requires 0 <= start + bit < |cycles|
    ensures cycles[start + bit].0 < t
  {
    cycles[start + bit].0 + SAMPLE_EPS
  }

  /** `neg_ts`: the sampling instant of a target-driven bit, just after the
      falling edge of cycle `start + bit`. */
  function NegTs(cycles: seq<Cycle>, start: int, bit: int): (t: int)
    requires 0 <= start + bit < |cycles|
    ensures cycles[start + bit].1 < t
  {
    cycles[start + bit].1 + SAMPLE_EPS
  }

  /** `t_edge`: the boundary of bit `bit` of a 48-cycle frame; bits up to 47
      start at their rising edge, and bit 48 is the end of the frame, the
      falling edge of its last cycle. */
  function TEdge(cycles: seq<Cycle>, start: int, bit: int): int
    requires 0 <= start + (if bit <= 47 then bit else 47) < |cycles|
  {
    if bit <= 47 then cycles[start + bit].0 else cycles[start + 47].1
  }

  /** On ordered cycles the frame boundaries never go backwards, so the zones
      drawn between them do not overlap. */
  lemma TEdgeMonotone(cycles: seq<Cycle>, start: int, b0: int, b1: int)
    requires WellFormedCycles(cycles)
    requires 0 <= start && start + 48 <= |cycles|
    requires 0 <= b0 <= b1 <= 48
    ensures TEdge(cycles, start, b0) <= TEdge(cycles, start, b1)
  {
    if b0 < b1 && b1 <= 47 {
      assert cycles[start + b0].1 <= cycles[start + b1].0;
    }
  }
}
