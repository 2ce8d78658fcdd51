/** Derived lanes: waveforms computed from the captured ones, each a list of
    (time, state) changes read as a step waveform. */
module Lanes {
  import opened Values
  import opened Timelines
  import opened Clock

  /** One entry of a derived lane: from `.0` on the lane is in state `.1`. */
  type Step = (int, Value)
  type Lane = seq<Step>

  predicate Ascending(r: seq<int>)
  {
    forall i, j :: 0 <= i < j < |r| ==> r[i] < r[j]
  }

  // ---------------------------------------------------------------------
  // Change points
  // ---------------------------------------------------------------------

  /** Inserts `t` into the ascending `r` unless it is already there. */
  function InsertSorted(r: seq<int>, t: int): (q: seq<int>)
  {
    if r == [] || r[|r| - 1] < t then r + [t]
    else if r[|r| - 1] == t then r
    else InsertSorted(r[..|r| - 1], t) + [r[|r| - 1]]
  }

  lemma {:induction false} InsertSortedSpec(r: seq<int>, t: int)
    requires Ascending(r)
    ensures Ascending(InsertSorted(r, t))
    ensures forall x :: x in InsertSorted(r, t) <==> x in r || x == t
  {
    if r != [] && r[|r| - 1] > t {
      var p := r[..|r| - 1];
      var l := r[|r| - 1];
      InsertSortedSpec(p, t);
      var q := InsertSorted(p, t);
      forall x | x in q
        ensures x < l
      {
        if x != t {
          var i :| 0 <= i < |p| && p[i] == x;
          assert r[i] == x;
        }
      }
      forall x
        ensures x in q + [l] <==> x in r || x == t
      {
        assert r == p + [l];
      }
      var q' := q + [l];
      forall i, j | 0 <= i < j < |q'|
        ensures q'[i] < q'[j]
      {
        if j == |q| {
          assert q[i] in q;
        } else {
          assert q'[i] == q[i] && q'[j] == q[j];
        }
      }
    } else if r == [] || r[|r| - 1] < t {
      var q := r + [t];
      forall i, j | 0 <= i < j < |q|
        ensures q[i] < q[j]
      {
        if j == |r| {
          assert r[i] <= r[|r| - 1];
        }
      }
    }
  }

  /** The distinct elements of `xs` in ascending order (Python's `sorted`
      applied to the set of them). */
  function SortedUnique(xs: seq<int>): (r: seq<int>)
  {
    if xs == [] then [] else InsertSorted(SortedUnique(xs[..|xs| - 1]), xs[|xs| - 1])
  }

  lemma {:induction false} SortedUniqueSpec(xs: seq<int>)
    ensures Ascending(SortedUnique(xs))
    ensures forall x :: x in SortedUnique(xs) <==> x in xs
  {
    if xs != [] {
      var p := xs[..|xs| - 1];
      SortedUniqueSpec(p);
      InsertSortedSpec(SortedUnique(p), xs[|xs| - 1]);
      assert xs == p + [xs[|xs| - 1]];
    }
  }

  /** The first element of a non-empty ascending sequence is its least one. */
  lemma AscendingHead(a: seq<int>, x: int)
    requires Ascending(a) && x in a
    ensures a[0] <= x
  {
    var i :| 0 <= i < |a| && a[i] == x;
  }

  /** The tail of a non-empty ascending sequence holds every element but the first. */
  lemma AscendingTail(a: seq<int>)
    requires Ascending(a) && a != []
    ensures forall x :: x in a[1..] <==> x in a && x != a[0]
  {
    forall x | x in a && x != a[0]
      ensures x in a[1..]
    {
      var i :| 0 <= i < |a| && a[i] == x;
      assert a[1..][i - 1] == x;
    }
  }

  /** An ascending sequence is determined by its elements. */
  lemma {:induction false} AscendingUnique(a: seq<int>, b: seq<int>)
    requires Ascending(a) && Ascending(b)
    requires forall x :: x in a <==> x in b
    ensures a == b
    decreases |a|
  {
    assert a != [] ==> a[0] in a;
    assert b != [] ==> b[0] in b;
    if a != [] && b != [] {
      AscendingHead(a, b[0]);
      AscendingHead(b, a[0]);
      AscendingTail(a);
      AscendingTail(b);
      assert Ascending(a[1..]) && Ascending(b[1..]);
      AscendingUnique(a[1..], b[1..]);
      assert a == [a[0]] + a[1..] && b == [b[0]] + b[1..];
    }
  }

  /** `t` is the timestamp of some event of one of the timelines. */
  ghost predicate IsEventTime(tvs: seq<Timeline>, t: int)
  {
    exists k, i :: 0 <= k < |tvs| && 0 <= i < |tvs[k]| && tvs[k][i].0 == t
  }

  /** The timestamps of all events, timeline after timeline. */
  function Stamps(tvs: seq<Timeline>): seq<int>
  {
    if tvs == [] then []
    else
      var tv := tvs[|tvs| - 1];
      Stamps(tvs[..|tvs| - 1]) + seq(|tv|, i requires 0 <= i < |tv| => tv[i].0)
  }

  lemma {:induction false} StampsSpec(tvs: seq<Timeline>)
    ensures forall t :: t in Stamps(tvs) <==> IsEventTime(tvs, t)
  {
    if tvs != [] {
      var n := |tvs|;
      var p := tvs[..n - 1];
      var tv := tvs[n - 1];
      StampsSpec(p);
      var own := seq(|tv|, i requires 0 <= i < |tv| => tv[i].0);
      forall t
        ensures t in Stamps(tvs) <==> IsEventTime(tvs, t)
      {
        if t in own {
          var i :| 0 <= i < |tv| && own[i] == t;
          assert tvs[n - 1][i].0 == t;
        }
        if t in Stamps(p) {
          var k, i :| 0 <= k < |p| && 0 <= i < |p[k]| && p[k][i].0 == t;
          assert tvs[k][i].0 == t;
        }
        if IsEventTime(tvs, t) {
          var k, i :| 0 <= k < n && 0 <= i < |tvs[k]| && tvs[k][i].0 == t;
          if k < n - 1 {
            assert p[k][i].0 == t;
          } else {
            assert own[i] == t;
          }
        }
      }
    }
  }

  /** The instants at which any of the timelines changes. */
  function ChangeTimes(tvs: seq<Timeline>): seq<int>
  {
    SortedUnique(Stamps(tvs))
  }

  /** The change instants are every timestamp of every timeline, once each,
      in ascending order. */
  lemma ChangeTimesSpec(tvs: seq<Timeline>)
    ensures Ascending(ChangeTimes(tvs))
    ensures forall t :: t in ChangeTimes(tvs) <==> IsEventTime(tvs, t)
  {
    StampsSpec(tvs);
    SortedUniqueSpec(Stamps(tvs));
  }

  /** `t` is stamped on an event of the timelines before `tvs[k]`, or on one
      of the first `i` events of `tvs[k]`. */
  ghost predicate SeenBefore(tvs: seq<Timeline>, k: int, i: int, t: int)
    requires 0 <= k < |tvs|
  {
    || (exists k', i' :: 0 <= k' < k && 0 <= i' < |tvs[k']| && tvs[k'][i'].0 == t)
    || (exists i' :: 0 <= i' < i && i' < |tvs[k]| && tvs[k][i'].0 == t)
  }

  /** `merge_change_times`: collects the timestamps of every timeline into a
      set (an empty timeline contributes nothing) and sorts it. The set is
      kept as a sequence of distinct timestamps. */
  method MergeChangeTimes(tvs: seq<Timeline>) returns (ts: seq<int>)
    ensures ts == ChangeTimes(tvs)
  {
    var acc: seq<int> := [];
    for k := 0 to |tvs|
      invariant forall t :: t in acc <==> exists k', i' :: 0 <= k' < k && 0 <= i' < |tvs[k']| && tvs[k'][i'].0 == t
    {
      if tvs[k] == [] {
        continue;
      }
      for i := 0 to |tvs[k]|
        invariant forall t :: t in acc <==> SeenBefore(tvs, k, i, t)
      {
        var t := tvs[k][i].0;
        if t !in acc {
          acc := acc + [t];
        }
      }
    }
    ts := SortedUnique(acc);
    SortedUniqueSpec(acc);
    ChangeTimesSpec(tvs);
    AscendingUnique(ts, ChangeTimes(tvs));
  }

  // ---------------------------------------------------------------------
  // Compressing samples into changes
  // ---------------------------------------------------------------------

  /** The state a lane shows at time `t` when drawn as a step waveform: that of
      its last entry at or before `t`, none before its first entry. */
  function HeldAt(lane: Lane, t: int): Option<Value>
  {
    if lane == [] then None
    else if lane[|lane| - 1].0 <= t then Some(lane[|lane| - 1].1)
    else HeldAt(lane[..|lane| - 1], t)
  }

  /** Appends a sample to a lane unless the lane already ends in that state
      (the `if v != last: out.append((t, v))` step). */
  function Push(lane: Lane, e: Step): Lane
  {
    if lane != [] && lane[|lane| - 1].1 == e.1 then lane else lane + [e]
  }

  /** The changes of a sequence of samples: every sample whose state differs
      from the previously kept one. */
  function Compress(samples: seq<Step>): Lane
  {
    if samples == [] then []
    else Push(Compress(samples[..|samples| - 1]), samples[|samples| - 1])
  }

  /** The state a lane ends in, none for the empty lane (the `last` of the
      derivation loops). */
  function LastState(lane: Lane): Option<Value>
  {
    if lane == [] then None else Some(lane[|lane| - 1].1)
  }

  lemma PushByLast(lane: Lane, e: Step)
    ensures Push(lane, e) == if LastState(lane) != Some(e.1) then lane + [e] else lane
    ensures LastState(Push(lane, e)) == Some(e.1)
  {
  }

  lemma CompressAppend(s: seq<Step>, e: Step)
    ensures Compress(s + [e]) == Push(Compress(s), e)
  {
    assert (s + [e])[..|s|] == s;
  }

  predicate StrictTimes(lane: seq<Step>)
  {
    forall i, j :: 0 <= i < j < |lane| ==> lane[i].0 < lane[j].0
  }

  /** No two consecutive entries of the lane hold the same state. */
  predicate Changes(lane: Lane)
  {
    forall i :: 0 < i < |lane| ==> lane[i - 1].1 != lane[i].1
  }

  /** What is kept is a selection of the samples, the first sample is always
      kept, and the lane ends in the state of the last sample. */
  lemma {:induction false} CompressKeeps(samples: seq<Step>)
    ensures |Compress(samples)| <= |samples|
    ensures Compress(samples) == [] <==> samples == []
    ensures forall j :: 0 <= j < |Compress(samples)| ==> Compress(samples)[j] in samples
    ensures samples != [] ==> Compress(samples)[0] == samples[0]
    ensures samples != [] ==> Compress(samples)[|Compress(samples)| - 1].1 == samples[|samples| - 1].1
  {
    if samples != [] {
      var p := samples[..|samples| - 1];
      CompressKeeps(p);
      var c := Compress(p);
      forall j | 0 <= j < |c|
        ensures c[j] in samples
      {
        assert c[j] in p;
      }
      if p != [] {
        assert p[0] == samples[0];
      }
    }
  }

  /** Consecutive entries of a compressed lane always differ. */
  lemma {:induction false} CompressChanges(samples: seq<Step>)
    ensures Changes(Compress(samples))
  {
    if samples != [] {
      CompressChanges(samples[..|samples| - 1]);
    }
  }

  /** Sample times never decrease, and samples taken at the same time hold
      the same state. Strictly increasing times are the special case with no
      ties. */
  predicate InTimeOrder(samples: seq<Step>)
  {
    forall i, j :: 0 <= i < j < |samples| ==>
      samples[i].0 <= samples[j].0 && (samples[i].0 == samples[j].0 ==> samples[i].1 == samples[j].1)
  }

  lemma InTimeOrderPrefix(samples: seq<Step>)
    requires samples != [] && InTimeOrder(samples)
    ensures InTimeOrder(samples[..|samples| - 1])
  {
    var p := samples[..|samples| - 1];
    forall i, j | 0 <= i < j < |p|
      ensures p[i].0 <= p[j].0 && (p[i].0 == p[j].0 ==> p[i].1 == p[j].1)
    {
      assert p[i] == samples[i] && p[j] == samples[j];
    }
  }

  lemma StrictSnoc(lane: seq<Step>, e: Step)
    requires StrictTimes(lane)
    requires lane != [] ==> lane[|lane| - 1].0 < e.0
    ensures StrictTimes(lane + [e])
  {
    var q := lane + [e];
    forall i, j | 0 <= i < j < |q|
      ensures q[i].0 < q[j].0
    {
      if j == |lane| && i < |lane| - 1 {
        assert lane[i].0 < lane[|lane| - 1].0;
      }
    }
  }

  /** When a sample in time order is kept, the lane so far ended strictly
      before it: an entry at the same instant would hold the same state. */
  lemma KeptAfterLast(samples: seq<Step>)
    requires samples != [] && InTimeOrder(samples)
    requires var c := Compress(samples[..|samples| - 1]);
      c != [] && c[|c| - 1].1 != samples[|samples| - 1].1
    ensures var c := Compress(samples[..|samples| - 1]);
      c[|c| - 1].0 < samples[|samples| - 1].0
  {
    var p := samples[..|samples| - 1];
    var c := Compress(p);
    CompressKeeps(p);
    assert c[|c| - 1] in p;
    var m :| 0 <= m < |p| && p[m] == c[|c| - 1];
    assert samples[m] == c[|c| - 1];
  }

  /** Samples in time order give a lane with strictly increasing times: of
      several samples at one instant at most one is kept, since they all hold
      the same state. */
  lemma {:induction false} CompressStrictTimes(samples: seq<Step>)
    requires InTimeOrder(samples)
    ensures StrictTimes(Compress(samples))
  {
    if samples != [] {
      var p := samples[..|samples| - 1];
      var e := samples[|samples| - 1];
      InTimeOrderPrefix(samples);
      CompressStrictTimes(p);
      var c := Compress(p);
      if Compress(samples) != c {
        assert Compress(samples) == c + [e];
        if c != [] {
          KeptAfterLast(samples);
        }
        StrictSnoc(c, e);
      }
    }
  }

  lemma {:induction false} HeldAtNone(lane: Lane, t: int)
    requires forall j :: 0 <= j < |lane| ==> lane[j].0 > t
    ensures HeldAt(lane, t) == None
  {
    if lane != [] {
      HeldAtNone(lane[..|lane| - 1], t);
    }
  }

  /** Before the first sample a compressed lane shows nothing. */
  lemma CompressBefore(samples: seq<Step>, t: int)
    requires forall k :: 0 <= k < |samples| ==> samples[k].0 > t
    ensures HeldAt(Compress(samples), t) == None
  {
    CompressKeeps(samples);
    var c := Compress(samples);
    forall j | 0 <= j < |c|
      ensures c[j].0 > t
    {
      var i :| 0 <= i < |samples| && samples[i] == c[j];
    }
    HeldAtNone(c, t);
  }

  /** From a sample up to (not including) the next one, the compressed lane
      shows that sample's state: compressing loses nothing of the waveform. */
  lemma {:induction false} CompressAt(samples: seq<Step>, k: int, t: int)
    requires InTimeOrder(samples)
    requires 0 <= k < |samples| && samples[k].0 <= t
    requires k + 1 < |samples| ==> t < samples[k + 1].0
    ensures HeldAt(Compress(samples), t) == Some(samples[k].1)
  {
    var n := |samples|;
    var p := samples[..n - 1];
    var e := samples[n - 1];
    var c := Compress(p);
    if k == n - 1 {
      if c != [] && c[|c| - 1].1 == e.1 {
        CompressKeeps(p);
        var i :| 0 <= i < |p| && p[i] == c[|c| - 1];
        assert samples[i].0 <= e.0;
      }
    } else {
      InTimeOrderPrefix(samples);
      assert t < e.0;
      CompressAt(p, k, t);
      assert Compress(samples) == c || Compress(samples) == c + [e];
      if Compress(samples) == c + [e] {
        assert (c + [e])[..|c|] == c;
      }
    }
  }

  // ---------------------------------------------------------------------
  // Nothing changes between change points
  // ---------------------------------------------------------------------

  /** Some timeline has an event at or before `t`. */
  ghost predicate Started(tvs: seq<Timeline>, t: int)
  {
    exists k, i :: 0 <= k < |tvs| && 0 <= i < |tvs[k]| && tvs[k][i].0 <= t
  }

  /** Before the first event of any timeline, every change point is later than `t`. */
  lemma NotStarted(tvs: seq<Timeline>, t: int)
    requires !Started(tvs, t)
    ensures forall m :: 0 <= m < |ChangeTimes(tvs)| ==> ChangeTimes(tvs)[m] > t
  {
    var pts := ChangeTimes(tvs);
    ChangeTimesSpec(tvs);
    forall m | 0 <= m < |pts|
      ensures pts[m] > t
    {
      assert pts[m] in pts;
      var k, i :| 0 <= k < |tvs| && 0 <= i < |tvs[k]| && tvs[k][i].0 == pts[m];
    }
  }

  /** From the last change point at or before `t` up to `t`, no timeline has
      an event, so every timeline reads at `t` what it read at that point. */
  lemma LastChange(tvs: seq<Timeline>, t: int) returns (k: int)
    requires Started(tvs, t)
    ensures 0 <= k < |ChangeTimes(tvs)| && ChangeTimes(tvs)[k] <= t
    ensures k + 1 < |ChangeTimes(tvs)| ==> t < ChangeTimes(tvs)[k + 1]
    ensures forall j :: 0 <= j < |tvs| ==> ValueAt(tvs[j], t) == ValueAt(tvs[j], ChangeTimes(tvs)[k])
  {
    var pts := ChangeTimes(tvs);
    ChangeTimesSpec(tvs);
    var k0, i0 :| 0 <= k0 < |tvs| && 0 <= i0 < |tvs[k0]| && tvs[k0][i0].0 <= t;
    assert IsEventTime(tvs, tvs[k0][i0].0);
    assert pts != [] && pts[0] <= t by {
      var m :| 0 <= m < |pts| && pts[m] == tvs[k0][i0].0;
      assert pts[0] <= pts[m];
    }
    k := 0;
    while k + 1 < |pts| && pts[k + 1] <= t
      invariant 0 <= k < |pts| && pts[k] <= t
    {
      k := k + 1;
    }
    forall j | 0 <= j < |tvs|
      ensures ValueAt(tvs[j], t) == ValueAt(tvs[j], pts[k])
    {
      forall i | 0 <= i < |tvs[j]|
        ensures !(pts[k] < tvs[j][i].0 <= t)
      {
        var u := tvs[j][i].0;
        assert IsEventTime(tvs, u);
        var m :| 0 <= m < |pts| && pts[m] == u;
        if m <= k {
          assert u <= pts[k];
        } else {
          assert pts[k + 1] <= u;
        }
      }
      ValueAtSteady(tvs[j], pts[k], t);
    }
  }

  lemma SampledStrictTimes(pts: seq<int>, samples: seq<Step>)
    requires Ascending(pts)
    requires |samples| == |pts| && forall i :: 0 <= i < |pts| ==> samples[i].0 == pts[i]
    ensures StrictTimes(samples) && InTimeOrder(samples)
  {
  }

  // ---------------------------------------------------------------------
  // Target drive
  // ---------------------------------------------------------------------

  /** What the target puts on the line at `t` (`target_drive = tb_en ? tb_val
      : Z`): it drives exactly while `tb_en` reads `'1'`, and then drives the
      value of `tb_val`, or `X` when that is not a defined bit. */
  function TargetDriveAt(tbEn: Timeline, tbVal: Timeline, t: int): (v: Value)
    ensures v == Z <==> ValueAt(tbEn, t) != One
    ensures v != Z ==> (IsBit(v) <==> IsBit(ValueAt(tbVal, t)))
    ensures IsBit(v) ==> v == ValueAt(tbVal, t)
  {
    if ValueAt(tbEn, t) == One then Clamp(ValueAt(tbVal, t)) else Z
  }

  /** The target drive at each of the instants `pts`. */
  function TargetSamples(tbEn: Timeline, tbVal: Timeline, pts: seq<int>): (r: seq<Step>)
    ensures |r| == |pts|
  {
    if pts == [] then []
    else
      var t := pts[|pts| - 1];
      TargetSamples(tbEn, tbVal, pts[..|pts| - 1]) + [(t, TargetDriveAt(tbEn, tbVal, t))]
  }

  lemma TargetSamplesSnoc(tbEn: Timeline, tbVal: Timeline, pts: seq<int>, i: int)
    requires 0 <= i < |pts|
    ensures TargetSamples(tbEn, tbVal, pts[..i + 1]) ==
      TargetSamples(tbEn, tbVal, pts[..i]) + [(pts[i], TargetDriveAt(tbEn, tbVal, pts[i]))]
  {
    assert pts[..i + 1][..i] == pts[..i];
  }

  lemma {:induction false} TargetSamplesAt(tbEn: Timeline, tbVal: Timeline, pts: seq<int>)
    ensures forall k :: 0 <= k < |pts| ==>
      TargetSamples(tbEn, tbVal, pts)[k] == (pts[k], TargetDriveAt(tbEn, tbVal, pts[k]))
  {
    if pts != [] {
      TargetSamplesAt(tbEn, tbVal, pts[..|pts| - 1]);
    }
  }

  /** `derive_target_drive_tv`: the target drive sampled at every change of
      `tb_en` or `tb_val`, keeping the changes; empty exactly when either
      input is. */
  function TargetDriveLane(tbEn: Timeline, tbVal: Timeline): (lane: Lane)
    ensures lane == [] <==> tbEn == [] || tbVal == []
  {
    if tbEn == [] || tbVal == [] then []
    else
      var pts := ChangeTimes([tbEn, tbVal]);
      ChangeTimesSpec([tbEn, tbVal]);
      assert IsEventTime([tbEn, tbVal], tbEn[0].0) by {
        assert [tbEn, tbVal][0][0].0 == tbEn[0].0;
      }
      CompressKeeps(TargetSamples(tbEn, tbVal, pts));
      Compress(TargetSamples(tbEn, tbVal, pts))
  }

  /** The target-drive lane changes at strictly increasing times and each
      entry changes the state. */
  lemma TargetDriveLaneShape(tbEn: Timeline, tbVal: Timeline)
    ensures StrictTimes(TargetDriveLane(tbEn, tbVal)) && Changes(TargetDriveLane(tbEn, tbVal))
  {
    if tbEn != [] && tbVal != [] {
      var pts := ChangeTimes([tbEn, tbVal]);
      ChangeTimesSpec([tbEn, tbVal]);
      TargetSamplesAt(tbEn, tbVal, pts);
      SampledStrictTimes(pts, TargetSamples(tbEn, tbVal, pts));
      CompressStrictTimes(TargetSamples(tbEn, tbVal, pts));
      CompressChanges(TargetSamples(tbEn, tbVal, pts));
    }
  }

  /** Read as a step waveform, the target-drive lane equals the target drive
      at every instant from the first event of `tb_en` or `tb_val` on, and
      shows nothing before it. */
  lemma TargetDriveLaneAt(tbEn: Timeline, tbVal: Timeline, t: int)
    requires tbEn != [] && tbVal != []
    ensures HeldAt(TargetDriveLane(tbEn, tbVal), t) ==
      if Started([tbEn, tbVal], t) then Some(TargetDriveAt(tbEn, tbVal, t)) else None
  {
    var tvs := [tbEn, tbVal];
    var pts := ChangeTimes(tvs);
    ChangeTimesSpec(tvs);
    var samples := TargetSamples(tbEn, tbVal, pts);
    TargetSamplesAt(tbEn, tbVal, pts);
    if Started(tvs, t) {
      var k := LastChange(tvs, t);
      assert tvs[0] == tbEn && tvs[1] == tbVal;
      SampledStrictTimes(pts, samples);
      CompressAt(samples, k, t);
    } else {
      NotStarted(tvs, t);
      CompressBefore(samples, t);
    }
  }

  /** One step of `derive_target_drive_tv`: the target drive at `t`, read
      off the captured timelines. */
  method TargetDriveScan(tbEn: Timeline, tbVal: Timeline, t: int) returns (v: Value)
    ensures v == TargetDriveAt(tbEn, tbVal, t)
  {
    var en := ValueAtScan(tbEn, t);
    if en == One {
      v := ValueAtScan(tbVal, t);
      v := if v == Zero || v == One then v else X;
    } else {
      v := Z;
    }
  }

  /** `derive_target_drive_tv`, sampling at each change point and appending
      a change whenever the state differs from the last one appended. */
  method DeriveTargetDrive(tbEn: Timeline, tbVal: Timeline) returns (out: Lane)
    ensures out == TargetDriveLane(tbEn, tbVal)
  {
    if tbEn == [] || tbVal == [] {
      return [];
    }
    var pts := MergeChangeTimes([tbEn, tbVal]);
    out := [];
    var last: Option<Value> := None;
    for i := 0 to |pts|
      invariant out == Compress(TargetSamples(tbEn, tbVal, pts[..i]))
      invariant last == LastState(out)
    {
      var t := pts[i];
      var v := TargetDriveScan(tbEn, tbVal, t);
      TargetSamplesSnoc(tbEn, tbVal, pts, i);
      CompressAppend(TargetSamples(tbEn, tbVal, pts[..i]), (t, v));
      PushByLast(out, (t, v));
      if last != Some(v) {
        out := out + [(t, v)];
        last := Some(v);
      }
    }
    assert pts[..|pts|] == pts;
  }

  // ---------------------------------------------------------------------
  // Host drive on the wire
  // ---------------------------------------------------------------------

  /** What the host puts on the line at `t`: released (`Z`) while the target
      drives (`tb_en` present and reading `'1'`) or while the bus reads `Z`,
      otherwise the host output, or `X` when that is not a defined bit. */
  function HostDriveAt(mosi: Timeline, swdio: Timeline, tbEn: Timeline, t: int): (v: Value)
    ensures v == Z <==> (tbEn != [] && ValueAt(tbEn, t) == One) || ValueAt(swdio, t) == Z
    ensures v != Z ==> (IsBit(v) <==> IsBit(ValueAt(mosi, t)))
    ensures IsBit(v) ==> v == ValueAt(mosi, t)
  {
    if tbEn != [] && ValueAt(tbEn, t) == One then Z
    else if ValueAt(swdio, t) == Z then Z
    else Clamp(ValueAt(mosi, t))
  }

  /** The host drive at each of the instants `pts`. */
  function HostSamples(mosi: Timeline, swdio: Timeline, tbEn: Timeline, pts: seq<int>): (r: seq<Step>)
    ensures |r| == |pts|
  {
    if pts == [] then []
    else
      var t := pts[|pts| - 1];
      HostSamples(mosi, swdio, tbEn, pts[..|pts| - 1]) + [(t, HostDriveAt(mosi, swdio, tbEn, t))]
  }

  lemma HostSamplesSnoc(mosi: Timeline, swdio: Timeline, tbEn: Timeline, pts: seq<int>, i: int)
    requires 0 <= i < |pts|
    ensures HostSamples(mosi, swdio, tbEn, pts[..i + 1]) ==
      HostSamples(mosi, swdio, tbEn, pts[..i]) + [(pts[i], HostDriveAt(mosi, swdio, tbEn, pts[i]))]
  {
    assert pts[..i + 1][..i] == pts[..i];
  }

  lemma {:induction false} HostSamplesAt(mosi: Timeline, swdio: Timeline, tbEn: Timeline, pts: seq<int>)
    ensures forall k :: 0 <= k < |pts| ==>
      HostSamples(mosi, swdio, tbEn, pts)[k] == (pts[k], HostDriveAt(mosi, swdio, tbEn, pts[k]))
  {
    if pts != [] {
      HostSamplesAt(mosi, swdio, tbEn, pts[..|pts| - 1]);
    }
  }

  /** `derive_host_drive_on_wire_tv`: the host drive sampled at every change
      of the host output, the bus or (when present) `tb_en`, keeping the
      changes; empty exactly when the host output or the bus is. An absent
      `tb_en` is the empty timeline. */
  function HostDriveLane(mosi: Timeline, swdio: Timeline, tbEn: Timeline): (lane: Lane)
    ensures lane == [] <==> mosi == [] || swdio == []
  {
    if mosi == [] || swdio == [] then []
    else
      var pts := ChangeTimes([mosi, swdio, tbEn]);
      ChangeTimesSpec([mosi, swdio, tbEn]);
      assert IsEventTime([mosi, swdio, tbEn], mosi[0].0) by {
        assert [mosi, swdio, tbEn][0][0].0 == mosi[0].0;
      }
      CompressKeeps(HostSamples(mosi, swdio, tbEn, pts));
      Compress(HostSamples(mosi, swdio, tbEn, pts))
  }

  /** The host-drive lane changes at strictly increasing times and each entry
      changes the state. */
  lemma HostDriveLaneShape(mosi: Timeline, swdio: Timeline, tbEn: Timeline)
    ensures StrictTimes(HostDriveLane(mosi, swdio, tbEn)) && Changes(HostDriveLane(mosi, swdio, tbEn))
  {
    if mosi != [] && swdio != [] {
      var pts := ChangeTimes([mosi, swdio, tbEn]);
      ChangeTimesSpec([mosi, swdio, tbEn]);
      HostSamplesAt(mosi, swdio, tbEn, pts);
      SampledStrictTimes(pts, HostSamples(mosi, swdio, tbEn, pts));
      CompressStrictTimes(HostSamples(mosi, swdio, tbEn, pts));
      CompressChanges(HostSamples(mosi, swdio, tbEn, pts));
    }
  }

  /** Read as a step waveform, the host-drive lane equals the host drive at
      every instant from the first event of its inputs on, and shows nothing
      before it. */
  lemma HostDriveLaneAt(mosi: Timeline, swdio: Timeline, tbEn: Timeline, t: int)
    requires mosi != [] && swdio != []
    ensures HeldAt(HostDriveLane(mosi, swdio, tbEn), t) ==
      if Started([mosi, swdio, tbEn], t) then Some(HostDriveAt(mosi, swdio, tbEn, t)) else None
  {
    var tvs := [mosi, swdio, tbEn];
    var pts := ChangeTimes(tvs);
    ChangeTimesSpec(tvs);
    var samples := HostSamples(mosi, swdio, tbEn, pts);
    HostSamplesAt(mosi, swdio, tbEn, pts);
    if Started(tvs, t) {
      var k := LastChange(tvs, t);
      assert tvs[0] == mosi && tvs[1] == swdio && tvs[2] == tbEn;
      SampledStrictTimes(pts, samples);
      CompressAt(samples, k, t);
    } else {
      NotStarted(tvs, t);
      CompressBefore(samples, t);
    }
  }

  /** One step of `derive_host_drive_on_wire_tv`: the host drive at `t`,
      read off the captured timelines. */
  method HostDriveScan(mosi: Timeline, swdio: Timeline, tbEn: Timeline, t: int) returns (v: Value)
    ensures v == HostDriveAt(mosi, swdio, tbEn, t)
  {
    var en := Zero;
    if tbEn != [] {
      en := ValueAtScan(tbEn, t);
    }
    if tbEn != [] && en == One {
      v := Z;
    } else {
      var bus := ValueAtScan(swdio, t);
      if bus == Z {
        v := Z;
      } else {
        var mv := ValueAtScan(mosi, t);
        v := if mv == Zero || mv == One then mv else X;
      }
    }
  }

  /** `derive_host_drive_on_wire_tv`, sampling at each change point and
      appending a change whenever the state differs from the last one. */
  method DeriveHostDriveOnWire(mosi: Timeline, swdio: Timeline, tbEn: Timeline) returns (out: Lane)
    ensures out == HostDriveLane(mosi, swdio, tbEn)
  {
    if mosi == [] || swdio == [] {
      return [];
    }
    var pts := MergeChangeTimes([mosi, swdio, tbEn]);
    out := [];
    var last: Option<Value> := None;
    for i := 0 to |pts|
      invariant out == Compress(HostSamples(mosi, swdio, tbEn, pts[..i]))
      invariant last == LastState(out)
    {
      var t := pts[i];
      var v := HostDriveScan(mosi, swdio, tbEn, t);
      HostSamplesSnoc(mosi, swdio, tbEn, pts, i);
      CompressAppend(HostSamples(mosi, swdio, tbEn, pts[..i]), (t, v));
      PushByLast(out, (t, v));
      if last != Some(v) {
        out := out + [(t, v)];
        last := Some(v);
      }
    }
    assert pts[..|pts|] == pts;
  }

  // ---------------------------------------------------------------------
  // Sample and hold on clock cycles
  // ---------------------------------------------------------------------

  /** Which clock edge a sample-hold lane follows. */
  datatype Edge = Pos | Neg

  /** The instant the held value is updated: the rising edge for `Pos`, the
      falling edge for `Neg`. */
  function UpdateTime(c: Cycle, edge: Edge): int
  {
    if edge == Pos then c.0 else c.1
  }

  /** The signal sampled just after the chosen edge of one cycle, stamped at the edge. */
  function HoldSample(c: Cycle, sig: Timeline, edge: Edge): Step
  {
    (UpdateTime(c, edge), ValueAt(sig, UpdateTime(c, edge) + SAMPLE_EPS))
  }

  function HoldSamples(cycles: seq<Cycle>, sig: Timeline, edge: Edge): (r: seq<Step>)
    ensures |r| == |cycles|
  {
    if cycles == [] then []
    else HoldSamples(cycles[..|cycles| - 1], sig, edge) + [HoldSample(cycles[|cycles| - 1], sig, edge)]
  }

  lemma HoldSamplesSnoc(cycles: seq<Cycle>, sig: Timeline, edge: Edge, i: int)
    requires 0 <= i < |cycles|
    ensures HoldSamples(cycles[..i + 1], sig, edge) ==
      HoldSamples(cycles[..i], sig, edge) + [HoldSample(cycles[i], sig, edge)]
  {
    assert cycles[..i + 1][..i] == cycles[..i];
  }

  lemma {:induction false} HoldSamplesAt(cycles: seq<Cycle>, sig: Timeline, edge: Edge)
    ensures forall k :: 0 <= k < |cycles| ==>
      HoldSamples(cycles, sig, edge)[k] == HoldSample(cycles[k], sig, edge)
  {
    if cycles != [] {
      HoldSamplesAt(cycles[..|cycles| - 1], sig, edge);
    }
  }

  /** `derive_sample_hold_tv_from_cycles`: the signal sampled just after the
      chosen edge of every cycle, updated at the edge, keeping the changes;
      empty exactly when there are no cycles or no signal. */
  function SampleHoldLane(cycles: seq<Cycle>, sig: Timeline, edge: Edge): (lane: Lane)
    ensures lane == [] <==> cycles == [] || sig == []
  {
    if cycles == [] || sig == [] then []
    else
      CompressKeeps(HoldSamples(cycles, sig, edge));
      Compress(HoldSamples(cycles, sig, edge))
  }

  /** On well-formed cycles the update instants never decrease, and two
      cycles updated at the same instant sample the signal at the same
      instant, so they hold the same state. */
  lemma HoldSamplesInTimeOrder(cycles: seq<Cycle>, sig: Timeline, edge: Edge)
    requires WellFormedCycles(cycles)
    ensures InTimeOrder(HoldSamples(cycles, sig, edge))
  {
    var s := HoldSamples(cycles, sig, edge);
    HoldSamplesAt(cycles, sig, edge);
    forall i, j | 0 <= i < j < |s|
      ensures s[i].0 <= s[j].0 && (s[i].0 == s[j].0 ==> s[i].1 == s[j].1)
    {
      assert cycles[i].0 <= cycles[i].1 <= cycles[j].0 <= cycles[j].1;
    }
  }

  /** Each entry of a sample-hold lane changes the state, and on well-formed
      cycles the entries are at strictly increasing times. */
  lemma SampleHoldLaneShape(cycles: seq<Cycle>, sig: Timeline, edge: Edge)
    ensures Changes(SampleHoldLane(cycles, sig, edge))
    ensures WellFormedCycles(cycles) ==> StrictTimes(SampleHoldLane(cycles, sig, edge))
  {
    if cycles != [] && sig != [] {
      CompressChanges(HoldSamples(cycles, sig, edge));
      if WellFormedCycles(cycles) {
        HoldSamplesInTimeOrder(cycles, sig, edge);
        CompressStrictTimes(HoldSamples(cycles, sig, edge));
      }
    }
  }

  /** The sample-hold lanes built on the cycles of any clock timeline have
      strictly increasing times, zero-length cycles included. */
  lemma SampleHoldOnClock(sck: Timeline, sig: Timeline, edge: Edge)
    ensures StrictTimes(SampleHoldLane(SckCycles(sck), sig, edge))
  {
    SckCyclesWellFormed(sck);
    SampleHoldLaneShape(SckCycles(sck), sig, edge);
  }

  /** On well-formed cycles the sample-hold lane, read as a step waveform,
      holds from each cycle's edge until the next cycle's edge the value the
      signal had just after that edge. */
  lemma SampleHoldLaneAt(cycles: seq<Cycle>, sig: Timeline, edge: Edge, k: int, t: int)
    requires WellFormedCycles(cycles) && sig != []
    requires 0 <= k < |cycles| && UpdateTime(cycles[k], edge) <= t
    requires k + 1 < |cycles| ==> t < UpdateTime(cycles[k + 1], edge)
    ensures HeldAt(SampleHoldLane(cycles, sig, edge), t) ==
      Some(ValueAt(sig, UpdateTime(cycles[k], edge) + SAMPLE_EPS))
  {
    var s := HoldSamples(cycles, sig, edge);
    HoldSamplesInTimeOrder(cycles, sig, edge);
    HoldSamplesAt(cycles, sig, edge);
    CompressAt(s, k, t);
  }

  lemma SampleHoldLaneBefore(cycles: seq<Cycle>, sig: Timeline, edge: Edge, t: int)
    requires forall k :: 0 <= k < |cycles| ==> t < UpdateTime(cycles[k], edge)
    ensures HeldAt(SampleHoldLane(cycles, sig, edge), t) == None
  {
    if cycles != [] && sig != [] {
      HoldSamplesAt(cycles, sig, edge);
      CompressBefore(HoldSamples(cycles, sig, edge), t);
    }
  }

  /** `derive_sample_hold_tv_from_cycles`, one sample per cycle, appending a
      change whenever the sampled state differs from the last one. */
  method DeriveSampleHold(cycles: seq<Cycle>, sig: Timeline, edge: Edge) returns (out: Lane)
    ensures out == SampleHoldLane(cycles, sig, edge)
  {
    if cycles == [] || sig == [] {
      return [];
    }
    out := [];
    var last: Option<Value> := None;
    for i := 0 to |cycles|
      invariant out == Compress(HoldSamples(cycles[..i], sig, edge))
      invariant last == LastState(out)
    {
      var tp := cycles[i].0;
      var tn := cycles[i].1;
      var tUpd: int;
      var tSmp: int;
      if edge == Pos {
        tUpd := tp;
        tSmp := tp + SAMPLE_EPS;
      } else {
        tUpd := tn;
        tSmp := tn + SAMPLE_EPS;
      }
      var v := ValueAtScan(sig, tSmp);
      assert (tUpd, v) == HoldSample(cycles[i], sig, edge);
      HoldSamplesSnoc(cycles, sig, edge, i);
      CompressAppend(HoldSamples(cycles[..i], sig, edge), (tUpd, v));
      PushByLast(out, (tUpd, v));
      if last != Some(v) {
        out := out + [(tUpd, v)];
        last := Some(v);
      }
    }
    assert cycles[..|cycles|] == cycles;
  }
}
