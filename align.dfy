/** Locating frames in a capture: the plausibility score of a candidate
    start cycle, the search for the best-scoring start after each reset,
    and the gate in front of the search that decides whether a capture is
    annotated at all. */
module Align {
  import opened Values
  import opened Timelines
  import opened Clock
  import opened Decode

  /** One point for each of the two idle bits before the request (offsets 0
      and 1) that the host output shows as `'0'`. */
  function PadPoints(cycles: seq<Cycle>, start: nat, mosi: Timeline): (r: nat)
    requires start + 2 <= |cycles|
    ensures r <= 2
    ensures r == 2 <==> ValueAt(mosi, PosTs(cycles, start, 0)) == Zero && ValueAt(mosi, PosTs(cycles, start, 1)) == Zero
  {
    (if ValueAt(mosi, PosTs(cycles, start, 0)) == Zero then 1 else 0) +
    (if ValueAt(mosi, PosTs(cycles, start, 1)) == Zero then 1 else 0)
  }

  /** Points for the turnaround bit (offset 10): two when the bus is released
      there; otherwise one only when the testbench enable is present and
      reads `'0'` (the target is not driving). */
  function TurnaroundPoints(cycles: seq<Cycle>, start: nat, w: Wires): (r: nat)
    requires start + 11 <= |cycles|
    ensures r == 2 <==> ValueAt(w.swdio, NegTs(cycles, start, 10)) == Z
    ensures r == 1 <==>
      ValueAt(w.swdio, NegTs(cycles, start, 10)) != Z && w.tbEn != [] && ValueAt(w.tbEn, NegTs(cycles, start, 10)) == Zero
    ensures r <= 2
  {
    if ValueAt(w.swdio, NegTs(cycles, start, 10)) == Z then 2
    else if w.tbEn != [] && ValueAt(w.tbEn, NegTs(cycles, start, 10)) == Zero then 1
    else 0
  }

  /** One point for each ACK bit (offsets 11..13) the target gives as a
      defined bit. */
  function DefinedAckPoints(cycles: seq<Cycle>, start: nat, w: Wires): (r: nat)
    requires start + 14 <= |cycles|
    ensures r <= 3
    ensures r == 3 <==> forall j :: 11 <= j < 14 ==> IsBit(TargetBitAt(cycles, start, j, w))
  {
    (if IsBit(TargetBitAt(cycles, start, 11, w)) then 1 else 0) +
    (if IsBit(TargetBitAt(cycles, start, 12, w)) then 1 else 0) +
    (if IsBit(TargetBitAt(cycles, start, 13, w)) then 1 else 0)
  }

  /** `frame_score`: how much the cycles from `start` on look like a frame
      header, with the ACK code they carry. A recognised ACK is worth eight
      points and brings its three defined bits with it, so every candidate
      with a recognised ACK scores at least 11 and every other at most 7;
      the full 15 needs idle bits `'0'`, a released bus at the turnaround
      and a recognised ACK. */
  function FrameScore(cycles: seq<Cycle>, start: nat, w: Wires): (r: (int, string))
    requires start + 14 <= |cycles|
    ensures r.1 == DecodeAck(cycles, start, w).1
    ensures 0 <= r.0 <= 15
    ensures AckRecognised(r.1) ==> r.0 >= 11
    ensures !AckRecognised(r.1) ==> r.0 <= 7
    ensures r.0 == 15 <==>
      PadPoints(cycles, start, w.mosi) == 2 && ValueAt(w.swdio, NegTs(cycles, start, 10)) == Z && AckRecognised(r.1)
  {
    var ack := DecodeAck(cycles, start, w);
    var code := if AckRecognised(ack.1) then 8 else 0;
    (PadPoints(cycles, start, w.mosi) + TurnaroundPoints(cycles, start, w) + code + DefinedAckPoints(cycles, start, w),
     ack.1)
  }

  /** With the default threshold of 8, a candidate is accepted exactly when
      its ACK is one of the three codes the protocol defines. */
  lemma DefaultThreshold(cycles: seq<Cycle>, start: nat, w: Wires)
    requires start + 14 <= |cycles|
    ensures FrameScore(cycles, start, w).0 >= 8 <==> AckRecognised(FrameScore(cycles, start, w).1)
  {
    var r := FrameScore(cycles, start, w);
    if AckRecognised(r.1) {
      assert r.0 >= 11;
    } else {
      assert r.0 <= 7;
    }
  }

  /** The index of the first cycle that rises after `t0`, if there is one. */
  function FirstRiseAfter(cycles: seq<Cycle>, t0: int): (r: Option<nat>)
    ensures r.Some? ==> r.value < |cycles| && cycles[r.value].0 > t0
    ensures r.Some? ==> forall i :: 0 <= i < r.value ==> cycles[i].0 <= t0
    ensures r.None? ==> forall i :: 0 <= i < |cycles| ==> cycles[i].0 <= t0
  {
    if cycles == [] then None
    else if cycles[0].0 > t0 then Some(0)
    else
      match FirstRiseAfter(cycles[1..], t0)
      case None => None
      case Some(k) => Some(k + 1)
  }

  /** How many shifts the search tries after `base`: at most `maxShift`, and
      only those whose 48 cycles all exist. */
  function Shifts(n: nat, base: nat, maxShift: int): (k: nat)
    ensures k == 0 <==> maxShift <= 0 || base + 48 > n
    ensures k > 0 ==> k <= maxShift && base + k + 47 <= n
    ensures k > 0 ==> k == maxShift || base + k + 47 == n
  {
    if maxShift <= 0 || base + 48 > n then 0
    else if maxShift < n - 47 - base then maxShift
    else n - 47 - base
  }

  /** A candidate start: its score, its ACK code and its cycle index. */
  datatype Candidate = Candidate(score: int, ack: string, start: nat)

  /** The scores and ACK codes of the starts `base .. base + k - 1`. */
  function Scores(cycles: seq<Cycle>, base: nat, k: nat, w: Wires): seq<(int, string)>
    requires k == 0 || base + k + 47 <= |cycles|
  {
    seq(k, j requires 0 <= j < k => FrameScore(cycles, base + j, w))
  }

  /** The candidates of a list of scores whose first entry belongs to start `base`. */
  function Table(scores: seq<(int, string)>, base: nat): seq<Candidate>
  {
    seq(|scores|, j requires 0 <= j < |scores| => Candidate(scores[j].0, scores[j].1, base + j))
  }

  /** The candidates at the starts `base .. base + k - 1`, in order. */
  function Candidates(cycles: seq<Cycle>, base: nat, k: nat, w: Wires): seq<Candidate>
    requires k == 0 || base + k + 47 <= |cycles|
  {
    Table(Scores(cycles, base, k, w), base)
  }

  /** The candidate the search keeps: walking the candidates in order, a
      later one replaces the kept one only with a strictly higher score. */
  function Best(cs: seq<Candidate>): Option<Candidate>
  {
    if cs == [] then None
    else
      var prev := Best(cs[..|cs| - 1]);
      var c := cs[|cs| - 1];
      if prev.None? || c.score > prev.value.score then Some(c) else prev
  }

  /** The kept candidate exists exactly when there is one to keep; it is one
      of them, none scores more, and every candidate before it scores less,
      so ties go to the earliest. */
  lemma {:induction false} BestSpec(cs: seq<Candidate>)
    ensures Best(cs).Some? <==> cs != []
    ensures Best(cs).Some? ==>
      exists i :: 0 <= i < |cs| && cs[i] == Best(cs).value && (forall j :: 0 <= j < i ==> cs[j].score < cs[i].score)
    ensures Best(cs).Some? ==> forall j :: 0 <= j < |cs| ==> cs[j].score <= Best(cs).value.score
  {
    if cs != [] {
      var p := cs[..|cs| - 1];
      BestSpec(p);
      var c := cs[|cs| - 1];
      if Best(p).None? || c.score > Best(p).value.score {
        assert cs[|cs| - 1] == Best(cs).value;
        forall j | 0 <= j < |cs| - 1
          ensures cs[j].score < c.score
        {
          assert cs[j] == p[j];
        }
      } else {
        var i :| 0 <= i < |p| && p[i] == Best(p).value && (forall j :: 0 <= j < i ==> p[j].score < p[i].score);
        assert cs[i] == Best(cs).value;
        forall j | 0 <= j < i
          ensures cs[j].score < cs[i].score
        {
          assert cs[j] == p[j];
        }
        forall j | 0 <= j < |cs|
          ensures cs[j].score <= Best(cs).value.score
        {
          if j < |p| {
            assert cs[j] == p[j];
          }
        }
      }
    }
  }

  /** The best candidate among the starts `base .. base + k - 1`. */
  function BestOf(cycles: seq<Cycle>, base: nat, k: nat, w: Wires): Option<Candidate>
    requires k == 0 || base + k + 47 <= |cycles|
  {
    Best(Candidates(cycles, base, k, w))
  }

  /** Entry `j` of the table is the candidate starting `j` cycles after `base`. */
  ghost predicate Consecutive(cs: seq<Candidate>, base: nat)
  {
    forall j :: 0 <= j < |cs| ==> cs[j].start == base + j
  }

  lemma TableConsecutive(scores: seq<(int, string)>, base: nat)
    ensures Consecutive(Table(scores, base), base)
  {
  }

  /** Dropping the last score drops the last candidate. */
  lemma TableSnoc(scores: seq<(int, string)>, base: nat)
    requires scores != []
    ensures Table(scores, base)[..|scores| - 1] == Table(scores[..|scores| - 1], base)
    ensures Table(scores, base)[|scores| - 1] ==
      Candidate(scores[|scores| - 1].0, scores[|scores| - 1].1, base + |scores| - 1)
  {
    var t := Table(scores, base);
    var p := Table(scores[..|scores| - 1], base);
    assert |t[..|scores| - 1]| == |p|;
    forall j | 0 <= j < |p|
      ensures t[j] == p[j]
    {
    }
  }

  lemma CandidatesConsecutive(cycles: seq<Cycle>, base: nat, k: nat, w: Wires)
    requires k == 0 || base + k + 47 <= |cycles|
    ensures Consecutive(Candidates(cycles, base, k, w), base)
  {
    TableConsecutive(Scores(cycles, base, k, w), base);
  }

  /** In a consecutive table the kept candidate sits at the position its
      start names; no entry scores more, and every entry before it scores
      less. */
  lemma BestOfTable(cs: seq<Candidate>, base: nat)
    requires Consecutive(cs, base)
    ensures Best(cs).Some? <==> cs != []
    ensures Best(cs).Some? ==>
      && base <= Best(cs).value.start < base + |cs|
      && cs[Best(cs).value.start - base] == Best(cs).value
      && (forall j :: 0 <= j < |cs| ==> cs[j].score <= Best(cs).value.score)
      && (forall j :: 0 <= j < Best(cs).value.start - base ==> cs[j].score < Best(cs).value.score)
  {
    BestSpec(cs);
    if cs != [] {
      var i :| 0 <= i < |cs| && cs[i] == Best(cs).value && (forall j :: 0 <= j < i ==> cs[j].score < cs[i].score);
      assert cs[i].start == base + i;
    }
  }

  /** Entry `s - base` of the table is the candidate at start `s`. */
  lemma TableEntry(cycles: seq<Cycle>, base: nat, k: nat, w: Wires, s: nat)
    requires base + k + 47 <= |cycles| && base <= s < base + k
    ensures Candidates(cycles, base, k, w)[s - base].score == FrameScore(cycles, s, w).0
    ensures Candidates(cycles, base, k, w)[s - base].ack == FrameScore(cycles, s, w).1
  {
    var scores := Scores(cycles, base, k, w);
    var j := s - base;
    assert base + j == s;
    assert scores[j] == FrameScore(cycles, s, w);
    assert Table(scores, base)[j] == Candidate(scores[j].0, scores[j].1, base + j);
  }

  /** The best candidate of the window of starts that opens at `base`. */
  function WindowBest(cycles: seq<Cycle>, base: nat, w: Wires, maxShift: int): Option<Candidate>
  {
    BestOf(cycles, base, Shifts(|cycles|, base, maxShift), w)
  }

  /** The window has a best candidate exactly when it holds a start with
      all 48 cycles, and that candidate lies in the window. */
  lemma WindowBestPlace(cycles: seq<Cycle>, base: nat, w: Wires, maxShift: int)
    ensures WindowBest(cycles, base, w, maxShift).Some? <==> maxShift > 0 && base + 48 <= |cycles|
    ensures match WindowBest(cycles, base, w, maxShift)
      case None => true
      case Some(b) => base <= b.start < base + maxShift && b.start + 48 <= |cycles|
  {
    var k := Shifts(|cycles|, base, maxShift);
    CandidatesConsecutive(cycles, base, k, w);
    BestOfTable(Candidates(cycles, base, k, w), base);
  }

  /** The best candidate of a window carries the score and ACK of its start. */
  lemma WindowBestIsCandidate(cycles: seq<Cycle>, base: nat, w: Wires, maxShift: int)
    ensures match WindowBest(cycles, base, w, maxShift)
      case None => true
      case Some(b) => b.start + 48 <= |cycles| && (b.score, b.ack) == FrameScore(cycles, b.start, w)
  {
    WindowBestPlace(cycles, base, w, maxShift);
    var k := Shifts(|cycles|, base, maxShift);
    var cs := Candidates(cycles, base, k, w);
    CandidatesConsecutive(cycles, base, k, w);
    BestOfTable(cs, base);
    if k > 0 {
      TableEntry(cycles, base, k, w, Best(cs).value.start);
    }
  }

  /** No start of the window scores more than its best candidate. */
  lemma WindowBestIsMaximum(cycles: seq<Cycle>, base: nat, w: Wires, maxShift: int)
    ensures match WindowBest(cycles, base, w, maxShift)
      case None => true
      case Some(b) =>
        forall s :: base <= s < base + maxShift && s + 48 <= |cycles| ==> FrameScore(cycles, s, w).0 <= b.score
  {
    var k := Shifts(|cycles|, base, maxShift);
    var cs := Candidates(cycles, base, k, w);
    CandidatesConsecutive(cycles, base, k, w);
    BestOfTable(cs, base);
    if k > 0 {
      var b := Best(cs).value;
      forall s | base <= s < base + maxShift && s + 48 <= |cycles|
        ensures FrameScore(cycles, s, w).0 <= b.score
      {
        assert s < base + k;
        TableEntry(cycles, base, k, w, s);
        assert cs[s - base].score <= b.score;
      }
    }
  }

  /** Every start of the window before its best candidate scores less:
      ties go to the earliest start. */
  lemma WindowBestIsFirst(cycles: seq<Cycle>, base: nat, w: Wires, maxShift: int)
    ensures match WindowBest(cycles, base, w, maxShift)
      case None => true
      case Some(b) =>
        b.start + 48 <= |cycles| && forall s :: base <= s < b.start ==> FrameScore(cycles, s, w).0 < b.score
  {
    WindowBestPlace(cycles, base, w, maxShift);
    var k := Shifts(|cycles|, base, maxShift);
    var cs := Candidates(cycles, base, k, w);
    CandidatesConsecutive(cycles, base, k, w);
    BestOfTable(cs, base);
    if k > 0 {
      var b := Best(cs).value;
      forall s | base <= s < b.start
        ensures FrameScore(cycles, s, w).0 < b.score
      {
        TableEntry(cycles, base, k, w, s);
        assert cs[s - base].score < b.score;
      }
    }
  }

  /** A frame the search accepts: its score and ACK code, its first cycle
      and the time that cycle rises. */
  datatype Found = Found(score: int, ack: string, start: nat, time: int)

  /** The report for the window that opens at `base`: its best candidate,
      stamped with the time its first cycle rises, when it reaches
      `minScore`. */
  function Report(cycles: seq<Cycle>, base: nat, w: Wires, maxShift: int, minScore: int): Option<Found>
  {
    match WindowBest(cycles, base, w, maxShift)
    case None => None
    case Some(b) =>
      WindowBestPlace(cycles, base, w, maxShift);
      if b.score >= minScore then Some(Found(b.score, b.ack, b.start, cycles[b.start].0)) else None
  }

  /** The frame the search reports for the reset that rose at `t0`: the
      report for the window that opens at the first cycle rising after
      `t0`, and nothing when no cycle rises after it. */
  function FrameAfterReset(cycles: seq<Cycle>, t0: int, w: Wires, maxShift: int, minScore: int): Option<Found>
  {
    match FirstRiseAfter(cycles, t0)
    case None => None
    case Some(base) => Report(cycles, base, w, maxShift, minScore)
  }

  /** `f` is the report for the window of starts from `base` on: it starts
      within `maxShift` cycles of `base`, has all 48 cycles, reaches
      `minScore`, is stamped with its first rising edge, scores at least as
      much as any other start in the window and more than any earlier one. */
  ghost predicate Reported(cycles: seq<Cycle>, base: nat, w: Wires, maxShift: int, minScore: int, f: Found)
  {
    && base <= f.start < base + maxShift
    && f.start + 48 <= |cycles|
    && f.score >= minScore
    && f.time == cycles[f.start].0
    && (f.score, f.ack) == FrameScore(cycles, f.start, w)
    && (forall s :: base <= s < base + maxShift && s + 48 <= |cycles| ==> FrameScore(cycles, s, w).0 <= f.score)
    && (forall s :: base <= s < f.start ==> FrameScore(cycles, s, w).0 < f.score)
  }

  /** No start in the window from `base` on reaches `minScore`. */
  ghost predicate AllBelow(cycles: seq<Cycle>, base: nat, w: Wires, maxShift: int, minScore: int)
  {
    forall s :: base <= s < base + maxShift && s + 48 <= |cycles| ==> FrameScore(cycles, s, w).0 < minScore
  }

  /** The report for a window is its best start when that reaches
      `minScore`; there is none exactly when no start of the window does. */
  lemma ReportSpec(cycles: seq<Cycle>, base: nat, w: Wires, maxShift: int, minScore: int)
    ensures Report(cycles, base, w, maxShift, minScore).Some? ==>
      Reported(cycles, base, w, maxShift, minScore, Report(cycles, base, w, maxShift, minScore).value)
    ensures Report(cycles, base, w, maxShift, minScore).None? <==> AllBelow(cycles, base, w, maxShift, minScore)
  {
    WindowBestPlace(cycles, base, w, maxShift);
    WindowBestIsCandidate(cycles, base, w, maxShift);
    WindowBestIsMaximum(cycles, base, w, maxShift);
    WindowBestIsFirst(cycles, base, w, maxShift);
  }

  /** What the search reports for one reset: the best start of the window
      that opens at the first cycle rising after the reset. Nothing is
      reported exactly when no cycle rises after the reset or no start in
      the window reaches `minScore`. */
  lemma FrameAfterResetSpec(cycles: seq<Cycle>, t0: int, w: Wires, maxShift: int, minScore: int)
    ensures FrameAfterReset(cycles, t0, w, maxShift, minScore).Some? ==>
      FirstRiseAfter(cycles, t0).Some? &&
      Reported(cycles, FirstRiseAfter(cycles, t0).value, w, maxShift, minScore,
        FrameAfterReset(cycles, t0, w, maxShift, minScore).value)
    ensures FrameAfterReset(cycles, t0, w, maxShift, minScore).None? <==>
      FirstRiseAfter(cycles, t0).None? ||
      AllBelow(cycles, FirstRiseAfter(cycles, t0).value, w, maxShift, minScore)
  {
    if FirstRiseAfter(cycles, t0).Some? {
      ReportSpec(cycles, FirstRiseAfter(cycles, t0).value, w, maxShift, minScore);
    }
  }

  /** On well-formed cycles a reported frame starts after its reset. */
  lemma FrameAfterResetIsAfterReset(cycles: seq<Cycle>, t0: int, w: Wires, maxShift: int, minScore: int)
    requires WellFormedCycles(cycles)
    ensures FrameAfterReset(cycles, t0, w, maxShift, minScore).Some? ==>
      FrameAfterReset(cycles, t0, w, maxShift, minScore).value.time > t0
  {
    if FrameAfterReset(cycles, t0, w, maxShift, minScore).Some? {
      var f := FrameAfterReset(cycles, t0, w, maxShift, minScore).value;
      var base := FirstRiseAfter(cycles, t0).value;
      WindowBestPlace(cycles, base, w, maxShift);
      assert f.start == WindowBest(cycles, base, w, maxShift).value.start;
      assert f.time == cycles[f.start].0;
      if base < f.start {
        assert cycles[base].0 <= cycles[base].1 <= cycles[f.start].0;
      }
    }
  }

  /** The reports present in a list of optional reports, in order. */
  function Flatten(os: seq<Option<Found>>): seq<Found>
  {
    if os == [] then []
    else Flatten(os[..|os| - 1]) + (if os[|os| - 1].Some? then [os[|os| - 1].value] else [])
  }

  /** The positions of the present reports in a list of optional reports. */
  function Present(os: seq<Option<Found>>): seq<nat>
  {
    if os == [] then []
    else Present(os[..|os| - 1]) + (if os[|os| - 1].Some? then [|os| - 1] else [])
  }

  /** Flattening keeps exactly the present reports, each once and in order:
      the `j`-th report is the one at position `Present[j]`, and those
      positions strictly increase. */
  lemma {:induction false} FlattenPresent(os: seq<Option<Found>>)
    ensures |Present(os)| == |Flatten(os)|
    ensures forall j :: 0 <= j < |Present(os)| ==> Present(os)[j] < |os| && os[Present(os)[j]] == Some(Flatten(os)[j])
    ensures forall i, j :: 0 <= i < j < |Present(os)| ==> Present(os)[i] < Present(os)[j]
    ensures |Flatten(os)| <= |os|
  {
    if os != [] {
      var p := os[..|os| - 1];
      FlattenPresent(p);
      forall j | 0 <= j < |Present(p)|
        ensures Present(os)[j] == Present(p)[j] && Flatten(os)[j] == Flatten(p)[j] && os[Present(p)[j]] == p[Present(p)[j]]
      {
      }
    }
  }

  lemma FlattenSnoc(os: seq<Option<Found>>, o: Option<Found>)
    ensures Flatten(os + [o]) == Flatten(os) + (if o.Some? then [o.value] else [])
  {
    assert (os + [o])[..|os|] == os;
  }

  /** The report for each reset, in reset order. */
  function Reports(cycles: seq<Cycle>, resets: seq<int>, w: Wires, maxShift: int, minScore: int): seq<Option<Found>>
  {
    seq(|resets|, i requires 0 <= i < |resets| => FrameAfterReset(cycles, resets[i], w, maxShift, minScore))
  }

  lemma ReportsSnoc(cycles: seq<Cycle>, resets: seq<int>, r: nat, w: Wires, maxShift: int, minScore: int)
    requires r < |resets|
    ensures Reports(cycles, resets[..r + 1], w, maxShift, minScore) ==
      Reports(cycles, resets[..r], w, maxShift, minScore) + [FrameAfterReset(cycles, resets[r], w, maxShift, minScore)]
  {
    var longer := Reports(cycles, resets[..r + 1], w, maxShift, minScore);
    var shorter := Reports(cycles, resets[..r], w, maxShift, minScore);
    forall i | 0 <= i < r
      ensures longer[i] == shorter[i]
    {
      assert resets[..r + 1][i] == resets[..r][i];
    }
  }

  /** `find_best_frames_after_rst`, as a value: no report at all when the
      capture has fewer than 48 cycles, otherwise the reports for the resets
      in reset order. */
  function FramesAfterResets(cycles: seq<Cycle>, resets: seq<int>, w: Wires, maxShift: int, minScore: int): seq<Found>
  {
    if |cycles| < 48 then [] else Flatten(Reports(cycles, resets, w, maxShift, minScore))
  }

  /** What the search reports: nothing for fewer than 48 cycles, at most one
      report per reset, in reset order, and every report is what the search
      finds for its own reset, which `FrameAfterResetSpec` describes. */
  lemma FramesAfterResetsSpec(cycles: seq<Cycle>, resets: seq<int>, w: Wires, maxShift: int, minScore: int)
    ensures |cycles| < 48 ==> FramesAfterResets(cycles, resets, w, maxShift, minScore) == []
    ensures |FramesAfterResets(cycles, resets, w, maxShift, minScore)| <= |resets|
    ensures |cycles| >= 48 ==>
      var out := FramesAfterResets(cycles, resets, w, maxShift, minScore);
      var src := Present(Reports(cycles, resets, w, maxShift, minScore));
      && |src| == |out|
      && (forall j :: 0 <= j < |src| ==>
            src[j] < |resets| && FrameAfterReset(cycles, resets[src[j]], w, maxShift, minScore) == Some(out[j]))
      && (forall i, j :: 0 <= i < j < |src| ==> src[i] < src[j])
  {
    var os := Reports(cycles, resets, w, maxShift, minScore);
    FlattenPresent(os);
    if |cycles| >= 48 {
      var src := Present(os);
      forall j | 0 <= j < |src|
        ensures os[src[j]] == FrameAfterReset(cycles, resets[src[j]], w, maxShift, minScore)
      {
      }
    }
  }

  /** Every reported frame has all its 48 cycles. */
  lemma FramesInRange(cycles: seq<Cycle>, resets: seq<int>, w: Wires, maxShift: int, minScore: int)
    ensures forall f :: f in FramesAfterResets(cycles, resets, w, maxShift, minScore) ==> f.start + 48 <= |cycles|
  {
    FramesAfterResetsSpec(cycles, resets, w, maxShift, minScore);
    var out := FramesAfterResets(cycles, resets, w, maxShift, minScore);
    var src := Present(Reports(cycles, resets, w, maxShift, minScore));
    forall f | f in out
      ensures f.start + 48 <= |cycles|
    {
      var j :| 0 <= j < |out| && out[j] == f;
      FrameAfterResetSpec(cycles, resets[src[j]], w, maxShift, minScore);
    }
  }

  /** The search for the first cycle rising after `t0`. */
  method FirstRiseAfterScan(cycles: seq<Cycle>, t0: int) returns (base: Option<nat>)
    ensures base == FirstRiseAfter(cycles, t0)
  {
    base := None;
    var i := 0;
    while i < |cycles|
      invariant 0 <= i <= |cycles|
      invariant forall j :: 0 <= j < i ==> cycles[j].0 <= t0
    {
      if cycles[i].0 > t0 {
        base := Some(i);
        break;
      }
      i := i + 1;
    }
  }

  /** Appending a score to a table: the new candidate replaces the kept
      one only when it scores strictly more. */
  lemma BestTableSnoc(prefix: seq<(int, string)>, sc: (int, string), base: nat)
    ensures Best(Table(prefix + [sc], base)) ==
      var prev := Best(Table(prefix, base));
      if prev.None? || sc.0 > prev.value.score then Some(Candidate(sc.0, sc.1, base + |prefix|)) else prev
  {
    TableSnoc(prefix + [sc], base);
    assert (prefix + [sc])[..|prefix|] == prefix;
  }

  /** Widening the window by one start: the new start replaces the kept
      candidate only when it scores strictly more. */
  lemma BestOfSnoc(cycles: seq<Cycle>, base: nat, k: nat, w: Wires, sc: (int, string))
    requires base + k + 48 <= |cycles|
    requires sc == FrameScore(cycles, base + k, w)
    ensures BestOf(cycles, base, k + 1, w) ==
      var prev := BestOf(cycles, base, k, w);
      if prev.None? || sc.0 > prev.value.score then Some(Candidate(sc.0, sc.1, base + k)) else prev
  {
    ScoresSnoc(cycles, base, k, w);
    BestTableSnoc(Scores(cycles, base, k, w), sc, base);
  }

  lemma ScoresSnoc(cycles: seq<Cycle>, base: nat, k: nat, w: Wires)
    requires base + k + 48 <= |cycles|
    ensures Scores(cycles, base, k + 1, w) == Scores(cycles, base, k, w) + [FrameScore(cycles, base + k, w)]
  {
    var scores := Scores(cycles, base, k + 1, w);
    var prefix := Scores(cycles, base, k, w);
    forall j | 0 <= j < k
      ensures scores[j] == prefix[j]
    {
    }
  }

  /** One step of the scan: score the start `base + sh` and keep it when it
      scores strictly more than the candidate kept so far. */
  method ScoreAndKeep(cycles: seq<Cycle>, base: nat, sh: nat, w: Wires, best: Option<Candidate>)
    returns (kept: Option<Candidate>)
    requires base + sh + 48 <= |cycles|
    requires best == BestOf(cycles, base, sh, w)
    ensures kept == BestOf(cycles, base, sh + 1, w)
  {
    var s := base + sh;
    var sc := FrameScore(cycles, s, w);
    BestOfSnoc(cycles, base, sh, w, sc);
    kept := best;
    if best.None? || sc.0 > best.value.score {
      kept := Some(Candidate(sc.0, sc.1, s));
    }
  }

  /** The scan over the shifts of one window: each start in turn, stopping
      at `maxShift` shifts or at the first start without 48 cycles, keeping
      a candidate only when it scores strictly more than the one kept. */
  method WindowScan(cycles: seq<Cycle>, base: nat, w: Wires, maxShift: int) returns (best: Option<Candidate>)
    ensures best == WindowBest(cycles, base, w, maxShift)
  {
    best := None;
    var sh := 0;
    while sh < maxShift
      invariant 0 <= sh <= Shifts(|cycles|, base, maxShift)
      invariant best == BestOf(cycles, base, sh, w)
    {
      var s := base + sh;
      if s + 48 > |cycles| {
        break;
      }
      best := ScoreAndKeep(cycles, base, sh, w, best);
      sh := sh + 1;
    }
  }

  /** `find_best_frames_after_rst`. */
  method FindBestFramesAfterRst(cycles: seq<Cycle>, resets: seq<int>, w: Wires, maxShift: int, minScore: int)
    returns (out: seq<Found>)
    ensures out == FramesAfterResets(cycles, resets, w, maxShift, minScore)
  {
    out := [];
    if |cycles| < 48 {
      return;
    }
    var r := 0;
    while r < |resets|
      invariant 0 <= r <= |resets|
      invariant out == Flatten(Reports(cycles, resets[..r], w, maxShift, minScore))
    {
      ReportsSnoc(cycles, resets, r, w, maxShift, minScore);
      FlattenSnoc(Reports(cycles, resets[..r], w, maxShift, minScore), FrameAfterReset(cycles, resets[r], w, maxShift, minScore));
      var t0 := resets[r];
      var base := FirstRiseAfterScan(cycles, t0);
      if base.None? {
        r := r + 1;
        continue;
      }
      var best := WindowScan(cycles, base.value, w, maxShift);
      WindowBestIsCandidate(cycles, base.value, w, maxShift);
      if best.Some? && best.value.score >= minScore {
        out := out + [Found(best.value.score, best.value.ack, best.value.start, cycles[best.value.start].0)];
      }
      r := r + 1;
    }
    assert resets[..|resets|] == resets;
  }

  /** The resets the search starts from: the rising edges of the reset wire,
      or the single sentinel time -1, before any cycle of a capture that
      starts at time 0, when the wire is absent or never rises. */
  function ResetTimes(rst: Timeline): (r: seq<int>)
    ensures r != []
    ensures Rises(SortByTime(rst)) != [] ==> r == Rises(SortByTime(rst))
    ensures Rises(SortByTime(rst)) == [] ==> r == [-1]
  {
    var edges := if rst != [] then Rises(SortByTime(rst)) else [];
    if edges == [] then [-1] else edges
  }

  /** With the sentinel reset the search window opens at the first cycle of
      a capture whose cycles rise at non-negative times. */
  lemma SentinelScansFromStart(cycles: seq<Cycle>)
    requires cycles != [] && forall k :: 0 <= k < |cycles| ==> cycles[k].0 >= 0
    ensures FirstRiseAfter(cycles, -1) == Some(0)
  {
  }

  /** Whether a capture has what frame annotation needs: a clock, a host
      output and a bus wire, and at least 48 clock cycles. */
  predicate Sufficient(sck: Timeline, w: Wires, cycles: seq<Cycle>)
  {
    sck != [] && w.mosi != [] && w.swdio != [] && cycles != [] && |cycles| >= 48
  }

  /** What the frame annotation of one capture comes to: too little to
      annotate, no frame found in `auto` mode, or the found frames with
      their decodes. */
  datatype Outcome = Insufficient | NoFrame | Annotated(frames: seq<(Found, Frame)>)

  function DecodeAll(cycles: seq<Cycle>, found: seq<Found>, w: Wires, rnw: Timeline, mode: Mode): seq<(Found, Frame)>
    requires forall f :: f in found ==> f.start + 48 <= |cycles|
  {
    seq(|found|, j requires 0 <= j < |found| => (found[j], DecodeFrame(cycles, found[j].start, w, rnw, mode)))
  }

  /** The frame annotation part of `main` for one capture. */
  function AnnotateCapture(sck: Timeline, rst: Timeline, rnw: Timeline, w: Wires, mode: Mode, maxShift: int, minScore: int): Outcome
  {
    var cycles := if sck != [] then SckCycles(sck) else [];
    if !Sufficient(sck, w, cycles) then Insufficient
    else
      var found := FramesAfterResets(cycles, ResetTimes(rst), w, maxShift, minScore);
      if mode == Auto && found == [] then NoFrame
      else
        FramesInRange(cycles, ResetTimes(rst), w, maxShift, minScore);
        Annotated(DecodeAll(cycles, found, w, rnw, mode))
  }

  /** A capture is annotated only with a clock, a host output, a bus wire
      and 48 clock cycles; `auto` mode says so when it finds no frame, and
      otherwise every frame the search reports is decoded at its start. */
  lemma AnnotateCaptureSpec(sck: Timeline, rst: Timeline, rnw: Timeline, w: Wires, mode: Mode, maxShift: int, minScore: int)
    ensures var o := AnnotateCapture(sck, rst, rnw, w, mode, maxShift, minScore);
      o == Insufficient <==> !(sck != [] && w.mosi != [] && w.swdio != [] && |SckCycles(sck)| >= 48)
    ensures var o := AnnotateCapture(sck, rst, rnw, w, mode, maxShift, minScore);
      o == NoFrame <==>
        sck != [] && w.mosi != [] && w.swdio != [] && |SckCycles(sck)| >= 48 && mode == Auto &&
        FramesAfterResets(SckCycles(sck), ResetTimes(rst), w, maxShift, minScore) == []
    ensures var o := AnnotateCapture(sck, rst, rnw, w, mode, maxShift, minScore);
      o.Annotated? ==>
        var found := FramesAfterResets(SckCycles(sck), ResetTimes(rst), w, maxShift, minScore);
        |o.frames| == |found| &&
        forall j :: 0 <= j < |found| ==>
          o.frames[j].0 == found[j] && found[j].start + 48 <= |SckCycles(sck)| &&
          o.frames[j].1 == DecodeFrame(SckCycles(sck), found[j].start, w, rnw, mode)
  {
    var cycles := if sck != [] then SckCycles(sck) else [];
    if Sufficient(sck, w, cycles) {
      FramesInRange(cycles, ResetTimes(rst), w, maxShift, minScore);
    }
  }
}
