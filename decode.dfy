/** Decoding the fields of one 48-cycle SWD frame that starts at a given
    cycle: the request byte driven by the host, the three ACK bits and the
    data word and parity bit, driven by the target on reads and by the host
    on writes, and the verdict the annotation shows for the frame. */
module Decode {
  import opened Values
  import opened Timelines
  import opened Clock
  import opened Fields
  import opened Lanes

  /** The captured wires the decoder reads. A wire the trace does not have
      is the empty timeline. */
  datatype Wires = Wires(mosi: Timeline, swdio: Timeline, tbEn: Timeline, tbVal: Timeline)

  /** The testbench's own record of the target drive: present, enabled at
      `ts`, and giving a defined bit there. */
  predicate TestbenchDrives(w: Wires, ts: int)
  {
    w.tbEn != [] && w.tbVal != [] && ValueAt(w.tbEn, ts) == One && IsBit(ValueAt(w.tbVal, ts))
  }

  /** `target_bit_at`: a target-driven bit, sampled just after the falling
      edge of its cycle. A defined bus value wins; an undefined bus falls
      back on the testbench's drive value when that is enabled and defined;
      otherwise the undefined bus value is the answer. */
  function TargetBitAt(cycles: seq<Cycle>, start: nat, bit: nat, w: Wires): (v: Value)
    requires start + bit < |cycles|
    ensures IsBit(v) <==>
      IsBit(ValueAt(w.swdio, NegTs(cycles, start, bit))) || TestbenchDrives(w, NegTs(cycles, start, bit))
    ensures IsBit(ValueAt(w.swdio, NegTs(cycles, start, bit))) ==> v == ValueAt(w.swdio, NegTs(cycles, start, bit))
    ensures IsBit(v) && !IsBit(ValueAt(w.swdio, NegTs(cycles, start, bit))) ==> v == ValueAt(w.tbVal, NegTs(cycles, start, bit))
    ensures !IsBit(v) ==> v == ValueAt(w.swdio, NegTs(cycles, start, bit))
  {
    var ts := NegTs(cycles, start, bit);
    var vb := ValueAt(w.swdio, ts);
    if IsBit(vb) then vb
    else if w.tbEn != [] && w.tbVal != [] && ValueAt(w.tbEn, ts) == One && IsBit(ValueAt(w.tbVal, ts)) then
      ValueAt(w.tbVal, ts)
    else vb
  }

  /** The target bit is what the two derived target lanes show at its
      sampling instant: the `target_sample` lane (the bus just after each
      falling edge) when that is a defined bit, else the `target_drive`
      lane when that is a defined bit, else the undefined bus value. */
  lemma TargetBitFromLanes(cycles: seq<Cycle>, start: nat, bit: nat, w: Wires)
    requires ChronologicalCycles(cycles) && start + bit < |cycles|
    requires w.swdio != [] && w.tbEn != [] && w.tbVal != []
    requires Started([w.tbEn, w.tbVal], NegTs(cycles, start, bit))
    ensures var ts := NegTs(cycles, start, bit);
      var bus := HeldAt(SampleHoldLane(cycles, w.swdio, Neg), ts);
      var drive := HeldAt(TargetDriveLane(w.tbEn, w.tbVal), ts);
      bus.Some? && drive.Some? &&
      TargetBitAt(cycles, start, bit, w) ==
        (if IsBit(bus.value) then bus.value else if IsBit(drive.value) then drive.value else bus.value)
  {
    var ts := NegTs(cycles, start, bit);
    assert ts == cycles[start + bit].1 + SAMPLE_EPS;
    TargetSampleLaneAt(cycles, start + bit, w.swdio);
    assert HeldAt(SampleHoldLane(cycles, w.swdio, Neg), ts) == Some(ValueAt(w.swdio, ts));
    TargetDriveLaneAt(w.tbEn, w.tbVal, ts);
    assert HeldAt(TargetDriveLane(w.tbEn, w.tbVal), ts) == Some(TargetDriveAt(w.tbEn, w.tbVal, ts));
    TargetChoice(TargetBitAt(cycles, start, bit, w), ValueAt(w.swdio, ts), ValueAt(w.tbEn, ts),
      ValueAt(w.tbVal, ts), TargetDriveAt(w.tbEn, w.tbVal, ts));
  }

  /** On chronological cycles the `target_sample` lane shows, just after a
      falling edge, the bus value sampled there. */
  lemma TargetSampleLaneAt(cycles: seq<Cycle>, k: nat, swdio: Timeline)
    requires ChronologicalCycles(cycles) && k < |cycles| && swdio != []
    ensures HeldAt(SampleHoldLane(cycles, swdio, Neg), cycles[k].1 + SAMPLE_EPS) ==
      Some(ValueAt(swdio, cycles[k].1 + SAMPLE_EPS))
  {
    var t := cycles[k].1 + SAMPLE_EPS;
    assert WellFormedCycles(cycles);
    assert UpdateTime(cycles[k], Neg) <= t;
    if k + 1 < |cycles| {
      assert cycles[k].1 < cycles[k + 1].0 < cycles[k + 1].1;
      assert t < UpdateTime(cycles[k + 1], Neg);
    }
    SampleHoldLaneAt(cycles, swdio, Neg, k, t);
  }

  /** The choice `target_bit_at` makes, in terms of the bus value `vb`, the
      testbench enable `en` and value `vv`, and the target drive `td`. */
  lemma TargetChoice(v: Value, vb: Value, en: Value, vv: Value, td: Value)
    requires IsBit(v) <==> IsBit(vb) || (en == One && IsBit(vv))
    requires IsBit(vb) ==> v == vb
    requires IsBit(v) && !IsBit(vb) ==> v == vv
    requires !IsBit(v) ==> v == vb
    requires td == Z <==> en != One
    requires td != Z ==> (IsBit(td) <==> IsBit(vv))
    requires IsBit(td) ==> td == vv
    ensures v == if IsBit(vb) then vb else if IsBit(td) then td else vb
  {
  }

  /** The host-driven bits at offsets `from .. from + count - 1` of the
      frame, read from the host output just after each rising edge. */
  function HostBits(cycles: seq<Cycle>, start: nat, from: nat, count: nat, mosi: Timeline): seq<Value>
    requires start + from + count <= |cycles|
  {
    seq(count, j requires 0 <= j < count => ValueAt(mosi, PosTs(cycles, start, from + j)))
  }

  /** The target-driven bits at offsets `from .. from + count - 1` of the frame. */
  function TargetBits(cycles: seq<Cycle>, start: nat, from: nat, count: nat, w: Wires): seq<Value>
    requires start + from + count <= |cycles|
  {
    seq(count, j requires 0 <= j < count => TargetBitAt(cycles, start, from + j, w))
  }

  /** `decode_req_from_mosi`: the eight request bits at offsets 2..9, and
      the request byte they spell least significant bit first, defined
      exactly when all eight bits are. */
  function DecodeReq(cycles: seq<Cycle>, start: nat, mosi: Timeline): (r: (seq<Value>, int, bool))
    requires start + 10 <= |cycles|
    ensures |r.0| == 8
    ensures forall j :: 0 <= j < 8 ==> r.0[j] == ValueAt(mosi, PosTs(cycles, start, 2 + j))
    ensures r.2 <==> AllBits(r.0)
    ensures r.2 ==> 0 <= r.1 < 256 && ToBits(r.1, 8) == r.0
    ensures !r.2 ==> r.1 == 0
  {
    var bits := HostBits(cycles, start, 2, 8, mosi);
    var (v, ok) := LsbFirstToInt(bits);
    assert Pow2(8) == 256;
    (bits, v, ok)
  }

  /** One of the three ACK codes the protocol defines, written last bit first:
      OK `001`, WAIT `010`, FAULT `100`. */
  predicate AckRecognised(ack: string)
  {
    ack == "001" || ack == "010" || ack == "100"
  }

  /** `decode_ack`: the ACK bits at offsets 11, 12, 13 and their spelling
      with the last-received bit first, so that OK (first bit 1) reads `001`,
      WAIT `010` and FAULT `100`. */
  function DecodeAck(cycles: seq<Cycle>, start: nat, w: Wires): (r: (seq<Value>, string))
    requires start + 14 <= |cycles|
    ensures |r.0| == 3 && |r.1| == 3
    ensures forall j :: 0 <= j < 3 ==> r.0[j] == TargetBitAt(cycles, start, 11 + j, w)
    ensures forall j :: 0 <= j < 3 ==> r.1[2 - j] == Char(r.0[j])
    ensures r.1 == "001" <==> r.0 == [One, Zero, Zero]
    ensures r.1 == "010" <==> r.0 == [Zero, One, Zero]
    ensures r.1 == "100" <==> r.0 == [Zero, Zero, One]
    ensures AckRecognised(r.1) ==> AllBits(r.0)
  {
    var b0 := TargetBitAt(cycles, start, 11, w);
    var b1 := TargetBitAt(cycles, start, 12, w);
    var b2 := TargetBitAt(cycles, start, 13, w);
    ([b0, b1, b2], [Char(b2), Char(b1), Char(b0)])
  }

  /** `infer_rnw`: the direction recorded on the optional read/write wire at
      the frame's first bit, or nothing when the wire is absent or does not
      show a defined bit there. */
  function InferRnw(rnw: Timeline, cycles: seq<Cycle>, start: nat): (r: Option<Value>)
    requires start < |cycles|
    ensures r.Some? <==> rnw != [] && IsBit(ValueAt(rnw, PosTs(cycles, start, 0)))
    ensures r.Some? ==> r.value == ValueAt(rnw, PosTs(cycles, start, 0))
  {
    if rnw == [] then None
    else
      var v := ValueAt(rnw, PosTs(cycles, start, 0));
      if IsBit(v) then Some(v) else None
  }

  /** The `--mode` option. */
  datatype Mode = Auto | Read | Write

  /** The direction a frame is decoded with: forced by the mode, or inferred
      from the read/write wire, and unknown when that gives nothing. */
  function Direction(mode: Mode, rnw: Timeline, cycles: seq<Cycle>, start: nat): (d: Value)
    requires start < |cycles|
    ensures d == One <==> mode == Read || (mode == Auto && InferRnw(rnw, cycles, start) == Some(One))
    ensures d == Zero <==> mode == Write || (mode == Auto && InferRnw(rnw, cycles, start) == Some(Zero))
    ensures d != Z
  {
    match mode
    case Read => One
    case Write => Zero
    case Auto =>
      match InferRnw(rnw, cycles, start)
      case Some(v) => v
      case None => X
  }

  /** The parity cell of the summary: checked and matching, checked and
      mismatching, or not checkable. */
  datatype ParityStatus = ParityOk | ParityErr | ParityUnknown

  /** The decoded frame as the annotation reports it. `showsData` is whether
      the data word is printed (otherwise a dash is); `tail` is the bit after
      the parity bit, reported on reads only. */
  datatype Frame = Frame(
    rnw: Value,
    reqBits: seq<Value>, reqValue: int, reqOk: bool,
    ackBits: seq<Value>, ack: string, ackOk: bool,
    dataBits: seq<Value>, dataValue: int, dataOk: bool, showsData: bool,
    parityBit: Value, parityOk: bool, parity: ParityStatus,
    verdict: string,
    tail: Option<Value>)

  /** The verdict word: direction, then OK, WAIT/FAULT or unrecognised. */
  function VerdictText(read: bool, ack: string): string
  {
    if read then
      (if ack == "001" then "READ_OK" else if ack == "010" || ack == "100" then "READ_WAIT/FAULT" else "READ(?)")
    else
      (if ack == "001" then "WRITE_OK" else if ack == "010" || ack == "100" then "WRITE_WAIT/FAULT" else "WRITE(?)")
  }

  /** The numeric value of a defined parity bit. */
  function BitNumber(b: Value): int
  {
    if b == One then 1 else 0
  }

  /** The data word, the parity bit and, on reads, the tail bit of a frame
      in the layout of its direction. */
  function Payload(cycles: seq<Cycle>, start: nat, w: Wires, read: bool): (seq<Value>, Value, Option<Value>)
    requires start + 48 <= |cycles|
  {
    if read then
      (TargetBits(cycles, start, 14, 32, w), TargetBitAt(cycles, start, 46, w), Some(TargetBitAt(cycles, start, 47, w)))
    else
      (HostBits(cycles, start, 15, 32, w.mosi), ValueAt(w.mosi, PosTs(cycles, start, 47)), None)
  }

  /** What `plot_frame` concludes about a data word and its parity bit: the
      word's value and whether it is defined, whether it is shown, and the
      parity check, which is only made after an OK ACK on a defined word and
      a defined parity bit. */
  datatype WordCheck = WordCheck(value: int, ok: bool, shown: bool, parityOk: bool, parity: ParityStatus)

  function CheckWord(ackOk: bool, bits: seq<Value>, parityBit: Value): WordCheck
  {
    var data := LsbFirstToInt(bits);
    var checkable := ackOk && data.1 && IsBit(parityBit);
    var parityOk := checkable && BitNumber(parityBit) == ParityEven32(data.0);
    WordCheck(data.0, data.1, ackOk && data.1, parityOk,
      if parityOk then ParityOk else if checkable then ParityErr else ParityUnknown)
  }

  lemma EvenIff(c: nat, b: int, parity: int, total: int)
    requires b == 0 || b == 1
    requires parity == c % 2 && total == c + b
    ensures b == parity <==> total % 2 == 0
  {
  }

  lemma ParityMatchesCount(bits: seq<Value>, v: int, p: Value)
    requires |bits| == 32 && AllBits(bits) && 0 <= v < Pow2(32) && ToBits(v, 32) == bits
    requires IsBit(p)
    ensures BitNumber(p) == ParityEven32(v) <==> CountOnes(bits + [p]) % 2 == 0
  {
    var c := CountOnes(bits);
    BitsValueOfToBits(v, 32);
    assert BitsValue(bits) == v;
    ParityOfBits(bits);
    assert ParityEven32(v) == c % 2;
    CountOnesSnoc(bits, p);
    EvenIff(c, BitNumber(p), ParityEven32(v), CountOnes(bits + [p]));
  }

  /** The parity check of a 32-bit word passes exactly when the ACK is OK,
      the word and the parity bit are defined, and the 32 data bits together
      with the parity bit hold an even number of ones; it fails (ERR) when
      all of them are defined and the count is odd, and is not checkable
      (`?`) otherwise. */
  lemma CheckWordParity(ackOk: bool, bits: seq<Value>, p: Value)
    requires |bits| == 32
    ensures var c := CheckWord(ackOk, bits, p);
      c.parityOk <==> ackOk && AllBits(bits) && IsBit(p) && CountOnes(bits + [p]) % 2 == 0
    ensures var c := CheckWord(ackOk, bits, p);
      c.parity == ParityOk <==> c.parityOk
    ensures var c := CheckWord(ackOk, bits, p);
      c.parity == ParityErr <==> ackOk && AllBits(bits) && IsBit(p) && CountOnes(bits + [p]) % 2 == 1
    ensures var c := CheckWord(ackOk, bits, p);
      c.parity == ParityUnknown <==> !(ackOk && AllBits(bits) && IsBit(p))
  {
    var c := CheckWord(ackOk, bits, p);
    if ackOk && AllBits(bits) && IsBit(p) {
      ParityMatchesCount(bits, c.value, p);
    }
  }

  /** The decode block of `plot_frame`: reads are laid out as request (2..9),
      turnaround (10), ACK (11..13), target data (14..45), parity (46) and a
      tail bit (47); writes, and frames of unknown direction, as request,
      turnaround, ACK, a second turnaround (14), host data (15..46) and
      parity (47). */
  function DecodeFrame(cycles: seq<Cycle>, start: nat, w: Wires, rnwWire: Timeline, mode: Mode): (f: Frame)
    requires start + 48 <= |cycles|
  {
    var rnw := Direction(mode, rnwWire, cycles, start);
    var req := DecodeReq(cycles, start, w.mosi);
    var ack := DecodeAck(cycles, start, w);
    var p := Payload(cycles, start, w, rnw == One);
    var c := CheckWord(ack.1 == "001", p.0, p.1);
    Frame(rnw,
      req.0, req.1, req.2,
      ack.0, ack.1, ack.1 == "001",
      p.0, c.value, c.ok, c.shown,
      p.1, c.parityOk, c.parity,
      VerdictText(rnw == One, ack.1),
      p.2)
  }

  /** The data word is defined exactly when all 32 data bits are, and is
      then the number they spell least significant bit first; the word is
      shown exactly when it is defined and the ACK is OK. */
  lemma FrameData(cycles: seq<Cycle>, start: nat, w: Wires, rnwWire: Timeline, mode: Mode)
    requires start + 48 <= |cycles|
    ensures var f := DecodeFrame(cycles, start, w, rnwWire, mode);
      |f.dataBits| == 32 && (f.dataOk <==> AllBits(f.dataBits)) && (!f.dataOk ==> f.dataValue == 0)
    ensures var f := DecodeFrame(cycles, start, w, rnwWire, mode);
      f.dataOk ==> 0 <= f.dataValue < Pow2(32) && ToBits(f.dataValue, 32) == f.dataBits
    ensures var f := DecodeFrame(cycles, start, w, rnwWire, mode);
      (f.ackOk <==> f.ack == "001") && (f.showsData <==> f.ackOk && f.dataOk)
  {
  }

  /** Only a frame decoded as a read takes the read layout: data and parity
      from the target at offsets 14..46 and a tail bit at 47. */
  lemma FrameLayoutRead(cycles: seq<Cycle>, start: nat, w: Wires, rnwWire: Timeline, mode: Mode)
    requires start + 48 <= |cycles|
    requires Direction(mode, rnwWire, cycles, start) == One
    ensures var f := DecodeFrame(cycles, start, w, rnwWire, mode);
      (forall j :: 0 <= j < 32 ==> f.dataBits[j] == TargetBitAt(cycles, start, 14 + j, w)) &&
      f.parityBit == TargetBitAt(cycles, start, 46, w) &&
      f.tail == Some(TargetBitAt(cycles, start, 47, w))
  {
    var f := DecodeFrame(cycles, start, w, rnwWire, mode);
    var p := Payload(cycles, start, w, true);
    assert f.dataBits == p.0 && f.parityBit == p.1 && f.tail == p.2;
  }

  /** A write, or a frame of unknown direction, takes its data and parity
      from the host output at offsets 15..47 and has no tail bit. */
  lemma FrameLayoutWrite(cycles: seq<Cycle>, start: nat, w: Wires, rnwWire: Timeline, mode: Mode)
    requires start + 48 <= |cycles|
    requires Direction(mode, rnwWire, cycles, start) != One
    ensures var f := DecodeFrame(cycles, start, w, rnwWire, mode);
      (forall j :: 0 <= j < 32 ==> f.dataBits[j] == ValueAt(w.mosi, PosTs(cycles, start, 15 + j))) &&
      f.parityBit == ValueAt(w.mosi, PosTs(cycles, start, 47)) &&
      f.tail == None
  {
    var f := DecodeFrame(cycles, start, w, rnwWire, mode);
    var p := Payload(cycles, start, w, false);
    assert f.dataBits == p.0 && f.parityBit == p.1 && f.tail == p.2;
  }

  /** The parity cell of a decoded frame, as `CheckWordParity` states it for
      the frame's own data word and parity bit. */
  lemma FrameParity(cycles: seq<Cycle>, start: nat, w: Wires, rnwWire: Timeline, mode: Mode)
    requires start + 48 <= |cycles|
    ensures var f := DecodeFrame(cycles, start, w, rnwWire, mode);
      f.parityOk <==>
        f.ack == "001" && f.dataOk && IsBit(f.parityBit) && CountOnes(f.dataBits + [f.parityBit]) % 2 == 0
    ensures var f := DecodeFrame(cycles, start, w, rnwWire, mode);
      f.parity == ParityErr <==>
        f.ack == "001" && f.dataOk && IsBit(f.parityBit) && CountOnes(f.dataBits + [f.parityBit]) % 2 == 1
    ensures var f := DecodeFrame(cycles, start, w, rnwWire, mode);
      f.parity == ParityUnknown <==> !(f.ack == "001" && f.dataOk && IsBit(f.parityBit))
    ensures var f := DecodeFrame(cycles, start, w, rnwWire, mode);
      f.parityOk ==> BitNumber(f.parityBit) == ParityEven32(f.dataValue)
  {
    var f := DecodeFrame(cycles, start, w, rnwWire, mode);
    FrameData(cycles, start, w, rnwWire, mode);
    var c := CheckWord(f.ackOk, f.dataBits, f.parityBit);
    assert f.parityOk == c.parityOk && f.parity == c.parity && f.dataOk == c.ok;
    CheckWordParity(f.ackOk, f.dataBits, f.parityBit);
  }

  /** The verdict names the direction (READ only for a frame decoded as a
      read) and the handshake: OK exactly for ACK `001`, WAIT/FAULT exactly
      for `010` or `100`, and `(?)` for anything else, undefined bits
      included. */
  lemma FrameVerdict(cycles: seq<Cycle>, start: nat, w: Wires, rnwWire: Timeline, mode: Mode)
    requires start + 48 <= |cycles|
    ensures var f := DecodeFrame(cycles, start, w, rnwWire, mode);
      (f.verdict == "READ_OK" || f.verdict == "WRITE_OK") <==> f.ack == "001"
    ensures var f := DecodeFrame(cycles, start, w, rnwWire, mode);
      (f.verdict == "READ_WAIT/FAULT" || f.verdict == "WRITE_WAIT/FAULT") <==> f.ack == "010" || f.ack == "100"
    ensures var f := DecodeFrame(cycles, start, w, rnwWire, mode);
      (f.verdict == "READ(?)" || f.verdict == "WRITE(?)") <==> !AckRecognised(f.ack)
    ensures var f := DecodeFrame(cycles, start, w, rnwWire, mode);
      (f.verdict == "READ_OK" || f.verdict == "READ_WAIT/FAULT" || f.verdict == "READ(?)") <==> f.rnw == One
  {
  }

  /** The OK verdict needs a fully defined ACK with its first bit set, and a
      passing parity check needs the OK verdict. */
  lemma FrameOkNeedsAck(cycles: seq<Cycle>, start: nat, w: Wires, rnwWire: Timeline, mode: Mode)
    requires start + 48 <= |cycles|
    ensures var f := DecodeFrame(cycles, start, w, rnwWire, mode);
      f.ackOk ==> f.ackBits == [One, Zero, Zero] && AllBits(f.ackBits)
    ensures var f := DecodeFrame(cycles, start, w, rnwWire, mode);
      f.parityOk ==> f.ackOk && f.showsData && (f.verdict == "READ_OK" || f.verdict == "WRITE_OK")
  {
  }
}
