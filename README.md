# SWD frame decoding over captured waveforms

This project models, in Dafny, the decoding core of `src/vcd_to_png.py`
from the XRDAP SWD probe repository. The script reads a simulation trace
(VCD) of a Serial Wire Debug link. It rebuilds the clock cycles and the
"who drives the bus" lanes. It then finds the 48-cycle SWD frames that
follow each reset and decodes each frame's request, ACK, data word, parity
and verdict. Drawing and file handling are outside the model.

The model follows the script's own layering, one module per file:

- `values.dfy` (`Values`) holds the four logic states `'0'`, `'1'`, `'x'`
  and `'z'`. It also holds `normalize_1bit_val`, which maps whatever the
  trace parser captured (absent, or a text) onto one of the four states.
- `timeline.dfy` (`Timelines`) models a wire as its list of
  (time, value) changes in capture order.
  - `value_at` sorts the list stably on each call. This is modelled as an
    insertion sort and proved to permute, to order, and to keep the input
    order among equal timestamps.
  - It then takes the last change at or before the instant, or `'0'`
    when there is none.
  - The loop with `break` is a method proved equal to that function.
- `clock.dfy` (`Clock`) holds the reset rising edges (`rise_edges`) and
  the level-tracking clock scan (`build_sck_cycles`), as a step function
  and as the loop.
  - It also holds the sampling instants `pos_ts`/`neg_ts`, one time unit
    after an edge (`SAMPLE_EPS`), and the zone boundaries `t_edge`.
- `lanes.dfy` (`Lanes`) holds the derived lanes:
  - the union of change times (`merge_change_times`);
  - the target and host drive rules evaluated at those times;
  - the sample-and-hold lanes updated at each clock edge.
  - Every lane is the "emit only on change" compression of its pointwise
    samples. The proofs show the value each lane holds at any instant.
- `fields.dfy` (`Fields`) holds LSB-first bit composition and its inverse,
  and the even parity of a 32-bit word. The parity bit makes the count of
  ones even, as section B4.2 of the ARM Debug Interface Architecture
  Specification ADIv5.2 requires.
- `decode.dfy` (`Decode`) holds the frame decoder:
  - `target_bit_at`, `decode_req_from_mosi`, `decode_ack` and `infer_rnw`;
  - the decode and verdict block of `plot_frame`, lifted out of the
    drawing as `DecodeFrame`.
- `align.dfy` (`Align`) holds frame alignment and the annotation gate:
  - `frame_score`;
  - `find_best_frames_after_rst`, as nested loops proved equal to a
    reference definition with the argmax proved "maximum, earliest on
    ties";
  - the part of `main` that decides whether a capture is annotated: the
    insufficient-signals gate, the `[-1]` reset sentinel, the `auto`-mode
    "no frame" case, and decoding every frame found.

Times are integers. A wire that the trace does not have is the empty
timeline, as in the script, where such a wire is `[]`.

Where the code and its documented intent differ, the model follows the
code:

- Clock cycles come out with rise ≤ fall and each fall ≤ the next rise.
  Strict ordering (rise < fall < next rise) is guaranteed when no two
  clock changes share a timestamp, in whatever order they were captured. With two clock changes at
  the same timestamp the code can emit a zero-length cycle. See
  `SckCyclesWellFormed` and `SckCyclesChronological`. The sample-and-hold
  lanes still have strictly increasing times on every clock
  (`SampleHoldOnClock`).

## Model

| member | source | states |
|---|---|---|
| `Values.Normalize` | src/vcd_to_png.py:65-80 | An absent value is `'x'`. A text is `'0'` exactly for `0`/`b0`, `'1'` exactly for `1`/`b1`, and `'z'` exactly for `z`, `Z`, `bz`, `bZ`; everything else is `'x'`. |
| `Values.NormalizeText` | src/vcd_to_png.py:68-80 | A `b`-prefixed literal is unwrapped only when exactly one state character follows; upper-case X/Z fold to lower case. |
| `Values.Clamp` | src/vcd_to_png.py:196 | The clamp keeps a defined bit and yields `'x'` exactly for a value that is not a bit, so `'z'` becomes `'x'` and `'z'` never comes out. |
| `Timelines.SortByTimePermutes` | src/vcd_to_png.py:84 | The per-call sort only reorders the changes (same multiset). |
| `Timelines.SortByTimeSorted` | src/vcd_to_png.py:84 | The per-call sort puts the changes in time order. |
| `Timelines.SortKeepsTies` | src/vcd_to_png.py:84 | The sort is stable: changes with equal timestamps keep their capture order, so the later one wins. |
| `Timelines.SortOfSorted` | src/vcd_to_png.py:84 | A timeline already in time order is left unchanged. |
| `Timelines.ValueAt` | src/vcd_to_png.py:82-88 | `value_at`: the stable sort followed by the last change at or before the instant. Its contract is stated by `ValueAtIsLatest`, `ValueAtBeforeFirst`, `ValueAtOwnTime` and `ValueAtSteady`, and the loop by `ValueAtScan`. |
| `Timelines.ValueAtIsLatest` | src/vcd_to_png.py:82-88 | When some change is at or before `ts`, the value is the normalised value of the latest such change, the last in capture order among equal timestamps. |
| `Timelines.ValueAtBeforeFirst` | src/vcd_to_png.py:82-88 | Before a wire's first change it reads `'0'`. |
| `Timelines.ValueAtOwnTime` | src/vcd_to_png.py:82-88 | The bound is inclusive: sampling at a change's own timestamp sees that change. |
| `Timelines.ValueAtSteady` | src/vcd_to_png.py:82-88 | With no change in `(p, t]`, the wire reads the same at `t` as at `p`. |
| `Timelines.ValueAtScan` | src/vcd_to_png.py:82-88 | The sorted walk with early `break` returns exactly `ValueAt`. |
| `Clock.Rises` | src/vcd_to_png.py:130-139 | Every reported time is the time of a change to `'1'` from a state that is not `'1'` (or of a first change to `'1'`), and every such rise is reported. |
| `Clock.RisesInOrder` | src/vcd_to_png.py:130-139 | Over a time-ordered wire the rises come out in time order. |
| `Clock.RisesStrictlyIncreasing` | src/vcd_to_png.py:130-139 | With strictly increasing timestamps the rises strictly increase. |
| `Clock.RisesOfCapture` | src/vcd_to_png.py:130-139 | For a capture in any order the reported rises are in time order, and strictly increasing when no two changes share a timestamp. |
| `Clock.RiseEdges` | src/vcd_to_png.py:130-139 | The loop returns exactly the rises of the sorted wire. |
| `Clock.ScanCyclesFromEdges` | src/vcd_to_png.py:141-158 | Each cycle runs from a change to `'1'` that is not the first change to a later change from `'1'` straight to `'0'`, and the scan remembers the last level. |
| `Clock.SckCycles` | src/vcd_to_png.py:141-158 | `build_sck_cycles`: the level-tracking scan over the sorted clock events. Its contract is stated by `SckCyclesWellFormed`, `SckCyclesChronological`, `SckCyclesFromEdges` and `SckCyclesComplete` (together: exactly the runs of `'1'` opened by a rise and closed by a straight fall to `'0'`), and the loop by `BuildSckCycles`. |
| `Clock.SckCyclesWellFormed` | src/vcd_to_png.py:141-158 | For any clock wire every cycle rises no later than it falls, and falls no later than any later cycle rises. |
| `Clock.SckCyclesChronological` | src/vcd_to_png.py:141-158 | When no two clock changes share a timestamp, in whatever order they were captured, cycles rise strictly before they fall and fall strictly before the next rise. |
| `Clock.SckCyclesFromEdges` | src/vcd_to_png.py:141-158 | Every cycle of `build_sck_cycles` runs from a change to `'1'` (not the first event) to a later change from `'1'` straight to `'0'` of the sorted clock, the clock reading `'1'` at every event in between, so the fall is paired with the latest rise before it. |
| `Clock.SckCyclesComplete` | src/vcd_to_png.py:141-158 | Conversely, every such rise, run of `'1'` and straight fall to `'0'` of the sorted clock is a cycle of `build_sck_cycles`: no cycle is dropped. |
| `Clock.SckCyclesExampleClean` | src/vcd_to_png.py:141-158 | `(0,0),(10,1),(20,0)` gives `[(10,20)]`; a trailing rise without a fall gives no cycle. |
| `Clock.SckCyclesExampleInitialHigh` | src/vcd_to_png.py:141-158 | An initial `'1'` only sets the level and opens no cycle. |
| `Clock.SckCyclesExampleUnknown` | src/vcd_to_png.py:141-158 | A transition through `'x'` never closes a cycle. |
| `Clock.BuildSckCycles` | src/vcd_to_png.py:141-158 | The loop with its `last`/`pending_rise` state returns exactly `SckCycles`. |
| `Clock.PosTs` | src/vcd_to_png.py:162-163 | A host-driven bit is sampled strictly after the rising edge of its cycle. |
| `Clock.NegTs` | src/vcd_to_png.py:165-166 | A target-driven bit is sampled strictly after the falling edge of its cycle. |
| `Clock.TEdgeMonotone` | src/vcd_to_png.py:168-171 | On well-formed cycles the frame's bit boundaries 0..48 never go backwards, so the shaded zones do not overlap. |
| `Lanes.SortedUniqueSpec` | src/vcd_to_png.py:181 | Sorting the set of times gives an ascending list of exactly the collected times. |
| `Lanes.AscendingUnique` | src/vcd_to_png.py:181 | Two ascending lists with the same elements are equal, so `sorted(set(...))` is determined by the set. |
| `Lanes.StampsSpec` | src/vcd_to_png.py:175-180 | The collected times are exactly the timestamps of some event of some input; absent inputs add nothing. |
| `Lanes.ChangeTimesSpec` | src/vcd_to_png.py:174-181 | The merged change times are strictly ascending and are exactly the event times of the inputs. |
| `Lanes.MergeChangeTimes` | src/vcd_to_png.py:174-181 | The accumulation loop returns exactly `ChangeTimes`. |
| `Lanes.CompressKeeps` | src/vcd_to_png.py:199-201 | "Append only on change" keeps the first sample, ends in the last sample's state, adds nothing new and is empty only for no samples. |
| `Lanes.CompressChanges` | src/vcd_to_png.py:199-201 | No two consecutive entries of a derived lane carry the same state. |
| `Lanes.CompressStrictTimes` | src/vcd_to_png.py:199-201 | Compression keeps strictly increasing times. |
| `Lanes.CompressAt` | src/vcd_to_png.py:199-201 | Between sample `k` and sample `k+1` the compressed lane holds sample `k`'s state. |
| `Lanes.LastChange` | src/vcd_to_png.py:189-193 | Once any input has changed, every input reads at `t` what it read at the last merged change time at or before `t`. |
| `Lanes.TargetDriveAt` | src/vcd_to_png.py:193-198 | The target drive is `'z'` exactly when the enable does not read `'1'`; otherwise it is the defined testbench value, or `'x'` when that is not a bit. |
| `Lanes.TargetDriveLane` | src/vcd_to_png.py:187-188 | The target drive lane is empty exactly when the enable or the value wire is absent. |
| `Lanes.TargetDriveLaneShape` | src/vcd_to_png.py:183-202 | The target drive lane has strictly increasing times and no repeated state. |
| `Lanes.TargetDriveLaneAt` | src/vcd_to_png.py:183-202 | At every instant after the first input change the lane holds the pointwise target drive rule; before it, nothing. |
| `Lanes.TargetDriveScan` | src/vcd_to_png.py:193-198 | The per-time branch returns exactly `TargetDriveAt`. |
| `Lanes.DeriveTargetDrive` | src/vcd_to_png.py:183-202 | The loop returns exactly `TargetDriveLane`. |
| `Lanes.HostDriveAt` | src/vcd_to_png.py:217-225 | The host drive is `'z'` exactly when the testbench enable is present and reads `'1'`, or the bus reads `'z'`; otherwise it is the host output when that is a bit, and `'x'` when it is not. |
| `Lanes.HostDriveLane` | src/vcd_to_png.py:211-212 | The host drive lane is empty exactly when the host output or the bus is absent. |
| `Lanes.HostDriveLaneShape` | src/vcd_to_png.py:204-229 | The host drive lane has strictly increasing times and no repeated state. |
| `Lanes.HostDriveLaneAt` | src/vcd_to_png.py:204-229 | At every instant after the first input change the lane holds the pointwise host drive rule; before it, nothing. |
| `Lanes.HostDriveScan` | src/vcd_to_png.py:217-225 | The per-time branch returns exactly `HostDriveAt`. |
| `Lanes.DeriveHostDriveOnWire` | src/vcd_to_png.py:204-229 | The loop returns exactly `HostDriveLane`. |
| `Lanes.SampleHoldLane` | src/vcd_to_png.py:237-238 | The sample-and-hold lane is empty exactly when there are no cycles or no signal. |
| `Lanes.SampleHoldLaneShape` | src/vcd_to_png.py:231-252 | The sample-and-hold lane never repeats a state, and has strictly increasing times over well-formed cycles, zero-length ones included. |
| `Lanes.SampleHoldOnClock` | src/vcd_to_png.py:231-252 | On the cycles of any clock wire the sample-and-hold lane has strictly increasing times. |
| `Lanes.SampleHoldLaneAt` | src/vcd_to_png.py:231-252 | On well-formed cycles, from one update edge up to the next, the lane holds the signal sampled one unit after the first of them. |
| `Lanes.SampleHoldLaneBefore` | src/vcd_to_png.py:231-252 | Before the first update edge the lane holds nothing. |
| `Lanes.DeriveSampleHold` | src/vcd_to_png.py:231-252 | The loop returns exactly `SampleHoldLane`. |
| `Fields.ToBitsOfBitsValue` | src/vcd_to_png.py:255-262 | Composing defined bits LSB first and decomposing the value gives the bits back. |
| `Fields.BitsValueOfToBits` | src/vcd_to_png.py:255-262 | Decomposing a value below `2^n` into `n` bits and composing again gives the value back. |
| `Fields.LsbFirstToInt` | src/vcd_to_png.py:255-262 | Defined exactly for a non-empty list of `'0'`/`'1'` bits, with the value below `2^len` and the bits its binary form; otherwise `(0, False)`. |
| `Fields.BitsLsbFirstToInt` | src/vcd_to_png.py:255-262 | The loop that sets bit `i` for every `'1'` at position `i` returns exactly `LsbFirstToInt`. |
| `Fields.ParityEven32` | src/vcd_to_png.py:264-265 | The parity is 0 or 1. |
| `Fields.ParityOfBits` | src/vcd_to_png.py:264-265 | The parity of a 32-bit word is the parity of the number of ones among its 32 bits. |
| `Fields.ParityBitEvens` | src/vcd_to_png.py:264-265 | Appending the computed parity bit to a word's bits makes the number of ones even. |
| `Decode.TargetBitAt` | src/vcd_to_png.py:267-278 | A defined bus value wins. An undefined bus falls back on the testbench value exactly when the enable reads `'1'` and the value is a bit. Otherwise the bus value is returned. |
| `Decode.TargetBitFromLanes` | src/vcd_to_png.py:267-278 | The target bit is what the `target_sample` and `target_drive` lanes show at its instant: sample if a bit, else drive if a bit, else the sample. |
| `Decode.DecodeReq` | src/vcd_to_png.py:280-283 | Eight request bits from offsets 2..9 at their rising-edge instants; the byte is defined exactly when all eight are bits, and is then below 256 with those bits as its LSB-first form. |
| `Decode.DecodeAck` | src/vcd_to_png.py:285-289 | The ACK bits come from offsets 11..13, spelled last bit first. The string is `001` exactly for bits `1,0,0` (OK), `010` exactly for `0,1,0` (WAIT) and `100` exactly for `0,0,1` (FAULT). A recognised code has only defined bits. |
| `Decode.InferRnw` | src/vcd_to_png.py:291-295 | A direction is inferred exactly when the wire is present and reads a bit at the frame's first rising-edge instant, and it is that bit. |
| `Decode.Direction` | src/vcd_to_png.py:342-348 | Read exactly for mode `read` or an inferred `'1'` in `auto`. Write exactly for mode `write` or an inferred `'0'`. Never `'z'` (otherwise `'x'`). |
| `Decode.ParityMatchesCount` | src/vcd_to_png.py:360 | For a defined word and parity bit, matching `parity_even_32` is the same as an even number of ones over data plus parity. |
| `Decode.CheckWordParity` | src/vcd_to_png.py:359-363 | The parity check passes exactly after an OK ACK, with defined data and parity bits and an even count of ones. It reports ERR exactly when all are defined and the count is odd, and `?` otherwise. |
| `Decode.DecodeFrame` | src/vcd_to_png.py:342-376 | The decode and verdict block of `plot_frame`. Its contract is stated by `FrameData`, `FrameLayoutRead`, `FrameLayoutWrite`, `FrameParity`, `FrameVerdict` and `FrameOkNeedsAck`. |
| `Decode.FrameData` | src/vcd_to_png.py:350-362 | 32 data bits; the word is defined exactly when all are bits and is then their LSB-first value (else 0). `ack_ok` is ACK `001`; the word is shown exactly when ACK is OK and the word is defined. |
| `Decode.FrameLayoutRead` | src/vcd_to_png.py:354-357 | A frame decoded as a read takes data from the target at offsets 14..45, parity at 46 and a tail bit at 47. |
| `Decode.FrameLayoutWrite` | src/vcd_to_png.py:366-368 | A write, or a frame of unknown direction, takes data from the host output at offsets 15..46 and parity at 47, with no tail. |
| `Decode.FrameParity` | src/vcd_to_png.py:359-374 | A frame's parity cell passes, fails or is unknown as `CheckWordParity` states for its own bits; a pass means the parity bit equals `parity_even_32` of the data. |
| `Decode.FrameVerdict` | src/vcd_to_png.py:364-375 | `*_OK` exactly for ACK `001`, `*_WAIT/FAULT` exactly for `010`/`100`, `*(?)` otherwise; the verdict says READ exactly when the frame is decoded as a read. |
| `Decode.FrameOkNeedsAck` | src/vcd_to_png.py:352-364 | An OK ACK means fully defined bits `1,0,0`; a passing parity check implies an OK ACK, a shown word and an OK verdict. |
| `Align.PadPoints` | src/vcd_to_png.py:425-427 | At most two points, and two exactly when both idle bits read `'0'` on the host output. |
| `Align.TurnaroundPoints` | src/vcd_to_png.py:428-433 | Two points exactly for a released bus at offset 10. One point exactly when the bus is not released and the testbench enable is present and reads `'0'`. |
| `Align.DefinedAckPoints` | src/vcd_to_png.py:437-440 | At most three, and three exactly when all three ACK bits are defined. |
| `Align.FrameScore` | src/vcd_to_png.py:423-441 | The score lies in 0..15 and carries `decode_ack`'s code. A recognised ACK scores at least 11, any other at most 7. 15 exactly for idle `'0'` bits, a released turnaround and a recognised ACK. |
| `Align.DefaultThreshold` | src/vcd_to_png.py:423-441 | With the default `min_score = 8`, a window is accepted exactly when its ACK is recognised. |
| `Align.FirstRiseAfter` | src/vcd_to_png.py:450-456 | The index found is the first cycle rising after `t0`; none is found exactly when no cycle rises after `t0`. |
| `Align.FirstRiseAfterScan` | src/vcd_to_png.py:450-456 | The search loop with `break` returns exactly `FirstRiseAfter`. |
| `Align.Shifts` | src/vcd_to_png.py:458-461 | The number of shifts tried is 0 exactly when `max_shift <= 0` or no 48-cycle window fits. Otherwise it is `max_shift` or stops at the last start that fits. |
| `Align.BestSpec` | src/vcd_to_png.py:464-465 | The kept candidate exists exactly for a non-empty scan, is one of the candidates, scores at least every candidate, and beats every earlier one (earliest on ties). |
| `Align.BestOfTable` | src/vcd_to_png.py:457-465 | In the scanned table the kept candidate sits at the offset its start names, is a maximum, and every earlier start scores less. |
| `Align.WindowBestPlace` | src/vcd_to_png.py:457-465 | A window has a best start exactly when `max_shift > 0` and a 48-cycle window fits after `base`; that start lies within `max_shift` of `base` and has all 48 cycles. |
| `Align.WindowBestIsCandidate` | src/vcd_to_png.py:462-465 | The best start carries its own `frame_score` and ACK. |
| `Align.WindowBestIsMaximum` | src/vcd_to_png.py:457-465 | No start of the window scores more than the best. |
| `Align.WindowBestIsFirst` | src/vcd_to_png.py:464-465 | Every start before the best scores strictly less: ties go to the smallest shift. |
| `Align.ReportSpec` | src/vcd_to_png.py:466-468 | A report is the window's best start, stamped with its rising-edge time, and reaches `min_score`. There is no report exactly when no start of the window reaches it. |
| `Align.FrameAfterResetSpec` | src/vcd_to_png.py:449-468 | A reset is skipped exactly when no cycle rises after it or no start reaches `min_score`; otherwise its report is as `ReportSpec` says for the first cycle rising after it. |
| `Align.FrameAfterResetIsAfterReset` | src/vcd_to_png.py:449-468 | On well-formed cycles a reported frame starts after its reset. |
| `Align.FlattenPresent` | src/vcd_to_png.py:466-468 | Collecting the per-reset reports keeps each present report once, in order; there are no more reports than resets. |
| `Align.FramesAfterResets` | src/vcd_to_png.py:443-469 | `find_best_frames_after_rst` as a value. Its contract is stated by `FramesAfterResetsSpec`, `FramesInRange`, `ReportSpec` and the `WindowBest*` lemmas, and the loops by `FindBestFramesAfterRst`. |
| `Align.FramesAfterResetsSpec` | src/vcd_to_png.py:443-469 | Fewer than 48 cycles gives no report. Otherwise there is at most one report per reset, in reset order, each being the report for its own reset. |
| `Align.FramesInRange` | src/vcd_to_png.py:443-469 | Every reported frame has all 48 of its cycles. |
| `Align.BestOfSnoc` | src/vcd_to_png.py:462-465 | Scanning one more start replaces the kept candidate exactly when the new start scores strictly more. |
| `Align.ScoreAndKeep` | src/vcd_to_png.py:459-465 | One pass of the shift loop turns the best of the first `sh` starts into the best of the first `sh + 1`. |
| `Align.WindowScan` | src/vcd_to_png.py:457-465 | The shift loop, with its `break` when a window no longer fits, returns exactly the window's best candidate. |
| `Align.FindBestFramesAfterRst` | src/vcd_to_png.py:443-469 | The nested loops return exactly `FramesAfterResets`. |
| `Align.ResetTimes` | src/vcd_to_png.py:559-561 | The search starts from the reset wire's rising edges; when there are none (or no wire) it starts from the single sentinel time `-1`. The list is never empty. |
| `Align.SentinelScansFromStart` | src/vcd_to_png.py:561 | With the sentinel, the search window opens at the first cycle of a capture with non-negative times. |
| `Align.AnnotateCapture` | src/vcd_to_png.py:555-582 | The annotation part of `main` for one capture. Its contract is stated by `AnnotateCaptureSpec`, `ResetTimes` and `SentinelScansFromStart`. |
| `Align.AnnotateCaptureSpec` | src/vcd_to_png.py:555-582 | No annotation without clock, host output, bus and 48 cycles. In `auto` mode, "no frame" exactly when the search finds none. Otherwise every found frame is decoded at its own start, in order. |

## Left out

- Drawing is not modelled, because it is plotting only: `plot_raw`, the drawing half of `plot_frame`, `shade_zone`, `tv_to_step_1bit` and `collect_time_range`, along with their floating-point constants.
- The hex texts (`0x%08X`, `0x%02X`, the dash) and the summary line are not modelled. The model keeps the values and a "shown" flag, but not the text formatting.
- VCD loading (`build_ref_to_tv`, `pick_by_suffix`) is left out. It depends on the trace-parser library's objects, so the model takes each wire as an already-loaded timeline.
- Command-line parsing, file globbing, directory creation, `print` logging and the `--no_frames` switch are left out. The `--mode`, `--max_shift` and `--min_score` options are parameters of the model.
- The captured value object is taken as its text (`str(v)`) or as absent. The model does not follow how the parser spells multi-bit vectors.
- Timestamps are taken as integers already, so the `int(t)` conversion in `merge_change_times` is the identity.
- `merge_change_times` collects into a Python set, which is modelled as an ascending duplicate-free list. The element choice and hashing of the set are not modelled; only its sorted contents are used.
- The `edge` argument of `derive_sample_hold_tv_from_cycles` is a two-valued `Edge`. Any string other than `"pos"` behaves like `"neg"` in the code; the script passes only these two.
- A derived lane at an instant before its inputs' first change holds nothing, since no entry has been emitted yet. `Lanes.TargetDriveLaneAt`, `Lanes.HostDriveLaneAt` and `Decode.TargetBitFromLanes` state their pointwise rule only from the first change on.
