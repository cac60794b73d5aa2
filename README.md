# Hubris thermal loop and device-service cores, in Dafny

This project models the core of several Hubris tasks and drivers and proves
properties of the model.

The main part is the thermal control loop of `task/thermal`:

- the one-sided anti-windup PID controller;
- the worst-case projection of a stale temperature sample;
- the four-state safety machine (Boot, Running, Overheated, Uncontrollable), driven once per tick by `run_control`;
- the per-tick sensor fusion of `read_sensors`.

Beside it are smaller cores:

- the Tofino 2 sequencer and debug-port register encoders, and the EEPROM chunking (`sidecar-mainboard-controller`);
- the validation and packing of transceiver requests arriving over the network (`transceivers-server`);
- the Ignition port-state decoders and the Ignition server's guards (`ignition-api`, `ignition-server`);
- the SPDM task's single-slot mailbox;
- the control-plane agent's device inventory;
- the kernel ABI's priority order, flag layouts and application header.

Modules, one file each:

- `ThermalPid`: `thermal_pid.dfy`.
- `ThermalState`: `thermal_state.dfy`.
- `ThermalDecision`: `thermal_decision.dfy`.
- `ThermalLoop`: `thermal_control.dfy`.
- `Tofino2`: `tofino2.dfy`.
- `BitFlags`: `bitflags.dfy`. These are shared byte-flag lemmas.
- `TransceiversNet`: `transceivers_net.dfy`.
- `IgnitionApi`: `ignition_api.dfy`.
- `IgnitionServer`: `ignition_server.dfy`.
- `Spdm`: `spdm.dfy`.
- `Inventory`: `inventory.dfy`.
- `Abi`: `abi.dfy`.
- `Wrappers`: `wrappers.dfy`. This holds `Option`, `Result` and `Unit`.

Modelling choices:

- `f32` is modelled as `real`. The NaN and infinity guards can then never fire. `pwm as u8` is `Floor` on a value already clamped to `[0, 100]`.
- Millisecond timestamps are `u64` subset types. A Rust overflow check that would panic is an explicit `ArithmeticOverflow` outcome.
- The stateful parts are classes whose methods update fields in place:
  - `ThermalControl` and `OneSidedPid`;
  - `IgnitionServer`;
  - `SpdmServer`;
  - `FmtComponentId`.
- Each such method is proved equal to a pure specification function (`Sense`, `Decide`, `SendSpec`, …). The properties the source promises are proved about those functions.
- Hardware access, IPC, clocks and lease transfers become parameters of the operations:
  - sensor read results;
  - fan write results;
  - the power mode;
  - EEPROM and controller replies;
  - the SPDM responder's reply;
  - `validate`'s answers;
  - whether a lease read or write succeeded.
- The generated register addresses and bit masks are parameters too. Where a property depends on them, it requires non-zero, pairwise disjoint masks.

## Model

| member | source | states |
|---|---|---|
| ThermalPid.PidStep | task/thermal/src/control.rs:317-353 | one controller step sets the previous error to `error`, keeps the integral inside the anti-windup window chosen from the P+D output, and for a non-negative limit returns an output in `[0, limit]` |
| ThermalPid.IntegralWindow | task/thermal/src/control.rs:336-342 | the window is non-empty for a non-negative limit; with P+D inside `[0, limit]` any integral in it keeps the sum in range; above the limit it only pulls down, below zero it only pushes up |
| ThermalPid.ClampInto | task/thermal/src/control.rs:343 | `max` then `min` lands inside a non-empty range and leaves values already inside unchanged |
| ThermalPid.Saturate | task/thermal/src/control.rs:345-352 | the output clamp lies in `[0, limit]` and is the identity inside it |
| ThermalPid.Derivative | task/thermal/src/control.rs:325-329 | no derivative contribution before the first sample |
| ThermalPid.NoSaturationWhenPdInRange | task/thermal/src/control.rs:334-352 | when P+D is inside `[0, limit]` the output is exactly P + I + D: the output clamp never bites |
| ThermalPid.SaturatedHighIntegralNonPositive | task/thermal/src/control.rs:336-343 | while P+D exceeds the limit the stored integral is never positive: windup is bounded |
| ThermalPid.FirstStepIgnoresDerivative | task/thermal/src/control.rs:325-330 | from the default state the first output does not depend on the derivative gain |
| ThermalPid.OneSidedPid.constructor | task/thermal/src/control.rs:356-363 | a fresh controller has no previous error and a zero integral |
| ThermalPid.OneSidedPid.Run | task/thermal/src/control.rs:317-353 | `run` updates the controller in place to exactly `PidStep`'s next state and returns its output, in `[0, limit]` |
| ThermalState.FromNvmeError | task/thermal/src/control.rs:140-151 | each NVMe error has its own image, both ways: bus errors pass through with their code, sensor failure and the reserved value keep their kinds, both corrupt-reply kinds become `CorruptReply`, and no-data stays no-data |
| ThermalState.ControlState.Put | task/thermal/src/control.rs:398-428 | a write stores the reading in its slot and changes no other slot, nor the variant, the controller or the start time; Uncontrollable ignores it |
| ThermalState.ResetState | task/thermal/src/control.rs:510-515 | reset gives Boot with every slot unheard |
| ThermalState.MapPid | task/thermal/src/control.rs:366-392 | replacing the controller keeps every slot and the variant |
| ThermalState.Known | task/thermal/src/control.rs:619-645 | Boot's view of its slots: a slot counts as sampled exactly when it has heard a valid reading, which is kept |
| ThermalState.Unwrap | task/thermal/src/control.rs:662 | `values.map(unwrap)` keeps every reading of a fully reported Boot state |
| ThermalState.Project | task/thermal/src/control.rs:631-684 | the projection equals the stored value when no time has passed and is never below it for a non-negative slew |
| ThermalState.ProjectMonotonic | task/thermal/src/control.rs:631-684 | the projection is non-decreasing in `now` for a non-negative slew |
| ThermalState.Incoming | task/thermal/src/control.rs:564-599 | an input off in the power mode is Inactive; a good read is a sample stamped `now`; a removable `NoDevice` is Inactive; any other failure writes nothing, both directions |
| ThermalState.ApplyReads | task/thermal/src/control.rs:564-603 | reading inputs in order keeps the slot count, the variant, the controller and the start time, and never stores a sample later than `now` |
| ThermalState.Sense | task/thermal/src/control.rs:557-603 | `read_sensors` leaves one slot per input, a power-mode change ends in Boot, and no stored sample is later than `now` |
| ThermalState.ApplyReadsSlot | task/thermal/src/control.rs:564-603 | after `k` inputs, slot `i` holds what input `i` produced if `i < k` and it produced something, otherwise what it held before |
| ThermalState.SenseSlot | task/thermal/src/control.rs:557-603 | per slot: written when the input produced something, otherwise unheard after a power-mode change or the previous (stale) reading |
| ThermalState.UncontrollableIgnoresReads | task/thermal/src/control.rs:413-426 | in Uncontrollable every write is a no-op |
| ThermalState.SenseMapPid | task/thermal/src/control.rs:557-603 | reading the sensors never touches the controller: it commutes with replacing it |
| ThermalState.NvmeInBandErrorKeepsStaleReading | task/thermal/src/control.rs:140-151 | an NVMe drive's in-band error never marks its input Inactive, even when removable; the stale reading is kept |
| ThermalDecision.ForwardTemps | task/thermal/src/control.rs:619-684 | Boot and Running project exactly the sampled inputs forward from their time stamp to `now` |
| ThermalDecision.ReversedTemps | task/thermal/src/control.rs:730-735 | Overheated's projection as written, defined only when no sample is older than `now` |
| ThermalDecision.WorstMargin | task/thermal/src/control.rs:617-639 | the fold of `min` is at most `f32::MAX`, at most every sampled input's margin, and equal to one of them unless none is sampled |
| ThermalDecision.DutyOf | task/thermal/src/control.rs:661-718 | `pwm as u8` on a clamped output is its floor and at most 100 |
| ThermalDecision.RunPid | task/thermal/src/control.rs:652-718 | one controller step keeps the state Running with the stepped controller and yields a duty of at most 100 |
| ThermalDecision.Decide | task/thermal/src/control.rs:613-780 | the tick's decision: a duty is at most 100, power-down happens exactly when the next state is Uncontrollable, Uncontrollable always powers down, an overflow keeps the Overheated state, and the next state is again decidable |
| ThermalDecision.DecideCorrected | task/thermal/src/control.rs:613-780 | the decision with Overheated projecting forward; it can only overflow on `start_time + timeout` |
| ThermalDecision.FreshProjectionsAgree | task/thermal/src/control.rs:621-735 | with every sample taken at `now` both projections give the raw samples |
| ThermalDecision.PowerDownPreempts | task/thermal/src/control.rs:634-751 | in any state with slots, one input at or above its power-down temperature gives Uncontrollable and PowerDown, whatever the other inputs are |
| ThermalDecision.BootWaitsForEveryInput | task/thermal/src/control.rs:644-670 | while some input has never reported (and none is at power-down), Boot stays Boot at 100% |
| ThermalDecision.BootEntersRunning | task/thermal/src/control.rs:651-667 | once every input has reported (Inactive does not block) Boot enters Running with every slot unwrapped and one step of a fresh controller on `target_margin - worst_margin` |
| ThermalDecision.BootEntersRunningExample | task/thermal/src/control.rs:615-667 | two stale inputs 25 °C over target leave Boot with a 25% duty under a proportional gain of 1 |
| ThermalDecision.RunningEntersOverheated | task/thermal/src/control.rs:700-707 | a critical input (none at power-down) gives Overheated starting at `now` with 100% |
| ThermalDecision.RunningRunsPid | task/thermal/src/control.rs:708-724 | below critical everywhere Running keeps its readings and takes one controller step |
| ThermalDecision.OverheatedRecovers | task/thermal/src/control.rs:752-765 | all inputs below critical by more than the hysteresis give Running with a fresh controller |
| ThermalDecision.OverheatedTimeoutIsStrict | task/thermal/src/control.rs:766-777 | without recovery Overheated powers down only strictly after `start + timeout`, and holds 100% up to it |
| ThermalDecision.OverheatedStaleSampleFaults | task/thermal/src/control.rs:733-735 | as written, any sample older than `now` makes the Overheated arm overflow |
| ThermalDecision.OverheatedStaleSampleExample | task/thermal/src/control.rs:733-735 | a one-second-old 85 °C sample faults as written; corrected it projects to 86 °C and holds 100% |
| ThermalDecision.CorrectedAgreesWhenFresh | task/thermal/src/control.rs:726-778 | whenever the as-written arm does not fault, the corrected decision is the same |
| ThermalDecision.CorrectedStaleSamplePowersDown | task/thermal/src/control.rs:740-751 | corrected, a stale sample whose projection reaches power-down powers the system down |
| ThermalDecision.CorrectedNeverFaultsOnStaleSample | task/thermal/src/control.rs:726-778 | corrected, Overheated never overflows unless `start + timeout` does |
| ThermalDecision.UncontrollableIsAbsorbing | task/thermal/src/control.rs:779 | without a power-mode change a tick leaves Uncontrollable unchanged and powers down |
| ThermalLoop.ScanBoot | task/thermal/src/control.rs:616-643 | Boot's loop computes exactly "every slot reported", "some input at power-down" and the worst margin over the forward projections |
| ThermalLoop.ScanRunning | task/thermal/src/control.rs:673-696 | Running's loop computes exactly power-down, critical and the worst margin over the forward projections |
| ThermalLoop.ScanOverheated | task/thermal/src/control.rs:727-750 | Overheated's loop overflows exactly when some sample is stale, and otherwise computes all-subcritical, power-down and the worst margin over the reversed projections |
| ThermalLoop.BroadcastPwm | task/thermal/src/control.rs:799-815 | a duty above 100 is refused with no write; otherwise every fan is written that duty, in order, even after a failed write, and the result is DeviceError exactly when some write failed |
| ThermalLoop.ThermalControl.constructor | task/thermal/src/control.rs:434-450 | Boot with no slot heard, zero margin, empty power mode, the board's controller settings |
| ThermalLoop.ThermalControl.SetPid | task/thermal/src/control.rs:452-484 | refused exactly for `p <= 0`, `i < 0` or `d < 0`, changing nothing; otherwise the new settings, with a Running controller's integral cleared when `i == 0` |
| ThermalLoop.ThermalControl.SetMargin | task/thermal/src/control.rs:486-492 | refused exactly for a negative margin, which is then unchanged |
| ThermalLoop.ThermalControl.GetMargin | task/thermal/src/control.rs:494-496 | the reported margin is never negative, since `set_margin` refuses negative ones |
| ThermalLoop.ThermalControl.ResetControlState | task/thermal/src/control.rs:510-515 | the state returns to Boot with no slot heard |
| ThermalLoop.ThermalControl.Reset | task/thermal/src/control.rs:499-507 | Boot, the board's controller settings and a zero margin |
| ThermalLoop.ThermalControl.GetState | task/thermal/src/control.rs:848-859 | the reported state names the stored variant, both ways |
| ThermalLoop.ThermalControl.FanAt | task/thermal/src/control.rs:826-834 | a fan handle exists exactly for indices below the fan count |
| ThermalLoop.ThermalControl.ReadSensors | task/thermal/src/control.rs:557-603 | the stored state becomes `Sense` of the old state and the power mode becomes the new one |
| ThermalLoop.ThermalControl.ControlBoot | task/thermal/src/control.rs:615-671 | the Boot arm leaves the state and outcome `BootDecision` gives |
| ThermalLoop.ThermalControl.ControlRunning | task/thermal/src/control.rs:672-725 | the Running arm, with its controller stepped in place, matches `RunningDecision` |
| ThermalLoop.ThermalControl.ControlOverheated | task/thermal/src/control.rs:726-778 | the Overheated arm as written matches `OverheatedDecision` |
| ThermalLoop.ThermalControl.RunControl | task/thermal/src/control.rs:611-797 | a tick leaves the state `Decide(Sense(old state))`; it panics exactly on an overflow, writing no fan; otherwise every one of the board's fans is written the chosen duty, or 0% after power-down, and the tick reports DeviceError exactly when some write failed |
| Tofino2.PcieReset | drv/sidecar-mainboard-controller/src/tofino2.rs:182-193 | with OVERRIDE_HOST_RESET clear the host is in control whatever RESET says; with it set, Asserted exactly when RESET is set |
| Tofino2.PcieResetRoundTrip | drv/sidecar-mainboard-controller/src/tofino2.rs:182-216 | reading back the value `set_pcie_reset(r)` writes gives `r`, from any register value |
| Tofino2.CtrlNextKeepsOtherBits | drv/sidecar-mainboard-controller/src/tofino2.rs:199-215 | `set_pcie_reset` changes only the RESET and OVERRIDE_HOST_RESET bits |
| Tofino2.SpiCommand | drv/sidecar-mainboard-controller/src/tofino2.rs:460-467 | the command fits a byte, has bit 7 set, the read count in bits 4-6 and the write count in bits 0-3 |
| Tofino2.VidFromCode | drv/sidecar-mainboard-controller/src/tofino2.rs:38-47 | exactly the codes 8..15 decode, each to the VID with that code |
| Tofino2.VidCodeRoundTrip | drv/sidecar-mainboard-controller/src/tofino2.rs:38-47 | every VID survives encoding and decoding |
| Tofino2.Vid | drv/sidecar-mainboard-controller/src/tofino2.rs:136-147 | no VID while VID_VALID is clear; a decoded VID for codes 8..15; InvalidValue otherwise |
| Tofino2.DirectAddress | drv/sidecar-mainboard-controller/src/tofino2.rs:267-357 | the low 28 bits of the address are the offset and the top bits the segment |
| Tofino2.DirectAddressInjective | drv/sidecar-mainboard-controller/src/tofino2.rs:267-357 | different segments or offsets give different addresses |
| Tofino2.LeU32Bytes | drv/sidecar-mainboard-controller/src/tofino2.rs:549-554 | `u32::from_le_bytes` puts each byte at its own position |
| Tofino2.EepromCommandWordDecodes | drv/sidecar-mainboard-controller/src/tofino2.rs:549-589 | a command word holds the instruction, the offset's high and low bytes (giving a 16-bit offset back), then the last byte |
| Tofino2.EepromWriteWordsCarryData | drv/sidecar-mainboard-controller/src/tofino2.rs:584-595 | the two write words carry the four data bytes in order |
| Tofino2.Chunk | drv/sidecar-mainboard-controller/src/tofino2.rs:622-642 | chunk `i` is the data from byte `4i`, four bytes long except possibly the last |
| Tofino2.ReadStop | drv/sidecar-mainboard-controller/src/tofino2.rs:622-625 | the first chunk whose read fails; every read before it succeeds |
| Tofino2.ReadEepromBytes | drv/sidecar-mainboard-controller/src/tofino2.rs:611-627 | a misaligned offset is refused before any access; otherwise chunk `i` is read at `offset + 4i` into its bytes, stopping with the first failing read's error |
| Tofino2.WriteBuffer | drv/sidecar-mainboard-controller/src/tofino2.rs:641-643 | the buffer written for chunk `i` starts with that chunk's bytes |
| Tofino2.WriteBufferKeepsTail | drv/sidecar-mainboard-controller/src/tofino2.rs:641-643 | a short last chunk leaves the buffer's tail as the previous chunk wrote it, zero for the first |
| Tofino2.WriteBufferCoversData | drv/sidecar-mainboard-controller/src/tofino2.rs:641-644 | every data byte `j` is written at EEPROM address `offset + j` |
| Tofino2.WriteStop | drv/sidecar-mainboard-controller/src/tofino2.rs:641-645 | the first chunk whose write fails; every write before it succeeds |
| Tofino2.WriteEepromBytes | drv/sidecar-mainboard-controller/src/tofino2.rs:631-648 | a misaligned offset is refused with no write; otherwise the writes issued are chunk by chunk at `offset + 4i`, up to and including the first failure, whose error is returned |
| Tofino2.CopyChunkIn | drv/sidecar-mainboard-controller/src/tofino2.rs:623 | copies at most four bytes into the data at the chunk's start and changes nothing else |
| Tofino2.CopyChunkOver | drv/sidecar-mainboard-controller/src/tofino2.rs:642 | the chunk overwrites the front of the reused buffer and the rest is kept |
| BitFlags.UnionHas | drv/transceivers-server/src/net_api.rs:204-220 | with disjoint masks, each mask is in the union exactly when its condition holds |
| BitFlags.DecodeUnion | drv/ignition-api/src/lib.rs:173-183 | with disjoint masks, testing each mask of a union gives back the conditions |
| TransceiversNet.GetFpga | drv/transceivers-server/src/net_api.rs:30-36 | 0 is Left, 1 is Right, any other id is `InvalidFpga(id)` |
| TransceiversNet.GetMask | drv/transceivers-server/src/net_api.rs:39-52 | the ports go to the addressed FPGA's half, the other half is zero; any other id is refused |
| TransceiversNet.UnpackConsistent | drv/transceivers-server/src/net_api.rs:23-27 | `unpack` succeeds exactly for ids 0 and 1, and then the mask sits on the decoded FPGA's side |
| TransceiversNet.PageCheck | drv/transceivers-server/src/net_api.rs:356-405 | a refused access reports its own offset and length |
| TransceiversNet.PageCheckWithinOnePage | drv/transceivers-server/src/net_api.rs:356-405 | the page check accepts exactly the accesses whose bytes all lie in one 128-byte page |
| TransceiversNet.ReadCheck | drv/transceivers-server/src/net_api.rs:356-369 | a read passes exactly when it stays in its page and is not a CMIS read over 8 bytes, which is RequestTooLarge |
| TransceiversNet.WriteCheck | drv/transceivers-server/src/net_api.rs:398-421 | a write passes exactly when it stays in its page and is at most 8 bytes (CMIS) or 4 bytes (SFF-8636) |
| TransceiversNet.WriteCheckStricter | drv/transceivers-server/src/net_api.rs:356-421 | every accepted write would also be an accepted read |
| TransceiversNet.IndicesBelowSpec | drv/transceivers-server/src/net_api.rs:202 | `to_indices` lists exactly the selected ports, each once, in increasing order |
| TransceiversNet.RequestSize | drv/transceivers-server/src/net_api.rs:228-236 | the request size is bounded by 255 bytes for each of 16 ports |
| TransceiversNet.NoPortSelected | drv/transceivers-server/src/net_api.rs:236-239 | an empty port mask selects no port, so the size check admits any data length |
| TransceiversNet.HandleMessage | drv/transceivers-server/src/net_api.rs:134-154 | version other than 1 is VersionMismatch, any non-host-request body is ProtocolError, a host request is served |
| TransceiversNet.ReadRequest | drv/transceivers-server/src/net_api.rs:348-388 | an oversized reply is refused first; after the checks and the I2C setup a zero-length read panics; success exactly when the checks, the FPGA id and the setup pass on a non-empty read and every selected port's buffer is fetched (always, with no port selected), reporting `len * popcount(ports)` bytes; a later failure is ReadFailed |
| TransceiversNet.WriteRequest | drv/transceivers-server/src/net_api.rs:390-438 | a receive buffer, after the header, shorter than `len * popcount(ports)` is refused first; an unknown FPGA or failed page select is WriteFailed; it panics exactly when that buffer is shorter than one region, which needs an empty port mask; success exactly when everything passes |
| TransceiversNet.ReadRequestCorrected | drv/transceivers-server/src/net_api.rs:378-386 | never panics: a zero-length read replies with no data, and every other request gets the as-written reply; success always reports `RequestSize` bytes |
| TransceiversNet.ZeroLengthReadPanics | drv/transceivers-server/src/net_api.rs:378-386 | a zero-length read of a valid module set whose I2C setup succeeds panics as written, and replies with no data corrected |
| TransceiversNet.EmptyMaskReadSucceeds | drv/transceivers-server/src/net_api.rs:377-387 | a non-empty read of no port succeeds with an empty reply once the I2C setup does, since the copy loop has nothing to fetch |
| TransceiversNet.WriteRequestCorrected | drv/transceivers-server/src/net_api.rs:427-429 | data shorter than the region is RequestTooLarge, so it never panics; with enough data it agrees with the arm as written |
| TransceiversNet.EmptyMaskShortWritePanics | drv/transceivers-server/src/net_api.rs:235-243 | a write to no port, with less of the receive buffer left after the header than the region's length, passes the size check and panics once the page is selected; corrected it is RequestTooLarge |
| TransceiversNet.StatusByteFlags | drv/transceivers-server/src/net_api.rs:204-220 | with distinct flags, each flag of port `i`'s status byte is set exactly when the port's bit is set in that flag's register |
| TransceiversNet.StatusBytes | drv/transceivers-server/src/net_api.rs:202-225 | one status byte per selected port |
| TransceiversNet.PackStatus | drv/transceivers-server/src/net_api.rs:200-226 | writes exactly one status byte per selected port, in port order, from the start of the buffer, returns their count and leaves the rest of the buffer unchanged |
| TransceiversNet.ShiftReply | drv/transceivers-server/src/net_api.rs:92-96 | the reply data moves to right after the header, the rest of the buffer is untouched, and the size is `msg_len + data_len` |
| IgnitionApi.ReceiverStatusFrom | drv/ignition-api/src/lib.rs:173-183 | each field is its mask's bit in the link status byte |
| IgnitionApi.ReceiverStatusRoundTrip | drv/ignition-api/src/lib.rs:173-183 | with disjoint masks the status decodes back from the byte it was encoded into |
| IgnitionApi.SystemFaultsFrom | drv/ignition-api/src/lib.rs:274-287 | each fault is its mask's bit in the faults byte |
| IgnitionApi.SystemFaultsRoundTrip | drv/ignition-api/src/lib.rs:274-287 | with disjoint masks the faults decode back from their byte |
| IgnitionApi.LinkEventsFrom | drv/ignition-api/src/lib.rs:347-358 | each event is its mask's bit in the summary byte |
| IgnitionApi.LinkEventsRoundTrip | drv/ignition-api/src/lib.rs:347-364 | with disjoint masks the events decode back from their byte |
| IgnitionApi.LinkEventsNone | drv/ignition-api/src/lib.rs:343 | `LinkEvents::NONE` has every event false, whatever the masks |
| IgnitionApi.LinkEventsAll | drv/ignition-api/src/lib.rs:344 | `LinkEvents::ALL` has every event true when the masks lie in the low six bits |
| IgnitionApi.SystemPowerStateFrom | drv/ignition-api/src/lib.rs:243-262 | strict priority: abort, then power-on, then power-off in progress, then enabled, then Off, each case both ways |
| IgnitionApi.TargetFrom | drv/ignition-api/src/lib.rs:204-230 | every field is read from its own register of the state word: the id, the power state from the system and request status bytes, the reset-in-progress bit, the faults, and both controllers' DETECTED bits |
| IgnitionApi.TargetRequestInProgress | drv/ignition-api/src/lib.rs:196-262 | a request is in progress exactly when a reset is, or no abort is flagged and a power-on or power-off is under way |
| IgnitionApi.PortFrom | drv/ignition-api/src/lib.rs:146-163 | a target is reported exactly when TARGET_PRESENT is set, and the receiver status is decoded from the link status byte |
| IgnitionApi.RequestFromCode | drv/ignition-api/src/lib.rs:311-321 | exactly the codes 1..3 decode, each to the request with that code |
| IgnitionApi.RequestCodeRoundTrip | drv/ignition-api/src/lib.rs:311-321 | every request survives encoding and decoding |
| IgnitionApi.TransceiverSelectFromCode | drv/ignition-api/src/lib.rs:386-390 | exactly the codes 1..3 decode, each to the transceiver with that code |
| IgnitionApi.AllTransceiversComplete | drv/ignition-api/src/lib.rs:392-394 | `TransceiverSelect::ALL` lists every transceiver exactly once |
| IgnitionApi.Targets | drv/ignition-api/src/lib.rs:111-122 | slot `i` holds the target of state `i` for the batch's prefix, every later slot is empty, and an error is passed on |
| IgnitionServer.PortCountReply | drv/ignition-server/src/main.rs:100-109 | FpgaError exactly when the stored count is 0xff, otherwise the count |
| IgnitionServer.PerPort | drv/ignition-server/src/main.rs:121-178 | a port at or past the count is InvalidPort, otherwise the controller's reply |
| IgnitionServer.PerPortIgnoresController | drv/ignition-server/src/main.rs:126-172 | an out-of-range port gets the same reply whatever the controller would say |
| IgnitionServer.SendRequestCheck | drv/ignition-server/src/main.rs:186-200 | the request passes exactly when the port exists, its state is readable, a target is present and nothing is in progress; each failure has its own error, in order |
| IgnitionServer.DivHalf | drv/ignition-server/src/main.rs:226 | halving `s / p` is dividing `s` by `2p`, so single-bit shifts compose |
| IgnitionServer.ShiftRightIsBitShift | drv/ignition-server/src/main.rs:219-227 | after `i` single-bit shifts the summary is `x >> i`, and its low bit is set exactly when port `i`'s presence bit is |
| IgnitionServer.NextDeadline | drv/ignition-server/src/main.rs:259-260 | the deadline lies in `(finish, finish + TIMER_INTERVAL]` at a whole number of periods after `start`; a backwards clock or a 64-bit overflow panics |
| IgnitionServer.NextDeadlineIsFirst | drv/ignition-server/src/main.rs:259-260 | no period boundary after `start` lies past `finish` and before the deadline |
| IgnitionServer.IgnitionServer.constructor | drv/ignition-server/src/main.rs:34-62 | the count read at start-up, no presence seen, nothing forwarded |
| IgnitionServer.IgnitionServer.PollPresence | drv/ignition-server/src/main.rs:81-90 | a successful poll stores the current summary; a failed one changes nothing |
| IgnitionServer.IgnitionServer.HandleNotification | drv/ignition-server/src/main.rs:238-263 | presence is polled only for a plausible port count, and the next deadline is `NextDeadline` |
| IgnitionServer.IgnitionServer.SendRequest | drv/ignition-server/src/main.rs:180-206 | the request is forwarded, and the controller's answer returned, exactly when every check passes; otherwise nothing is forwarded |
| IgnitionServer.IgnitionServer.StateDump | drv/ignition-server/src/main.rs:208-230 | slot `i` holds port `i`'s state exactly when `i` is below both PORT_MAX and the count and its presence bit is set, otherwise 0; it fails exactly when some such port is unreadable, with the error of the first one |
| Spdm.Initial | task/spdm/src/main.rs:72-78 | a new server has nothing valid and a zeroed buffer |
| Spdm.InvertInvolutive | task/spdm/src/main.rs:107-109 | XOR with 0xff twice gives the bytes back |
| Spdm.InvertByte | task/spdm/src/main.rs:108 | XOR with 0xff changes every byte and is its own inverse |
| Spdm.SendCheck | task/spdm/src/main.rs:90-98 | the guards in order: MessageAlreadyExists, ShortMessage, SourceTooLarge; pass exactly when all hold |
| Spdm.SendSpec | task/spdm/src/main.rs:83-111 | success exactly when the guards pass and the source is read; then `valid = length` and the message is the source inverted, the rest of the buffer kept; any failure changes nothing |
| Spdm.RecvSpec | task/spdm/src/main.rs:115-135 | NoMessageAvailable, SinkTooSmall, or success handing out the valid bytes, zeroing them and emptying the slot; any failure changes nothing |
| Spdm.ExchangeSpec | task/spdm/src/main.rs:138-198 | the send guards, then SinkTooSmall, then the lease read; a source longer than the buffer then panics, exactly; success returns the reply length and leaves the slot empty; a responder reset changes nothing; a failed sink write leaves `valid` at the reply length |
| Spdm.ExchangeSpecCorrected | task/spdm/src/main.rs:164-169 | a source longer than the buffer is SourceTooLarge with the slot unchanged; every source that fits gets the as-written outcome |
| Spdm.LongSourceExchangePanics | task/spdm/src/main.rs:164-169 | a 300-byte source carrying a one-byte message panics as written and is SourceTooLarge corrected |
| Spdm.SendRecvRoundTrip | task/spdm/src/main.rs:101-134 | a send then a recv hands back the message inverted, which inverted again is the client's bytes, and empties the slot |
| Spdm.SingleSlot | task/spdm/src/main.rs:90-92 | a second send before the recv is refused and changes nothing |
| Spdm.ZeroLengthSendStoresNothing | task/spdm/src/main.rs:93-122 | a zero-length send succeeds but the following recv finds no message |
| Spdm.ExchangeThenSend | task/spdm/src/main.rs:190-195 | after a successful exchange the slot is free again; after a failed sink write with a non-empty reply every send is refused |
| Spdm.SpdmServer.constructor | task/spdm/src/main.rs:72-78 | the slot starts as `Initial` |
| Spdm.SpdmServer.Send | task/spdm/src/main.rs:83-111 | the copy and in-place inversion leave exactly `SendSpec`'s slot and answer |
| Spdm.SpdmServer.Recv | task/spdm/src/main.rs:115-135 | the hand-out and in-place zeroing leave exactly `RecvSpec`'s slot and answer |
| Spdm.SpdmServer.Exchange | task/spdm/src/main.rs:138-198 | the server's exchange leaves exactly `ExchangeSpec`'s slot and answer, and reports a panic (slot unchanged) exactly when `ExchangeSpec` does |
| Inventory.PresenceOf | task/control-plane-agent/src/inventory.rs:53-68 | the presence table, each presence with exactly its answers |
| Inventory.EveryPresenceReported | task/control-plane-agent/src/inventory.rs:53-68 | every presence is reported for some answer |
| Inventory.CapabilitiesOf | task/control-plane-agent/src/inventory.rs:82-85 | HAS_MEASUREMENT_CHANNELS exactly when the device has channels, and no other capability |
| Inventory.ConstExp10 | task/control-plane-agent/src/inventory.rs:198-205 | the loop computes 10^n |
| Inventory.DigitsRoundTrip | task/control-plane-agent/src/inventory.rs:74-80 | the decimal digits written for an index read back as that index |
| Inventory.DigitsFit | task/control-plane-agent/src/inventory.rs:185-195 | `k` digit positions hold exactly the numbers below 10^k |
| Inventory.DigitsInjective | task/control-plane-agent/src/inventory.rs:74-80 | different indices are written differently |
| Inventory.ComponentId | task/control-plane-agent/src/inventory.rs:73-87 | the id is 16 bytes: the prefix, the index in decimal, then zeros |
| Inventory.ComponentIdsDistinct | task/control-plane-agent/src/inventory.rs:73-80 | different validate devices get different component ids |
| Inventory.AssertedBoundAdmitsUnfittableId | task/control-plane-agent/src/inventory.rs:185-195 | the asserted device bound admits a prefix that fills the id, whose one device's index does not fit |
| Inventory.IndexFits | task/control-plane-agent/src/inventory.rs:185-195 | under the device count bound every validate device's id fits |
| Inventory.DeviceCountFitsIsAssertedBound | task/control-plane-agent/src/inventory.rs:185-195 | the corrected bound is exactly the asserted one plus at least one free id byte |
| Inventory.NumDevices | task/control-plane-agent/src/inventory.rs:28-30 | the count is the agent's own devices plus the validate devices |
| Inventory.DeviceDescriptionAt | task/control-plane-agent/src/inventory.rs:32-93 | an index below the agent's count is its own device; the rest are validate devices shifted down, with their id, names, capabilities and presence |
| Inventory.ValidateDevicesDistinct | task/control-plane-agent/src/inventory.rs:39-80 | two different validate devices are reported under different component ids |
| Inventory.FmtComponentId.constructor | task/control-plane-agent/src/inventory.rs:96-100 | an all-zero id, nothing written |
| Inventory.FmtComponentId.WriteStr | task/control-plane-agent/src/inventory.rs:103-113 | appends at `pos` and advances past it exactly when it fits; otherwise id and `pos` are unchanged; `pos` stays within the id |
| Inventory.FormatComponentId | task/control-plane-agent/src/inventory.rs:73-80 | writing the prefix and then the index never fails under the bound and produces `ComponentId` |
| Abi.PriorityIrreflexive | abi/src/lib.rs:37-39 | no priority is more important than itself |
| Abi.PriorityAsymmetric | abi/src/lib.rs:37-39 | of two priorities at most one is more important |
| Abi.PriorityTransitive | abi/src/lib.rs:37-39 | more-important-than is transitive |
| Abi.PriorityTotal | abi/src/lib.rs:37-39 | two different priorities are always ordered |
| Abi.PriorityZeroMostImportant | abi/src/lib.rs:37-39 | priority 0 is more important than every other priority, and nothing is more important than it |
| Abi.TaskFlagsLayout | abi/src/lib.rs:96-99 | RESERVED is disjoint from START_AT_BOOT and together they cover all 32 bits |
| Abi.TaskFlagsSplit | abi/src/lib.rs:96-99 | every task flag word is its defined part joined with its reserved part, which do not overlap |
| Abi.RegionPermissionsDistinct | abi/src/lib.rs:131-141 | the four region permissions are distinct single bits |
| Abi.RegionAttributesLayout | abi/src/lib.rs:131-144 | the reserved region bits are disjoint from the permissions and together they cover all 32 bits |
| Abi.RegionAttributesSplit | abi/src/lib.rs:131-144 | every region attribute word splits into its permission part and its reserved part |
| Abi.LeaseAttributesDistinct | abi/src/lib.rs:179-184 | lease READ and WRITE are distinct non-zero bits |
| Abi.ResponseCodesDistinct | abi/src/lib.rs:188-191 | DEAD is all ones and differs from DEFECT |
| Abi.ExpansionSpace | abi/src/lib.rs:48-65 | the expansion space is 16 bytes, so the header is 32 |
| Abi.WordRoundTrip | abi/src/lib.rs:48-60 | a header word read back from its little-endian bytes is itself |
| Abi.BytesRoundTrip | abi/src/lib.rs:48-60 | four bytes are the bytes of the word they encode |
| Abi.AppBytes | abi/src/lib.rs:48-65 | a well-formed header occupies 32 bytes |
| Abi.AppRoundTrip | abi/src/lib.rs:46-65 | a header read back from its bytes is the header |
| Abi.AppBytesRoundTrip | abi/src/lib.rs:46-65 | every 32 bytes are the image of the header read from them |

## Left out

- Sensor and fan I/O in the thermal loop is not modelled. This covers `read_temp` on the I2C drivers, the fan RPM reads, the sensor-task posts and no-data reports, the misc sensors, `set_watchdog`, `set_fan_pwm` and ringbuf tracing. Read results, fan write results and the power mode are parameters.
- `bsp.power_down()` on the PowerDown path is not modelled, because it is a board call whose failure is only logged.
- IEEE `f32` semantics are not modelled, because reals stand in for them. Rounding, NaN and infinity do not occur, so the NaN and infinity checks of `set_pid` and `set_margin` never fire.
- ThermalLoop.ThermalControl.RunControl requires that no stored sample is later than `now`. The clock is monotonic, which the source's comment at control.rs:629-630 relies on for Boot and Running. A backwards clock is not modelled.
- ThermalLoop.ThermalControl.RunControl reports an overflow as `Panicked` and keeps the sensed state. The task's restart after the panic, which starts again in Boot, is not modelled.
- The per-input arrays are sequences in the stored state. They are reassigned per slot through `WriteTemperature`/`WriteInactive` rather than updated in place.
- The NVMe, TMP117, TMP451, SB-TSI and TSE2004 error conversions other than `From<nvme_bmc::Error>` are not modelled. The loop only distinguishes `I2cError(NoDevice)`.
- The Tofino2 FPGA register transport is not modelled. This covers `read_direct`/`write_direct`, the debug-port buffer handshake, `await_spi_request_done` and the sequencer's other register reads and writes. EEPROM reads and writes are function parameters, and register masks are parameters.
- Tofino2.ReadEepromBytes takes the four bytes per read as a parameter. The big-endian `to_be_bytes` of `read_spi_eeprom` is folded into it.
- Tofino2.ReadEepromBytes computes the chunk address `offset + 4 * i` on unbounded integers. The `usize`/`u32` overflow of that sum for an offset near the top of the address range is not modelled.
- Tofino2.WriteEepromBytes computes the chunk address on unbounded integers too, so the same overflow is not modelled.
- Transceivers: the packet socket, hubpack serialisation, `select_page` and `wait_and_check_i2c` sequencing, the FPGA register reads of the Status arm, and the `Reset`, `SetPowerMode` and `ManagementInterface` arms are not modelled. These are I/O and library calls. Their results are parameters (`setup` and `fetchOk` for reads, `pageOk` and `transferOk` for writes).
- TransceiversNet.ReadRequest and TransceiversNet.WriteRequest report a panic as `Panicked`. The task's restart after it is not modelled.
- TransceiversNet.WriteRequest compares the region with the receive buffer's length after the header, as the source does. The bytes the host actually sent are not modelled, because the source never uses the packet size there.
- TransceiversNet.PackStatus takes the per-port registers and the flag bits as parameters. The Status flag values come from an external crate. Their distinctness is a precondition where needed (`StatusFlags.Distinct`).
- Ignition: the idol client and server stubs, the generated register map, the system timer and the dispatch loop are not modelled. Addresses and masks are the parameters `Addresses` and `Registers`.
- IgnitionServer.PerPort stands for all four per-port operations. The controller's reply for each is a parameter.
- IgnitionServer.IgnitionServer.StateDump takes the controller's port states as a function. The presence summary is a parameter. It is an unsigned integer below 2^64 rather than a bit vector, so `& 1` and `>> 1` are `% 2` and `/ 2`.
- Spdm: the responder (`handle_msg`, `reset`) and its ringbuf logging belong to an external crate. Its reply and error flag are parameters.
- Spdm.ExchangeSpec and Spdm.SpdmServer.Exchange report a panic as `Panicked` or `None`. The task's restart after it is not modelled.
- Spdm.SendSpec leaves the buffer unchanged when the source lease cannot be read. The real lease read may have copied part of the bytes before failing.
- Inventory: the IPC to the `validate` task is a parameter (`validateI2c`), and so are `OUR_DEVICES`, `VALIDATE_DEVICES` and the generic device prefix. All of these depend on the board configuration. `write!`'s formatting machinery is reduced to two `write_str` calls.
- The compile-time check that every device description fits in one packet is not modelled, because it depends on sizes from an external crate.
- Inventory.ConstExp10 does not model `u64` overflow. It is only called with at most 16 digits, and 10^16 fits.
- Abi: the task, region, interrupt and lease descriptor structs other than `App` are not modelled. The header byte layout is that of a little-endian target.

## Findings

| source | as written | input that shows it | evidently intended | confidence | as-written member | corrected member |
|---|---|---|---|---|---|---|
| task/thermal/src/control.rs:733-735 | Overheated projects with `(time_ms - now_ms)` on `u64`, the reverse of Boot and Running | an Overheated state holding a sample at 1000 ms, ticked at 2000 ms: a single failed read leaves a stale sample and the subtraction overflows (a panic, or a huge projection without overflow checks) | project forward with `(now_ms - time_ms)` like the other states, so a stale sample's projection rises until it powers the system down | not executed | ThermalDecision.OverheatedStaleSampleFaults | ThermalDecision.CorrectedStaleSamplePowersDown |
| task/control-plane-agent/src/inventory.rs:185-195 | the static assertion allows up to 10^d validate devices, where d is the number of id bytes the prefix leaves free | a 16-byte prefix (d = 0) with one validate device: the assertion holds, but index 0 needs one more byte, so `write!` fails and `unwrap_lite` panics | also require at least one free digit, so every index below the bound fits | not executed; the case only arises for a prefix as long as the id | Inventory.AssertedBoundAdmitsUnfittableId | Inventory.IndexFits |
| drv/transceivers-server/src/net_api.rs:378-386 | the read reply is cut with `chunks_mut(mem.len())`, which panics for a zero chunk size | a Read of length 0 at any offset of a valid page, for FPGA 0, after the I2C read succeeds | a zero-length read replies with no data | not executed | TransceiversNet.ZeroLengthReadPanics | TransceiversNet.ReadRequestCorrected |
| drv/transceivers-server/src/net_api.rs:427-429 | the size check compares the whole receive buffer left after the header (net_api.rs:70 deserialises the full buffer) with `len * count_ones(ports)`, which is 0 for an empty mask, then slices `data[..mem.len()]` | a Write of 4 bytes to no port, for FPGA 0, once the page is selected, arriving in a receive buffer that ends fewer than 4 bytes after the serialised header | a region longer than the data is refused as RequestTooLarge | not executed; it needs a receive buffer at most 8 bytes longer than the header, and that buffer's size is not part of this model | TransceiversNet.EmptyMaskShortWritePanics | TransceiversNet.WriteRequestCorrected |
| task/spdm/src/main.rs:164-169 | the whole source lease is read into a 256-byte buffer, which is then sliced to the lease's length; the lease length limit is commented out | an exchange with a 300-byte source lease, a one-byte message and a 256-byte sink, whose lease read succeeds | a source longer than the buffer is refused as SourceTooLarge | not executed | Spdm.LongSourceExchangePanics | Spdm.ExchangeSpecCorrected |
