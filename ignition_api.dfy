/**
 * The Ignition controller API (drv/ignition-api/src/lib.rs): decoding the
 * 64-bit state word the controller reports for each port into receiver
 * status, target power state, faults and link events, and the batch
 * `targets` query. The register addresses and bit masks come from a
 * generated register map that is not part of this model; they are
 * parameters here (`Addresses`, `Registers`).
 */
module IgnitionApi {
  import opened Wrappers
  import opened BitFlags

  /** The largest number of ports the controller supports. */
  const PORT_MAX: nat := 40

  datatype IgnitionError = ServerDied | FpgaError | InvalidPort | InvalidValue | NoTargetPresent | RequestInProgress

  /** The byte view (`as_bytes`) of a port's 64-bit state word. */
  type PortState = s: seq<bv8> | |s| == 8 witness [0, 0, 0, 0, 0, 0, 0, 0]

  /** The byte offset of each register within the state word. */
  datatype Addresses = Addresses(
    controllerStatus: nat, controllerLinkStatus: nat, targetSystemType: nat,
    targetSystemStatus: nat, targetSystemFaults: nat, targetRequestStatus: nat)
  {
    predicate Valid()
    {
      controllerStatus < 8 && controllerLinkStatus < 8 && targetSystemType < 8 &&
      targetSystemStatus < 8 && targetSystemFaults < 8 && targetRequestStatus < 8
    }
  }

  /** The bit masks of the registers' fields. */
  datatype Registers = Registers(
    // CONTROLLER_STATUS
    targetPresent: bv8,
    // CONTROLLER_LINK_STATUS
    receiverAligned: bv8, receiverLocked: bv8, polarityInverted: bv8,
    // TARGET_SYSTEM_STATUS
    controller0Detected: bv8, controller1Detected: bv8, systemPowerEnabled: bv8, systemPowerAbort: bv8,
    // TARGET_REQUEST_STATUS
    powerOnInProgress: bv8, powerOffInProgress: bv8, systemResetInProgress: bv8,
    // TARGET_SYSTEM_FAULTS
    powerFaultA3: bv8, powerFaultA2: bv8, rotFault: bv8, spFault: bv8, reserved1: bv8, reserved2: bv8,
    // CONTROLLER_LINK_EVENTS_SUMMARY
    encodingError: bv8, decodingError: bv8, orderedSetInvalid: bv8,
    messageVersionInvalid: bv8, messageTypeInvalid: bv8, messageChecksumInvalid: bv8)
  {
    function LinkStatusMasks(): seq<bv8>
    {
      [receiverAligned, receiverLocked, polarityInverted]
    }

    function FaultMasks(): seq<bv8>
    {
      [powerFaultA3, powerFaultA2, rotFault, spFault, reserved1, reserved2]
    }

    function LinkEventMasks(): seq<bv8>
    {
      [encodingError, decodingError, orderedSetInvalid, messageVersionInvalid, messageTypeInvalid, messageChecksumInvalid]
    }
  }

  /** A field of a register is set when its mask meets the register byte. */
  predicate IsSet(r: bv8, mask: bv8)
  {
    r & mask != 0
  }

  datatype ReceiverStatus = ReceiverStatus(aligned: bool, locked: bool, polarityInverted: bool)
  {
    function Fields(): seq<bool>
    {
      [aligned, locked, polarityInverted]
    }
  }

  /** `ReceiverStatus::from`: each field is its mask's bit in the link status byte. */
  function ReceiverStatusFrom(r: bv8, regs: Registers): (s: ReceiverStatus)
    ensures s.Fields() == Decode(r, regs.LinkStatusMasks())
  {
    var d := Decode(r, regs.LinkStatusMasks());
    ReceiverStatus(d[0], d[1], d[2])
  }

  /** With disjoint masks, decoding the byte a status was encoded into gives the status back. */
  lemma ReceiverStatusRoundTrip(s: ReceiverStatus, regs: Registers)
    requires DisjointMasks(regs.LinkStatusMasks())
    ensures ReceiverStatusFrom(UnionOf(regs.LinkStatusMasks(), s.Fields()), regs) == s
  {
    DecodeUnion(regs.LinkStatusMasks(), s.Fields());
  }

  datatype SystemFaults = SystemFaults(powerA3: bool, powerA2: bool, rot: bool, sp: bool, reserved1: bool, reserved2: bool)
  {
    function Fields(): seq<bool>
    {
      [powerA3, powerA2, rot, sp, reserved1, reserved2]
    }
  }

  /** `SystemFaults::from`: each field is its mask's bit in the faults byte. */
  function SystemFaultsFrom(r: bv8, regs: Registers): (f: SystemFaults)
    ensures f.Fields() == Decode(r, regs.FaultMasks())
  {
    var d := Decode(r, regs.FaultMasks());
    SystemFaults(d[0], d[1], d[2], d[3], d[4], d[5])
  }

  /** With disjoint masks, faults decode back from the byte they were encoded into. */
  lemma SystemFaultsRoundTrip(f: SystemFaults, regs: Registers)
    requires DisjointMasks(regs.FaultMasks())
    ensures SystemFaultsFrom(UnionOf(regs.FaultMasks(), f.Fields()), regs) == f
  {
    DecodeUnion(regs.FaultMasks(), f.Fields());
  }

  datatype LinkEvents = LinkEvents(
    encodingError: bool, decodingError: bool, orderedSetInvalid: bool,
    messageVersionInvalid: bool, messageTypeInvalid: bool, messageChecksumInvalid: bool)
  {
    function Fields(): seq<bool>
    {
      [encodingError, decodingError, orderedSetInvalid, messageVersionInvalid, messageTypeInvalid, messageChecksumInvalid]
    }
  }

  /** `LinkEvents::from_u8`: each field is its mask's bit in the events summary byte. */
  function LinkEventsFrom(r: bv8, regs: Registers): (e: LinkEvents)
    ensures e.Fields() == Decode(r, regs.LinkEventMasks())
  {
    var d := Decode(r, regs.LinkEventMasks());
    LinkEvents(d[0], d[1], d[2], d[3], d[4], d[5])
  }

  /** With disjoint masks, link events decode back from the byte they were encoded into. */
  lemma LinkEventsRoundTrip(e: LinkEvents, regs: Registers)
    requires DisjointMasks(regs.LinkEventMasks())
    ensures LinkEventsFrom(UnionOf(regs.LinkEventMasks(), e.Fields()), regs) == e
  {
    DecodeUnion(regs.LinkEventMasks(), e.Fields());
  }

  /** `LinkEvents::NONE`: no event whatever the masks. */
  function LinkEventsNone(regs: Registers): (e: LinkEvents)
    ensures e == LinkEvents(false, false, false, false, false, false)
  {
    LinkEventsFrom(0, regs)
  }

  /** `LinkEvents::ALL`: decoding 0x3f reports every event when each mask is a non-zero part of the low six bits. */
  lemma LinkEventsAll(regs: Registers)
    requires forall k :: 0 <= k < 6 ==> regs.LinkEventMasks()[k] != 0 && regs.LinkEventMasks()[k] & 0x3f == regs.LinkEventMasks()[k]
    ensures LinkEventsFrom(0x3f, regs) == LinkEvents(true, true, true, true, true, true)
  {
    var ms := regs.LinkEventMasks();
    forall k | 0 <= k < 6
      ensures Decode(0x3f, ms)[k]
    {
      var m := ms[k];
      assert m != 0 && m & 0x3f == m;
      assert 0x3f & m != 0;
    }
  }

  datatype SystemPowerState = Off | On | Aborted | PoweringOff | PoweringOn

  /**
   * `SystemPowerState::from`: an abort wins over everything, then a power-on
   * in progress, then a power-off in progress, then the enabled bit.
   */
  function SystemPowerStateFrom(system: bv8, request: bv8, regs: Registers): (p: SystemPowerState)
    ensures p == Aborted <==> IsSet(system, regs.systemPowerAbort)
    ensures p == PoweringOn <==> !IsSet(system, regs.systemPowerAbort) && IsSet(request, regs.powerOnInProgress)
    ensures p == PoweringOff <==>
              !IsSet(system, regs.systemPowerAbort) && !IsSet(request, regs.powerOnInProgress) &&
              IsSet(request, regs.powerOffInProgress)
    ensures p == On <==>
              !IsSet(system, regs.systemPowerAbort) && !IsSet(request, regs.powerOnInProgress) &&
              !IsSet(request, regs.powerOffInProgress) && IsSet(system, regs.systemPowerEnabled)
  {
    if IsSet(system, regs.systemPowerAbort) then Aborted
    else if IsSet(request, regs.powerOnInProgress) then PoweringOn
    else if IsSet(request, regs.powerOffInProgress) then PoweringOff
    else if IsSet(system, regs.systemPowerEnabled) then On
    else Off
  }

  datatype Target = Target(
    id: bv8, powerState: SystemPowerState, powerResetInProgress: bool, faults: SystemFaults,
    controller0Present: bool, controller1Present: bool)
  {
    /** `request_in_progress`: a reset, or a power-off or power-on, is under way. */
    predicate RequestInProgress()
    {
      powerResetInProgress || powerState == PoweringOff || powerState == PoweringOn
    }
  }

  /** `Target::from`: the target's fields, each read from its own register of the state word. */
  function TargetFrom(state: PortState, addrs: Addresses, regs: Registers): (t: Target)
    requires addrs.Valid()
    ensures t.faults.Fields() == Decode(state[addrs.targetSystemFaults], regs.FaultMasks())
    ensures t.id == state[addrs.targetSystemType]
    ensures t.powerState == SystemPowerStateFrom(state[addrs.targetSystemStatus], state[addrs.targetRequestStatus], regs)
    ensures t.powerResetInProgress <==> IsSet(state[addrs.targetRequestStatus], regs.systemResetInProgress)
    ensures t.controller0Present <==> IsSet(state[addrs.targetSystemStatus], regs.controller0Detected)
    ensures t.controller1Present <==> IsSet(state[addrs.targetSystemStatus], regs.controller1Detected)
  {
    var system := state[addrs.targetSystemStatus];
    var request := state[addrs.targetRequestStatus];
    Target(
      state[addrs.targetSystemType],
      SystemPowerStateFrom(system, request, regs),
      IsSet(request, regs.systemResetInProgress),
      SystemFaultsFrom(state[addrs.targetSystemFaults], regs),
      IsSet(system, regs.controller0Detected),
      IsSet(system, regs.controller1Detected))
  }

  /**
   * A target has a request in progress exactly when the reset bit is set, or
   * no abort is flagged and a power-on or power-off is under way: an aborted
   * target whose only request is a power transition is not busy.
   */
  lemma TargetRequestInProgress(state: PortState, addrs: Addresses, regs: Registers)
    requires addrs.Valid()
    ensures var system, request := state[addrs.targetSystemStatus], state[addrs.targetRequestStatus];
            TargetFrom(state, addrs, regs).RequestInProgress() <==>
              IsSet(request, regs.systemResetInProgress) ||
              (!IsSet(system, regs.systemPowerAbort) &&
               (IsSet(request, regs.powerOnInProgress) || IsSet(request, regs.powerOffInProgress)))
  {
    var system, request := state[addrs.targetSystemStatus], state[addrs.targetRequestStatus];
    var p := SystemPowerStateFrom(system, request, regs);
    assert TargetFrom(state, addrs, regs).powerState == p;
  }

  datatype Port = Port(receiverStatus: ReceiverStatus, target: Option<Target>)

  /** `Port::from`: a target is reported exactly when the controller sees one present. */
  function PortFrom(state: PortState, addrs: Addresses, regs: Registers): (p: Port)
    requires addrs.Valid()
    ensures p.target.Some? <==> IsSet(state[addrs.controllerStatus], regs.targetPresent)
    ensures p.target.Some? ==> p.target.value == TargetFrom(state, addrs, regs)
    ensures p.receiverStatus.Fields() == Decode(state[addrs.controllerLinkStatus], regs.LinkStatusMasks())
  {
    Port(
      ReceiverStatusFrom(state[addrs.controllerLinkStatus], regs),
      if IsSet(state[addrs.controllerStatus], regs.targetPresent) then Some(TargetFrom(state, addrs, regs)) else None)
  }

  /** The requests a target accepts, with their wire codes. */
  datatype Request = SystemPowerOff | SystemPowerOn | SystemPowerReset
  {
    function Code(): (c: bv8)
      ensures 1 <= c <= 3
    {
      match this
      case SystemPowerOff => 1
      case SystemPowerOn => 2
      case SystemPowerReset => 3
    }
  }

  /** `Request::from_u8`: only the three request codes decode. */
  function RequestFromCode(c: bv8): (r: Option<Request>)
    ensures r.Some? <==> 1 <= c <= 3
    ensures r.Some? ==> r.value.Code() == c
  {
    if c == 1 then Some(SystemPowerOff)
    else if c == 2 then Some(SystemPowerOn)
    else if c == 3 then Some(SystemPowerReset)
    else None
  }

  /** Every request survives encoding and decoding. */
  lemma RequestCodeRoundTrip(r: Request)
    ensures RequestFromCode(r.Code()) == Some(r)
  {
  }

  /** The transceiver whose link events are addressed, with its wire code. */
  datatype TransceiverSelect = Controller | TargetLink0 | TargetLink1
  {
    function Code(): (c: bv8)
      ensures 1 <= c <= 3
    {
      match this
      case Controller => 1
      case TargetLink0 => 2
      case TargetLink1 => 3
    }
  }

  /** `TransceiverSelect::from_u8`: only the three codes decode. */
  function TransceiverSelectFromCode(c: bv8): (t: Option<TransceiverSelect>)
    ensures t.Some? <==> 1 <= c <= 3
    ensures t.Some? ==> t.value.Code() == c
  {
    if c == 1 then Some(Controller)
    else if c == 2 then Some(TargetLink0)
    else if c == 3 then Some(TargetLink1)
    else None
  }

  /** `TransceiverSelect::ALL` lists each transceiver once. */
  const ALL_TRANSCEIVERS: seq<TransceiverSelect> := [Controller, TargetLink0, TargetLink1]

  lemma AllTransceiversComplete(t: TransceiverSelect)
    ensures t in ALL_TRANSCEIVERS
    ensures forall j, k :: 0 <= j < k < |ALL_TRANSCEIVERS| ==> ALL_TRANSCEIVERS[j] != ALL_TRANSCEIVERS[k]
  {
  }

  /**
   * `targets`: the batch of port states fills the first slots in order, one
   * target (or none) per state, and every slot past the batch stays empty.
   */
  method Targets(batch: Result<seq<PortState>, IgnitionError>, addrs: Addresses, regs: Registers)
    returns (r: Result<seq<Option<Target>>, IgnitionError>)
    requires addrs.Valid()
    ensures batch.Err? ==> r == Err(batch.error)
    ensures batch.Ok? ==> r.Ok? && |r.value| == PORT_MAX
    ensures batch.Ok? ==> forall i :: 0 <= i < PORT_MAX ==>
              r.value[i] == if i < |batch.value| then PortFrom(batch.value[i], addrs, regs).target else None
  {
    if batch.Err? {
      return Err(batch.error);
    }
    var states := batch.value;
    var targets := new Option<Target>[PORT_MAX](_ => None);
    var i := 0;
    while i < |states| && i < targets.Length
      invariant 0 <= i <= PORT_MAX && i <= |states|
      invariant forall k :: 0 <= k < i ==> targets[k] == PortFrom(states[k], addrs, regs).target
      invariant forall k :: i <= k < PORT_MAX ==> targets[k] == None
    {
      targets[i] := PortFrom(states[i], addrs, regs).target;
      i := i + 1;
    }
    return Ok(targets[..]);
  }
}
