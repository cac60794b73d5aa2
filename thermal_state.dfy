/**
 * Data model of the thermal control loop (task/thermal/src/control.rs):
 * board inputs, temperature readings, the four-state safety machine, the
 * worst-case projection of a stored reading, and what one pass of
 * `read_sensors` does to the stored readings.
 */
module ThermalState {
  import opened Wrappers

  const U64_LIMIT: int := 0x1_0000_0000_0000_0000

  /** Millisecond timestamps are `u64` in the source. */
  type U64 = x: int | 0 <= x < U64_LIMIT

  /** `PWMDuty` wraps a `u8`. */
  type U8 = x: int | 0 <= x < 256

  /** `f32::MAX`: every worst-margin search starts here. */
  const F32_MAX: real := 340282346638528859811704183484516925440.0

  /** Per-component thresholds (°C) and the worst-case slew rate (°C per second). */
  datatype ThermalProperties = ThermalProperties(
    targetTemperature: real,
    criticalTemperature: real,
    powerDownTemperature: real,
    slewDegPerSec: real)

  /** One temperature input: its thresholds, the power modes it is read in, and whether it may be absent. */
  datatype InputChannel = InputChannel(temps: ThermalProperties, powerModeMask: bv32, removable: bool)

  /** `PowerBitmask::intersects`. */
  predicate Intersects(a: bv32, b: bv32) { a & b != 0 }

  /** The I2C response codes; only `NoDevice` is singled out by the loop. */
  datatype ResponseCode = NoDevice | OtherResponse(code: nat)

  /** Why a temperature read failed. */
  datatype SensorReadError =
    | I2cError(code: ResponseCode)
    | NoData
    | SensorFailure
    | ReservedValue
    | CorruptReply

  /** The errors the NVMe management interface can report in band. */
  datatype NvmeError =
    | NvmeI2cError(code: ResponseCode)
    | NvmeNoData
    | NvmeSensorFailure
    | NvmeReserved
    | InvalidLength
    | BadChecksum

  /** `From<nvme_bmc::Error> for SensorReadError`: bus errors pass through, the rest map to their in-band kind. */
  function FromNvmeError(e: NvmeError): (r: SensorReadError)
    ensures r.I2cError? <==> e.NvmeI2cError?
    ensures e.NvmeI2cError? ==> r.code == e.code
    ensures r == CorruptReply <==> e.InvalidLength? || e.BadChecksum?
    ensures r == NoData <==> e == NvmeNoData
    ensures r == SensorFailure <==> e == NvmeSensorFailure
    ensures r == ReservedValue <==> e == NvmeReserved
  {
    match e
    case NvmeI2cError(c) => I2cError(c)
    case NvmeNoData => NoData
    case NvmeSensorFailure => SensorFailure
    case NvmeReserved => ReservedValue
    case InvalidLength => CorruptReply
    case BadChecksum => CorruptReply
  }

  /** A stored reading: a sample taken at `timeMs`, or an input not sampled in this power mode. */
  datatype TemperatureReading = Valid(timeMs: U64, value: real) | Inactive

  /**
   * The safety state machine, generic in how the Running state's controller
   * is held: the loop stores the controller object, its specification a
   * snapshot of the controller's value.
   */
  datatype ControlState<P> =
    | Boot(known: seq<Option<TemperatureReading>>)
    | Running(values: seq<TemperatureReading>, pid: P)
    | Overheated(values: seq<TemperatureReading>, startTime: U64)
    | Uncontrollable
  {
    /** How many input slots the state carries (none once Uncontrollable). */
    function Width(): nat
    {
      match this
      case Boot(k) => |k|
      case Running(v, _) => |v|
      case Overheated(v, _) => |v|
      case Uncontrollable => 0
    }

    /** Slot `i`, uniformly: `None` until a Boot slot has heard anything. */
    function Slot(i: nat): Option<TemperatureReading>
      requires i < Width()
    {
      match this
      case Boot(k) => k[i]
      case Running(v, _) => Some(v[i])
      case Overheated(v, _) => Some(v[i])
    }

    /** Stores `r` into slot `i`; Uncontrollable has no slots and ignores the write. */
    function Put(i: nat, r: TemperatureReading): (s: ControlState<P>)
      requires Uncontrollable? || i < Width()
      ensures s.Width() == Width()
      ensures Uncontrollable? ==> s == this
      ensures !Uncontrollable? ==> s.Slot(i) == Some(r)
      ensures forall j :: 0 <= j < Width() && j != i ==> s.Slot(j) == Slot(j)
      ensures Boot? <==> s.Boot?
      ensures Running? ==> s.Running? && s.pid == pid
      ensures Overheated? ==> s.Overheated? && s.startTime == startTime
    {
      match this
      case Boot(k) => Boot(k[i := Some(r)])
      case Running(v, p) => Running(v[i := r], p)
      case Overheated(v, t) => Overheated(v[i := r], t)
      case Uncontrollable => this
    }

    /** `write_temperature`: a fresh sample for slot `i`. */
    function WriteTemperature(i: nat, timeMs: U64, value: real): (s: ControlState<P>)
      requires Uncontrollable? || i < Width()
    {
      Put(i, Valid(timeMs, value))
    }

    /** `write_temperature_inactive`: slot `i` is not sampled in this power mode. */
    function WriteInactive(i: nat): (s: ControlState<P>)
      requires Uncontrollable? || i < Width()
    {
      Put(i, Inactive)
    }
  }

  /** `reset_state`: back to Boot, every slot unheard. */
  function ResetState<P>(n: nat): (s: ControlState<P>)
    ensures s.Boot? && s.Width() == n
    ensures forall i :: 0 <= i < n ==> s.Slot(i).None?
  {
    Boot(seq(n, _ => None))
  }

  /** Replaces the Running state's controller by `q`; every other part is kept. */
  function MapPid<P, Q>(s: ControlState<P>, q: Q): (r: ControlState<Q>)
    ensures r.Width() == s.Width()
    ensures forall i :: 0 <= i < s.Width() ==> r.Slot(i) == s.Slot(i)
    ensures r.Boot? == s.Boot? && r.Running? == s.Running?
    ensures r.Overheated? == s.Overheated? && r.Uncontrollable? == s.Uncontrollable?
  {
    match s
    case Boot(k) => Boot(k)
    case Running(v, _) => Running(v, q)
    case Overheated(v, t) => Overheated(v, t)
    case Uncontrollable => Uncontrollable
  }

  /** Readings the Boot state has heard, with unheard slots read as not sampled. */
  function Known(k: seq<Option<TemperatureReading>>): (v: seq<TemperatureReading>)
    ensures |v| == |k|
    ensures forall i :: 0 <= i < |k| ==> (v[i].Valid? <==> k[i].Some? && k[i].value.Valid?)
    ensures forall i :: 0 <= i < |k| && v[i].Valid? ==> v[i] == k[i].value
  {
    seq(|k|, i requires 0 <= i < |k| => if k[i].Some? then k[i].value else Inactive)
  }

  /** Every Boot slot has reported at least once (a sample or Inactive). */
  predicate AllSome(k: seq<Option<TemperatureReading>>)
  {
    forall i :: 0 <= i < |k| ==> k[i].Some?
  }

  /** `values.map(|i| i.unwrap())`. */
  function Unwrap(k: seq<Option<TemperatureReading>>): (v: seq<TemperatureReading>)
    requires AllSome(k)
    ensures |v| == |k| && forall i :: 0 <= i < |k| ==> Some(v[i]) == k[i]
  {
    seq(|k|, i requires 0 <= i < |k| => k[i].value)
  }

  /** No stored sample is later than `now`. */
  predicate ReadingsAtMost(v: seq<TemperatureReading>, now: U64)
  {
    forall i :: 0 <= i < |v| && v[i].Valid? ==> v[i].timeMs <= now
  }

  /** No sample stored in `s` is later than `now`: the clock the loop is ticked with never runs backwards. */
  predicate TimesAtMost<P>(s: ControlState<P>, now: U64)
  {
    match s
    case Boot(k) => ReadingsAtMost(Known(k), now)
    case Running(v, _) => ReadingsAtMost(v, now)
    case Overheated(v, _) => ReadingsAtMost(v, now)
    case Uncontrollable => true
  }

  /**
   * Worst-case temperature `value + (later - earlier) / 1000 * slew`, where
   * `later - earlier` is a `u64` subtraction in milliseconds. Boot and
   * Running call it with `earlier = time_ms, later = now_ms`.
   */
  function Project(value: real, earlier: U64, later: U64, slew: real): (t: real)
    requires earlier <= later
    ensures earlier == later ==> t == value
    ensures slew >= 0.0 ==> t >= value
  {
    value + (later - earlier) as real / 1000.0 * slew
  }

  /** The projection never decreases as time passes, for a non-negative slew rate. */
  lemma ProjectMonotonic(value: real, time: U64, now1: U64, now2: U64, slew: real)
    requires time <= now1 <= now2 && slew >= 0.0
    ensures Project(value, time, now1, slew) <= Project(value, time, now2, slew)
  {
    var e1 := (now1 - time) as real / 1000.0;
    var e2 := (now2 - time) as real / 1000.0;
    assert e1 <= e2;
    assert (e2 - e1) * slew >= 0.0;
    assert e1 * slew <= e2 * slew;
  }

  /**
   * What `read_sensors` stores for one input: `Some(r)` is written into the
   * slot, `None` leaves the slot as it was.
   */
  function Incoming(ch: InputChannel, mode: bv32, read: Result<real, SensorReadError>, now: U64): (w: Option<TemperatureReading>)
    ensures !Intersects(mode, ch.powerModeMask) ==> w == Some(Inactive)
    ensures Intersects(mode, ch.powerModeMask) && read.Ok? ==> w == Some(Valid(now, read.value))
    ensures w.None? <==> Intersects(mode, ch.powerModeMask) && read.Err? && !(ch.removable && read.error == I2cError(NoDevice))
  {
    if !Intersects(mode, ch.powerModeMask) then Some(Inactive)
    else match read
      case Ok(v) => Some(Valid(now, v))
      case Err(e) => if ch.removable && e == I2cError(NoDevice) then Some(Inactive) else None
  }

  /** The slots `0 .. k` of `s` after the inputs `0 .. k` have been read, in index order. */
  function ApplyReads<P>(s: ControlState<P>, inputs: seq<InputChannel>, mode: bv32,
                         samples: seq<Result<real, SensorReadError>>, now: U64, k: nat): (r: ControlState<P>)
    requires k <= |inputs| == |samples|
    requires s.Uncontrollable? || s.Width() == |inputs|
    ensures r.Width() == s.Width()
    ensures r.Boot? == s.Boot? && r.Running? == s.Running?
    ensures r.Overheated? == s.Overheated? && r.Uncontrollable? == s.Uncontrollable?
    ensures s.Running? ==> r.pid == s.pid
    ensures s.Overheated? ==> r.startTime == s.startTime
    ensures TimesAtMost(s, now) ==> TimesAtMost(r, now)
    decreases k
  {
    if k == 0 then s
    else
      var prev := ApplyReads(s, inputs, mode, samples, now, k - 1);
      match Incoming(inputs[k - 1], mode, samples[k - 1], now)
      case None => prev
      case Some(w) => prev.Put(k - 1, w)
  }

  /**
   * `read_sensors` on the stored readings: a change of power mode first
   * resets the machine to Boot, then each input is read in order.
   */
  function Sense<P>(s: ControlState<P>, prevMode: bv32, mode: bv32, inputs: seq<InputChannel>,
                    samples: seq<Result<real, SensorReadError>>, now: U64): (r: ControlState<P>)
    requires |inputs| == |samples|
    requires s.Uncontrollable? || s.Width() == |inputs|
    ensures r.Uncontrollable? || r.Width() == |inputs|
    ensures prevMode != mode ==> r.Boot?
    ensures TimesAtMost(s, now) ==> TimesAtMost(r, now)
  {
    var s0 := if prevMode != mode then ResetState(|inputs|) else s;
    ApplyReads(s0, inputs, mode, samples, now, |inputs|)
  }

  /**
   * Slot `i` after the first `k` inputs were read: written by input `i` when
   * `i < k` and that input produced something to write, otherwise as before.
   */
  lemma {:induction false} ApplyReadsSlot<P>(s: ControlState<P>, inputs: seq<InputChannel>, mode: bv32,
                                             samples: seq<Result<real, SensorReadError>>, now: U64, k: nat, i: nat)
    requires k <= |inputs| == |samples|
    requires s.Width() == |inputs| && i < |inputs|
    ensures ApplyReads(s, inputs, mode, samples, now, k).Slot(i) ==
            (var w := Incoming(inputs[i], mode, samples[i], now);
             if i < k && w.Some? then w else s.Slot(i))
    decreases k
  {
    if k > 0 {
      ApplyReadsSlot(s, inputs, mode, samples, now, k - 1, i);
    }
  }

  /**
   * What `read_sensors` promises for every input slot: an input off in the
   * current power mode becomes Inactive, so does a removable input reporting
   * `NoDevice`, a successful read stores a sample stamped `now`, and any
   * other failure keeps the previous (possibly stale) slot.
   */
  lemma SenseSlot<P>(s: ControlState<P>, prevMode: bv32, mode: bv32, inputs: seq<InputChannel>,
                     samples: seq<Result<real, SensorReadError>>, now: U64, i: nat)
    requires |inputs| == |samples| && i < |inputs|
    requires s.Uncontrollable? || s.Width() == |inputs|
    requires prevMode != mode || !s.Uncontrollable?
    ensures var r := Sense(s, prevMode, mode, inputs, samples, now);
            var w := Incoming(inputs[i], mode, samples[i], now);
            r.Slot(i) == if w.Some? then w else if prevMode != mode then None else s.Slot(i)
  {
    var s0: ControlState<P> := if prevMode != mode then ResetState(|inputs|) else s;
    ApplyReadsSlot(s0, inputs, mode, samples, now, |inputs|, i);
  }

  /** In Uncontrollable every write is a no-op: only a power-mode change leaves it. */
  lemma {:induction false} UncontrollableIgnoresReads<P>(inputs: seq<InputChannel>, mode: bv32,
                                                        samples: seq<Result<real, SensorReadError>>, now: U64, k: nat)
    requires k <= |inputs| == |samples|
    ensures ApplyReads<P>(Uncontrollable, inputs, mode, samples, now, k) == Uncontrollable
    decreases k
  {
    if k > 0 {
      UncontrollableIgnoresReads<P>(inputs, mode, samples, now, k - 1);
    }
  }

  /** Reading the sensors does not touch the controller: it commutes with replacing it. */
  lemma {:induction false} ApplyReadsMapPid<P, Q>(s: ControlState<P>, q: Q, inputs: seq<InputChannel>, mode: bv32,
                                                 samples: seq<Result<real, SensorReadError>>, now: U64, k: nat)
    requires k <= |inputs| == |samples|
    requires s.Uncontrollable? || s.Width() == |inputs|
    ensures ApplyReads(MapPid(s, q), inputs, mode, samples, now, k) == MapPid(ApplyReads(s, inputs, mode, samples, now, k), q)
    decreases k
  {
    if k > 0 {
      ApplyReadsMapPid(s, q, inputs, mode, samples, now, k - 1);
    }
  }

  /** `Sense` commutes with replacing the controller. */
  lemma SenseMapPid<P, Q>(s: ControlState<P>, q: Q, prevMode: bv32, mode: bv32, inputs: seq<InputChannel>,
                          samples: seq<Result<real, SensorReadError>>, now: U64)
    requires |inputs| == |samples|
    requires s.Uncontrollable? || s.Width() == |inputs|
    ensures Sense(MapPid(s, q), prevMode, mode, inputs, samples, now) == MapPid(Sense(s, prevMode, mode, inputs, samples, now), q)
  {
    if prevMode == mode {
      ApplyReadsMapPid(s, q, inputs, mode, samples, now, |inputs|);
    } else {
      var b: ControlState<P> := ResetState(|inputs|);
      assert MapPid(b, q) == ResetState(|inputs|);
      ApplyReadsMapPid(b, q, inputs, mode, samples, now, |inputs|);
    }
  }

  /**
   * An NVMe drive's in-band errors never mark its input Inactive, even when
   * the input is removable: only a bus-level `NoDevice` does, and any other
   * failure keeps the stale reading so that its projection rises.
   */
  lemma NvmeInBandErrorKeepsStaleReading(ch: InputChannel, mode: bv32, e: NvmeError, now: U64)
    requires Intersects(mode, ch.powerModeMask)
    requires !e.NvmeI2cError?
    ensures Incoming(ch, mode, Err(FromNvmeError(e)), now).None?
  {
  }
}
