/**
 * The `ThermalControl` object of task/thermal/src/control.rs: the stored
 * state machine, the per-state scans over the inputs, and one tick of the
 * loop (`read_sensors`, the decision, then the fans). Sensor values, fan
 * write results and the power mode are parameters of the tick.
 */
module ThermalLoop {
  import opened Wrappers
  import opened ThermalPid
  import opened ThermalState
  import opened ThermalDecision

  /** The errors the loop reports. */
  datatype ThermalError = InvalidParameter | InvalidPWM | DeviceError

  /** `ThermalAutoState`: the state machine's variant, without payload. */
  datatype AutoState = AutoBoot | AutoRunning | AutoOverheated | AutoUncontrollable

  /** A fan handle: its index in the board's fan list. */
  datatype Fan = Fan(index: U8)

  /** What one tick did: the decision was applied (with the fan write result), or the thermal loop panicked. */
  datatype TickResult = Applied(outcome: Outcome, fans: Result<Unit, ThermalError>) | Panicked

  /** The board's fixed description: inputs, fan count and default controller configuration. */
  datatype Bsp = Bsp(inputs: seq<InputChannel>, fanCount: nat, pidConfig: PidConfig)

  /**
   * One pass over Boot's slots: whether all have reported, whether any
   * projected temperature is at power-down, and the worst margin.
   */
  method ScanBoot(k: seq<Option<TemperatureReading>>, inputs: seq<InputChannel>, now: U64)
    returns (allSome: bool, anyPowerDown: bool, worstMargin: real)
    requires |k| == |inputs| && ReadingsAtMost(Known(k), now)
    ensures allSome == AllSome(k)
    ensures anyPowerDown == AnyPowerDown(ForwardTemps(Known(k), inputs, now), inputs)
    ensures worstMargin == WorstMargin(ForwardTemps(Known(k), inputs, now), inputs)
  {
    ghost var ts := ForwardTemps(Known(k), inputs, now);
    allSome, anyPowerDown, worstMargin := true, false, F32_MAX;
    var i := 0;
    while i < |k|
      invariant 0 <= i <= |k|
      invariant allSome == AllSome(k[..i])
      invariant anyPowerDown == AnyPowerDown(ts[..i], inputs)
      invariant worstMargin == WorstMargin(ts[..i], inputs)
    {
      var reported, slot := BootSlot(k[i], inputs[i], now);
      BootStep(k, inputs, now, i);
      if !reported {
        allSome := false;
      }
      anyPowerDown, worstMargin := AccumulateBoot(ts[..i], i, slot, inputs, anyPowerDown, worstMargin);
      i := i + 1;
    }
    assert k[..i] == k && ts[..i] == ts;
  }

  /** The projection Boot makes of a slot: sampled slots only, projected forward to `now`. */
  function BootProjection(r: Option<TemperatureReading>, input: InputChannel, now: U64): Option<real>
    requires r.Some? && r.value.Valid? ==> r.value.timeMs <= now
  {
    if r.Some? && r.value.Valid? then Some(Project(r.value.value, r.value.timeMs, now, input.temps.slewDegPerSec))
    else None
  }

  /** Extending Boot's scanned prefix by one slot. */
  lemma BootStep(k: seq<Option<TemperatureReading>>, inputs: seq<InputChannel>, now: U64, i: nat)
    requires |k| == |inputs| && ReadingsAtMost(Known(k), now) && i < |k|
    ensures k[i].Some? && k[i].value.Valid? ==> k[i].value.timeMs <= now
    ensures AllSome(k[..i + 1]) == (AllSome(k[..i]) && k[i].Some?)
    ensures var ts := ForwardTemps(Known(k), inputs, now);
            ts[..i + 1] == ts[..i] + [BootProjection(k[i], inputs[i], now)]
  {
    var ts := ForwardTemps(Known(k), inputs, now);
    assert ts[..i + 1] == ts[..i] + [ts[i]];
    assert k[..i + 1] == k[..i] + [k[i]];
  }

  /** Boot's projection of one slot: whether it has reported, and its projected temperature if sampled. */
  method BootSlot(r: Option<TemperatureReading>, input: InputChannel, now: U64) returns (reported: bool, slot: Option<real>)
    requires r.Some? && r.value.Valid? ==> r.value.timeMs <= now
    ensures reported <==> r.Some?
    ensures slot == BootProjection(r, input, now)
  {
    match r {
      case Some(Valid(time, value)) =>
        return true, Some(Project(value, time, now, input.temps.slewDegPerSec));
      case Some(Inactive) =>
        return true, None;
      case None =>
        return false, None;
    }
  }

  /** Folds one more projected slot into Boot's accumulators over the slots before it. */
  method AccumulateBoot(ghost prev: seq<Option<real>>, i: nat, slot: Option<real>, inputs: seq<InputChannel>,
                        anyPowerDown: bool, worstMargin: real)
    returns (anyPowerDown': bool, worstMargin': real)
    requires i == |prev| < |inputs|
    requires anyPowerDown == AnyPowerDown(prev, inputs)
    requires worstMargin == WorstMargin(prev, inputs)
    ensures anyPowerDown' == AnyPowerDown(prev + [slot], inputs)
    ensures worstMargin' == WorstMargin(prev + [slot], inputs)
  {
    anyPowerDown', worstMargin' := anyPowerDown, worstMargin;
    if slot.Some? {
      anyPowerDown' := anyPowerDown || slot.value >= inputs[i].temps.powerDownTemperature;
      worstMargin' := Min(worstMargin, inputs[i].temps.targetTemperature - slot.value);
    }
    PowerDownStep(prev, slot, inputs);
    MarginStep(prev, slot, inputs);
  }

  /** One pass over Running's slots: power-down, critical, and the worst margin. */
  method ScanRunning(v: seq<TemperatureReading>, inputs: seq<InputChannel>, now: U64)
    returns (anyPowerDown: bool, anyCritical: bool, worstMargin: real)
    requires |v| == |inputs| && ReadingsAtMost(v, now)
    ensures anyPowerDown == AnyPowerDown(ForwardTemps(v, inputs, now), inputs)
    ensures anyCritical == AnyCritical(ForwardTemps(v, inputs, now), inputs)
    ensures worstMargin == WorstMargin(ForwardTemps(v, inputs, now), inputs)
  {
    ghost var ts := ForwardTemps(v, inputs, now);
    anyPowerDown, anyCritical, worstMargin := false, false, F32_MAX;
    var i := 0;
    while i < |v|
      invariant 0 <= i <= |v|
      invariant anyPowerDown == AnyPowerDown(ts[..i], inputs)
      invariant anyCritical == AnyCritical(ts[..i], inputs)
      invariant worstMargin == WorstMargin(ts[..i], inputs)
    {
      assert ts[..i + 1][..i] == ts[..i];
      if v[i].Valid? {
        var t := Project(v[i].value, v[i].timeMs, now, inputs[i].temps.slewDegPerSec);
        anyPowerDown := anyPowerDown || t >= inputs[i].temps.powerDownTemperature;
        anyCritical := anyCritical || t >= inputs[i].temps.criticalTemperature;
        worstMargin := Min(worstMargin, inputs[i].temps.targetTemperature - t);
      }
      i := i + 1;
    }
    assert ts[..i] == ts;
  }

  /**
   * One pass over Overheated's slots with the projection as written: the
   * first sample older than `now` overflows the `u64` subtraction (the scan
   * stops there); otherwise all below critical by the hysteresis, any at
   * power-down, and the worst margin.
   */
  method ScanOverheated(v: seq<TemperatureReading>, inputs: seq<InputChannel>, hysteresis: real, now: U64)
    returns (overflow: bool, allSubcritical: bool, anyPowerDown: bool, worstMargin: real)
    requires |v| == |inputs|
    ensures overflow == AnyStale(v, now)
    ensures !overflow ==> allSubcritical == AllSubcritical(ReversedTemps(v, inputs, now), inputs, hysteresis)
    ensures !overflow ==> anyPowerDown == AnyPowerDown(ReversedTemps(v, inputs, now), inputs)
    ensures !overflow ==> worstMargin == WorstMargin(ReversedTemps(v, inputs, now), inputs)
  {
    overflow, allSubcritical, anyPowerDown, worstMargin := false, true, false, F32_MAX;
    ghost var ts: seq<Option<real>> := [];
    var i := 0;
    while i < |v|
      invariant 0 <= i <= |v|
      invariant !AnyStale(v[..i], now) && ts == ReversedTemps(v[..i], inputs[..i], now)
      invariant allSubcritical == AllSubcritical(ts, inputs, hysteresis)
      invariant anyPowerDown == AnyPowerDown(ts, inputs)
      invariant worstMargin == WorstMargin(ts, inputs)
    {
      var stale, slot := OverheatedSlot(v[i], inputs[i], now);
      if stale {
        return true, allSubcritical, anyPowerDown, worstMargin;
      }
      allSubcritical, anyPowerDown, worstMargin :=
        AccumulateOverheated(ts, i, slot, inputs, hysteresis, allSubcritical, anyPowerDown, worstMargin);
      PrefixStep(v, inputs, now, i);
      ts := ts + [slot];
      i := i + 1;
    }
    assert v[..i] == v && inputs[..i] == inputs;
  }

  /** Overheated's projection of one slot: stale when its sample is older than `now`. */
  method OverheatedSlot(r: TemperatureReading, input: InputChannel, now: U64) returns (stale: bool, slot: Option<real>)
    ensures stale <==> r.Valid? && r.timeMs < now
    ensures !stale ==> slot == if r.Valid? then Some(Project(r.value, now, r.timeMs, input.temps.slewDegPerSec)) else None
  {
    stale, slot := false, None;
    if r.Valid? {
      if r.timeMs < now {
        return true, None;
      }
      slot := Some(Project(r.value, now, r.timeMs, input.temps.slewDegPerSec));
    }
  }

  /** Folds one more projected slot into Overheated's three accumulators over the slots before it. */
  method AccumulateOverheated(ghost prev: seq<Option<real>>, i: nat, slot: Option<real>, inputs: seq<InputChannel>,
                              hysteresis: real, allSubcritical: bool, anyPowerDown: bool, worstMargin: real)
    returns (allSubcritical': bool, anyPowerDown': bool, worstMargin': real)
    requires i == |prev| < |inputs|
    requires allSubcritical == AllSubcritical(prev, inputs, hysteresis)
    requires anyPowerDown == AnyPowerDown(prev, inputs)
    requires worstMargin == WorstMargin(prev, inputs)
    ensures allSubcritical' == AllSubcritical(prev + [slot], inputs, hysteresis)
    ensures anyPowerDown' == AnyPowerDown(prev + [slot], inputs)
    ensures worstMargin' == WorstMargin(prev + [slot], inputs)
  {
    allSubcritical', anyPowerDown', worstMargin' := allSubcritical, anyPowerDown, worstMargin;
    if slot.Some? {
      allSubcritical' := allSubcritical && slot.value < inputs[i].temps.criticalTemperature - hysteresis;
      anyPowerDown' := anyPowerDown || slot.value >= inputs[i].temps.powerDownTemperature;
      worstMargin' := Min(worstMargin, inputs[i].temps.targetTemperature - slot.value);
    }
    SubcriticalStep(prev, slot, inputs, hysteresis);
    PowerDownStep(prev, slot, inputs);
    MarginStep(prev, slot, inputs);
  }

  /** One more slot keeps "all below critical by the hysteresis" exactly when that slot is. */
  lemma SubcriticalStep(prev: seq<Option<real>>, slot: Option<real>, inputs: seq<InputChannel>, h: real)
    requires |prev| < |inputs|
    ensures AllSubcritical(prev + [slot], inputs, h) ==
              (AllSubcritical(prev, inputs, h) && (slot.Some? ==> slot.value < inputs[|prev|].temps.criticalTemperature - h))
  {
    var ts := prev + [slot];
    if AllSubcritical(ts, inputs, h) {
      forall k | 0 <= k < |prev| && prev[k].Some?
        ensures prev[k].value < inputs[k].temps.criticalTemperature - h
      {
        assert ts[k] == prev[k];
      }
      assert ts[|prev|] == slot;
    }
    if AllSubcritical(prev, inputs, h) && (slot.Some? ==> slot.value < inputs[|prev|].temps.criticalTemperature - h) {
      forall k | 0 <= k < |ts| && ts[k].Some?
        ensures ts[k].value < inputs[k].temps.criticalTemperature - h
      {
        if k < |prev| {
          assert ts[k] == prev[k];
        }
      }
    }
  }

  /** One more slot makes "some input at power-down" true exactly when that slot is at power-down. */
  lemma PowerDownStep(prev: seq<Option<real>>, slot: Option<real>, inputs: seq<InputChannel>)
    requires |prev| < |inputs|
    ensures AnyPowerDown(prev + [slot], inputs) ==
              (AnyPowerDown(prev, inputs) || (slot.Some? && slot.value >= inputs[|prev|].temps.powerDownTemperature))
  {
    var ts := prev + [slot];
    if AnyPowerDown(ts, inputs) {
      var k :| 0 <= k < |ts| && ts[k].Some? && ts[k].value >= inputs[k].temps.powerDownTemperature;
      if k < |prev| {
        assert prev[k] == ts[k];
      }
    }
    if AnyPowerDown(prev, inputs) {
      var k :| 0 <= k < |prev| && prev[k].Some? && prev[k].value >= inputs[k].temps.powerDownTemperature;
      assert ts[k] == prev[k];
    }
    assert ts[|prev|] == slot;
  }

  /** One more sampled slot folds its margin into the worst margin with `min`. */
  lemma MarginStep(prev: seq<Option<real>>, slot: Option<real>, inputs: seq<InputChannel>)
    requires |prev| < |inputs|
    ensures WorstMargin(prev + [slot], inputs) ==
              if slot.Some? then Min(WorstMargin(prev, inputs), inputs[|prev|].temps.targetTemperature - slot.value)
              else WorstMargin(prev, inputs)
  {
    assert (prev + [slot])[..|prev|] == prev;
  }

  /** Extending the scanned prefix by one slot extends the reversed projections by that slot's. */
  lemma PrefixStep(v: seq<TemperatureReading>, inputs: seq<InputChannel>, now: U64, i: nat)
    requires |v| == |inputs| && i < |v| && !AnyStale(v[..i], now)
    requires v[i].Valid? ==> v[i].timeMs >= now
    ensures !AnyStale(v[..i + 1], now)
    ensures ReversedTemps(v[..i + 1], inputs[..i + 1], now) ==
            ReversedTemps(v[..i], inputs[..i], now) +
            [if v[i].Valid? then Some(Project(v[i].value, now, v[i].timeMs, inputs[i].temps.slewDegPerSec)) else None]
  {
    assert v[..i + 1][..i] == v[..i];
    assert forall k :: 0 <= k < i ==> v[..i + 1][k] == v[..i][k];
  }

  /**
   * `set_pwm`: a duty above 100 is refused and no fan is written; otherwise
   * every fan is written with the duty, in index order, none skipped after a
   * failure, and the result is an error exactly when some fan write failed.
   * `fanOk[i]` is the result of writing fan `i`; `writes` lists the fan
   * writes issued, as (fan index, duty).
   */
  method BroadcastPwm(pwm: U8, fanOk: seq<bool>) returns (r: Result<Unit, ThermalError>, writes: seq<(nat, U8)>)
    ensures pwm > 100 ==> r == Err(InvalidPWM) && writes == []
    ensures pwm <= 100 ==> |writes| == |fanOk| && forall i :: 0 <= i < |fanOk| ==> writes[i] == (i, pwm)
    ensures pwm <= 100 ==> (r.Ok? <==> forall i :: 0 <= i < |fanOk| ==> fanOk[i])
    ensures pwm <= 100 && r.Err? ==> r.error == DeviceError
  {
    if pwm > 100 {
      return Err(InvalidPWM), [];
    }
    var lastOk := true;
    writes := [];
    var i := 0;
    while i < |fanOk|
      invariant 0 <= i <= |fanOk|
      invariant |writes| == i && forall j :: 0 <= j < i ==> writes[j] == (j, pwm)
      invariant lastOk <==> forall j :: 0 <= j < i ==> fanOk[j]
    {
      writes := writes + [(i, pwm)];
      if !fanOk[i] {
        lastOk := false;
      }
      i := i + 1;
    }
    r := if lastOk then Ok(Unit) else Err(DeviceError);
  }

  class ThermalControl {
    const bsp: Bsp
    var targetMargin: real
    var state: ControlState<OneSidedPid>
    const overheatTimeoutMs: U64
    const overheatHysteresis: real
    var powerMode: bv32
    var pidConfig: PidConfig

    /** The stored state has one slot per board input, the timing constants are those of `new`, and the target margin is non-negative. */
    ghost predicate Valid()
      reads this
    {
      (state.Uncontrollable? || state.Width() == |bsp.inputs|) &&
      overheatTimeoutMs == OVERHEAT_TIMEOUT_MS && overheatHysteresis == OVERHEAT_HYSTERESIS &&
      targetMargin >= 0.0
    }

    /** The controller object held by the Running state, if any. */
    function PidFrame(): set<object>
      reads this
    {
      if state.Running? then {state.pid} else {}
    }

    /** The stored state with the controller replaced by its value. */
    ghost function Abstract(): ControlState<PidState>
      reads this, PidFrame()
    {
      MapPid(state, if state.Running? then state.pid.Snapshot() else DefaultPid)
    }

    /** `ThermalControl::new`: Boot with no slot heard, margin 0, no power mode, the board's controller settings. */
    constructor (bsp: Bsp)
      ensures Valid() && this.bsp == bsp
      ensures Abstract() == ResetState(|bsp.inputs|)
      ensures targetMargin == 0.0 && powerMode == 0 && pidConfig == bsp.pidConfig
    {
      this.bsp := bsp;
      targetMargin := 0.0;
      state := ResetState(|bsp.inputs|);
      pidConfig := bsp.pidConfig;
      overheatHysteresis := OVERHEAT_HYSTERESIS;
      overheatTimeoutMs := OVERHEAT_TIMEOUT_MS;
      powerMode := 0;
    }

    /**
     * `set_pid`: refuses a non-positive proportional gain and a negative
     * integral or derivative gain; a zero integral gain clears the running
     * controller's accumulator, which could otherwise never wind down.
     */
    method SetPid(z: real, p: real, i: real, d: real) returns (r: Result<Unit, ThermalError>)
      requires Valid()
      modifies this, PidFrame()
      ensures Valid() && state == old(state) && unchanged(this`targetMargin, this`powerMode)
      ensures r.Err? <==> p <= 0.0 || i < 0.0 || d < 0.0
      ensures r.Err? ==> r.error == InvalidParameter && pidConfig == old(pidConfig) && Abstract() == old(Abstract())
      ensures r.Ok? ==> pidConfig == PidConfig(z, p, i, d)
      ensures r.Ok? ==> Abstract() == if i == 0.0 && old(Abstract()).Running?
                                      then old(Abstract()).(pid := old(Abstract()).pid.(integral := 0.0))
                                      else old(Abstract())
    {
      if p <= 0.0 || i < 0.0 || d < 0.0 {
        return Err(InvalidParameter);
      }
      if state.Running? && i == 0.0 {
        state.pid.integral := 0.0;
      }
      pidConfig := PidConfig(z, p, i, d);
      r := Ok(Unit);
    }

    /** `set_margin`: a negative margin is refused. */
    method SetMargin(margin: real) returns (r: Result<Unit, ThermalError>)
      requires Valid()
      modifies this`targetMargin
      ensures Valid()
      ensures r.Err? <==> margin < 0.0
      ensures r.Err? ==> r.error == InvalidParameter && targetMargin == old(targetMargin)
      ensures r.Ok? ==> targetMargin == margin
    {
      if margin < 0.0 {
        return Err(InvalidParameter);
      }
      targetMargin := margin;
      r := Ok(Unit);
    }

    /** `get_margin`: the target margin, which `set_margin` keeps non-negative. */
    function GetMargin(): (m: real)
      requires Valid()
      reads this
      ensures m >= 0.0
    {
      targetMargin
    }

    /** `reset_state`: back to Boot with no slot heard. */
    method ResetControlState()
      requires Valid()
      modifies this`state
      ensures Valid() && Abstract() == ResetState(|bsp.inputs|)
    {
      state := ResetState(|bsp.inputs|);
    }

    /** `reset`: the state, the controller settings and the margin return to their defaults. */
    method Reset()
      requires Valid()
      modifies this
      ensures Valid() && Abstract() == ResetState(|bsp.inputs|)
      ensures pidConfig == bsp.pidConfig && targetMargin == 0.0 && powerMode == old(powerMode)
    {
      ResetControlState();
      pidConfig := bsp.pidConfig;
      targetMargin := 0.0;
    }

    /** `get_state`. */
    function GetState(): (a: AutoState)
      reads this
      ensures a == AutoBoot <==> state.Boot?
      ensures a == AutoRunning <==> state.Running?
      ensures a == AutoOverheated <==> state.Overheated?
      ensures a == AutoUncontrollable <==> state.Uncontrollable?
    {
      match state
      case Boot(_) => AutoBoot
      case Running(_, _) => AutoRunning
      case Overheated(_, _) => AutoOverheated
      case Uncontrollable => AutoUncontrollable
    }

    /** `fan`: a handle for every index below the board's fan count. */
    function FanAt(index: U8): (f: Option<Fan>)
      reads this
      ensures f.Some? <==> index < bsp.fanCount
      ensures f.Some? ==> f.value.index == index
    {
      if index < bsp.fanCount then Some(Fan(index)) else None
    }

    /**
     * The input half of `read_sensors`: record the power mode (a change
     * resets to Boot), then store what each input produced.
     * `samples[i]` is the result of reading input `i`.
     */
    method ReadSensors(now: U64, mode: bv32, samples: seq<Result<real, SensorReadError>>)
      requires Valid() && |samples| == |bsp.inputs|
      modifies this`state, this`powerMode
      ensures Valid() && powerMode == mode
      ensures state == Sense(old(state), old(powerMode), mode, bsp.inputs, samples, now)
    {
      var prevMode := powerMode;
      powerMode := mode;
      if prevMode != powerMode {
        ResetControlState();
      }
      ghost var s0 := state;
      var i := 0;
      while i < |bsp.inputs|
        invariant 0 <= i <= |bsp.inputs| && Valid() && powerMode == mode
        invariant s0 == if prevMode != mode then ResetState(|bsp.inputs|) else old(state)
        invariant state == ApplyReads(s0, bsp.inputs, mode, samples, now, i)
      {
        var ch := bsp.inputs[i];
        if Intersects(powerMode, ch.powerModeMask) {
          match samples[i]
          case Ok(v) =>
            state := state.WriteTemperature(i, now, v);
          case Err(e) =>
            if ch.removable && e == I2cError(NoDevice) {
              state := state.WriteInactive(i);
            }
        } else {
          state := state.WriteInactive(i);
        }
        i := i + 1;
      }
    }

    /** The Boot arm of `run_control`. */
    method ControlBoot(now: U64) returns (outcome: Outcome)
      requires Valid() && TimesAtMost(state, now) && state.Boot?
      modifies this`state
      ensures Valid()
      ensures var d := BootDecision(old(state).known, bsp.inputs, pidConfig, targetMargin, now);
              Abstract() == d.next && outcome == d.outcome
    {
      var k := state.known;
      var allSome, anyPowerDown, worstMargin := ScanBoot(k, bsp.inputs, now);
      if anyPowerDown {
        state := Uncontrollable;
        outcome := PowerDown;
      } else if allSome {
        var pid := new OneSidedPid();
        var pwm := pid.Run(pidConfig, targetMargin - worstMargin, OUTPUT_LIMIT);
        state := Running(Unwrap(k), pid);
        outcome := Pwm(DutyOf(pwm));
      } else {
        outcome := Pwm(100);
      }
    }

    /** The Running arm of `run_control`. */
    method ControlRunning(now: U64) returns (outcome: Outcome)
      requires Valid() && TimesAtMost(state, now) && state.Running?
      modifies this`state, state.pid
      ensures Valid()
      ensures var d := RunningDecision(old(state).values, old(state.pid.Snapshot()), bsp.inputs, pidConfig, targetMargin, now);
              Abstract() == d.next && outcome == d.outcome
    {
      var v, pid := state.values, state.pid;
      var anyPowerDown, anyCritical, worstMargin := ScanRunning(v, bsp.inputs, now);
      if anyPowerDown {
        state := Uncontrollable;
        outcome := PowerDown;
      } else if anyCritical {
        state := Overheated(v, now);
        outcome := Pwm(100);
      } else {
        var pwm := pid.Run(pidConfig, targetMargin - worstMargin, OUTPUT_LIMIT);
        outcome := Pwm(DutyOf(pwm));
      }
    }

    /** The Overheated arm of `run_control`, as written. */
    method ControlOverheated(now: U64) returns (outcome: Outcome)
      requires Valid() && TimesAtMost(state, now) && state.Overheated?
      modifies this`state
      ensures Valid()
      ensures var d := OverheatedDecision(old(state).values, old(state).startTime, bsp.inputs, pidConfig, targetMargin, now);
              Abstract() == d.next && outcome == d.outcome
    {
      var v, start := state.values, state.startTime;
      var overflow, allSubcritical, anyPowerDown, worstMargin := ScanOverheated(v, bsp.inputs, overheatHysteresis, now);
      if overflow {
        outcome := ArithmeticOverflow;
      } else if anyPowerDown {
        state := Uncontrollable;
        outcome := PowerDown;
      } else if allSubcritical {
        var pid := new OneSidedPid();
        var pwm := pid.Run(pidConfig, targetMargin - worstMargin, OUTPUT_LIMIT);
        state := Running(v, pid);
        outcome := Pwm(DutyOf(pwm));
      } else if start + overheatTimeoutMs >= U64_LIMIT {
        outcome := ArithmeticOverflow;
      } else if now > start + overheatTimeoutMs {
        state := Uncontrollable;
        outcome := PowerDown;
      } else {
        outcome := Pwm(100);
      }
    }

    /** The decision half of `run_control`, on the stored state. */
    method Control(now: U64) returns (outcome: Outcome)
      requires Valid() && TimesAtMost(state, now)
      modifies this`state, PidFrame()
      ensures Valid()
      ensures var d := Decide(old(Abstract()), bsp.inputs, pidConfig, targetMargin, now);
              Abstract() == d.next && outcome == d.outcome
    {
      if state.Boot? {
        outcome := ControlBoot(now);
      } else if state.Running? {
        outcome := ControlRunning(now);
      } else if state.Overheated? {
        outcome := ControlOverheated(now);
      } else {
        outcome := PowerDown;
      }
    }

    /**
     * `run_control`: read the sensors, decide, then command the fans: the
     * chosen duty, or 0% after a power-down, to every fan of the board.
     * `fanOk[i]` is the result of writing fan `i`; `writes` lists the fan
     * writes issued. The request to power down the system is not modelled.
     */
    method RunControl(now: U64, mode: bv32, samples: seq<Result<real, SensorReadError>>, fanOk: seq<bool>)
      returns (tick: TickResult, writes: seq<(nat, U8)>)
      requires Valid() && |samples| == |bsp.inputs| && |fanOk| == bsp.fanCount && TimesAtMost(state, now)
      modifies this`state, this`powerMode, PidFrame()
      ensures Valid() && powerMode == mode
      ensures var d := Decide(Sense(old(Abstract()), old(powerMode), mode, bsp.inputs, samples, now),
                              bsp.inputs, pidConfig, targetMargin, now);
              Abstract() == d.next &&
              (d.outcome.ArithmeticOverflow? <==> tick.Panicked?) &&
              (tick.Applied? ==> tick.outcome == d.outcome)
      ensures tick.Applied? ==> (tick.fans.Ok? <==> forall i :: 0 <= i < |fanOk| ==> fanOk[i])
      ensures tick.Applied? && tick.fans.Err? ==> tick.fans.error == DeviceError
      ensures tick.Panicked? ==> writes == []
      ensures tick.Applied? ==>
                |writes| == bsp.fanCount &&
                forall i :: 0 <= i < bsp.fanCount ==>
                  writes[i] == (i, if tick.outcome.Pwm? then tick.outcome.duty else 0)
    {
      ghost var snap := if state.Running? then state.pid.Snapshot() else DefaultPid;
      ghost var s := state;
      ReadSensors(now, mode, samples);
      SenseMapPid(s, snap, old(powerMode), mode, bsp.inputs, samples, now);
      var outcome := Control(now);
      match outcome
      case Pwm(duty) =>
        assert duty <= 100;
        var r;
        r, writes := BroadcastPwm(duty, fanOk);
        tick := Applied(outcome, r);
      case PowerDown =>
        var r;
        r, writes := BroadcastPwm(0, fanOk);
        tick := Applied(outcome, r);
      case ArithmeticOverflow =>
        tick, writes := Panicked, [];
    }
  }
}
