/**
 * The control decision of `run_control` (task/thermal/src/control.rs) as a
 * pure function of the state after the sensors were read: which state comes
 * next and what the fans are told. Boot waits until every input has reported
 * once, Running drives the PID controller, Overheated runs the fans flat out
 * until the parts cool down or a timeout expires, and Uncontrollable keeps
 * the system powered down.
 */
module ThermalDecision {
  import opened Wrappers
  import opened ThermalPid
  import opened ThermalState

  /** `overheat_timeout_ms` as set by `ThermalControl::new`. */
  const OVERHEAT_TIMEOUT_MS: U64 := 60000
  /** `overheat_hysteresis` as set by `ThermalControl::new` (°C). */
  const OVERHEAT_HYSTERESIS: real := 1.0
  /** The PID output limit: a duty cycle in percent. */
  const OUTPUT_LIMIT: real := 100.0

  /**
   * Worst-case temperature per input, projecting each sample forward from
   * its time stamp to `now` (the rule of the Boot and Running states);
   * `None` for an input that is not sampled.
   */
  function ForwardTemps(v: seq<TemperatureReading>, inputs: seq<InputChannel>, now: U64): (ts: seq<Option<real>>)
    requires |v| == |inputs| && ReadingsAtMost(v, now)
    ensures |ts| == |v|
    ensures forall i :: 0 <= i < |v| ==> (ts[i].Some? <==> v[i].Valid?)
    ensures forall i :: 0 <= i < |v| && v[i].Valid? ==>
              ts[i].value == Project(v[i].value, v[i].timeMs, now, inputs[i].temps.slewDegPerSec)
  {
    seq(|v|, i requires 0 <= i < |v| =>
      if v[i].Valid? then Some(Project(v[i].value, v[i].timeMs, now, inputs[i].temps.slewDegPerSec)) else None)
  }

  /** Some sample is older than `now`. */
  predicate AnyStale(v: seq<TemperatureReading>, now: U64)
  {
    exists i :: 0 <= i < |v| && v[i].Valid? && v[i].timeMs < now
  }

  /**
   * The Overheated state's projection as written: it subtracts `now` from the
   * sample time, which is only defined (as a `u64` subtraction) when no
   * sample is older than `now`.
   */
  function ReversedTemps(v: seq<TemperatureReading>, inputs: seq<InputChannel>, now: U64): (ts: seq<Option<real>>)
    requires |v| == |inputs| && !AnyStale(v, now)
    ensures |ts| == |v|
    ensures forall i :: 0 <= i < |v| ==> (ts[i].Some? <==> v[i].Valid?)
  {
    seq(|v|, i requires 0 <= i < |v| =>
      if v[i].Valid? then Some(Project(v[i].value, now, v[i].timeMs, inputs[i].temps.slewDegPerSec)) else None)
  }

  /** Some sampled input is at or above its power-down temperature. */
  predicate AnyPowerDown(ts: seq<Option<real>>, inputs: seq<InputChannel>)
    requires |ts| <= |inputs|
  {
    exists i :: 0 <= i < |ts| && ts[i].Some? && ts[i].value >= inputs[i].temps.powerDownTemperature
  }

  /** Some sampled input is at or above its critical temperature. */
  predicate AnyCritical(ts: seq<Option<real>>, inputs: seq<InputChannel>)
    requires |ts| <= |inputs|
  {
    exists i :: 0 <= i < |ts| && ts[i].Some? && ts[i].value >= inputs[i].temps.criticalTemperature
  }

  /** Every sampled input is below its critical temperature by more than the hysteresis `h`. */
  predicate AllSubcritical(ts: seq<Option<real>>, inputs: seq<InputChannel>, h: real)
    requires |ts| <= |inputs|
  {
    forall i :: 0 <= i < |ts| && ts[i].Some? ==> ts[i].value < inputs[i].temps.criticalTemperature - h
  }

  /**
   * The smallest margin `target - temperature` over the sampled inputs,
   * `f32::MAX` when none is sampled; the loops fold `min` over the inputs in
   * index order.
   */
  function WorstMargin(ts: seq<Option<real>>, inputs: seq<InputChannel>): (m: real)
    requires |ts| <= |inputs|
    ensures m <= F32_MAX
    ensures forall i :: 0 <= i < |ts| && ts[i].Some? ==> m <= inputs[i].temps.targetTemperature - ts[i].value
    ensures m == F32_MAX ||
            exists i :: 0 <= i < |ts| && ts[i].Some? && m == inputs[i].temps.targetTemperature - ts[i].value
    decreases |ts|
  {
    if |ts| == 0 then F32_MAX
    else
      var w := WorstMargin(ts[..|ts| - 1], inputs);
      var last := ts[|ts| - 1];
      if last.Some? then Min(w, inputs[|ts| - 1].temps.targetTemperature - last.value) else w
  }

  /** What the fans are told, or that the Rust task would panic on arithmetic overflow. */
  datatype Outcome = Pwm(duty: U8) | PowerDown | ArithmeticOverflow

  /** The state after the decision and its outcome. */
  datatype Decision = Decision(next: ControlState<PidState>, outcome: Outcome)

  /** `pwm as u8` on a controller output already saturated to `[0, 100]`. */
  function DutyOf(out: real): (d: U8)
    requires 0.0 <= out <= OUTPUT_LIMIT
    ensures d <= 100
    ensures d as real <= out < d as real + 1.0
  {
    out.Floor
  }

  /** One step of the controller `pid` on the error `targetMargin - worstMargin`, then Running. */
  function RunPid(v: seq<TemperatureReading>, pid: PidState, cfg: PidConfig, error: real): (d: Decision)
    ensures d.next == Running(v, PidStep(pid, cfg, error, OUTPUT_LIMIT).next)
    ensures d.outcome.Pwm? && d.outcome.duty <= 100
  {
    var run := PidStep(pid, cfg, error, OUTPUT_LIMIT);
    Decision(Running(v, run.next), Pwm(DutyOf(run.output)))
  }

  /** The Boot state's decision. */
  function BootDecision(k: seq<Option<TemperatureReading>>, inputs: seq<InputChannel>, cfg: PidConfig,
                        margin: real, now: U64): (d: Decision)
    requires |k| == |inputs| && ReadingsAtMost(Known(k), now)
  {
    var ts := ForwardTemps(Known(k), inputs, now);
    if AnyPowerDown(ts, inputs) then Decision(Uncontrollable, PowerDown)
    else if AllSome(k) then RunPid(Unwrap(k), DefaultPid, cfg, margin - WorstMargin(ts, inputs))
    else Decision(Boot(k), Pwm(100))
  }

  /** The Running state's decision. */
  function RunningDecision(v: seq<TemperatureReading>, pid: PidState, inputs: seq<InputChannel>, cfg: PidConfig,
                           margin: real, now: U64): (d: Decision)
    requires |v| == |inputs| && ReadingsAtMost(v, now)
  {
    var ts := ForwardTemps(v, inputs, now);
    if AnyPowerDown(ts, inputs) then Decision(Uncontrollable, PowerDown)
    else if AnyCritical(ts, inputs) then Decision(Overheated(v, now), Pwm(100))
    else RunPid(v, pid, cfg, margin - WorstMargin(ts, inputs))
  }

  /** The Overheated state's decision once the temperatures `ts` have been projected. */
  function OverheatedFromTemps(v: seq<TemperatureReading>, start: U64, ts: seq<Option<real>>,
                               inputs: seq<InputChannel>, cfg: PidConfig, margin: real, now: U64): (d: Decision)
    requires |ts| == |v| == |inputs|
  {
    if AnyPowerDown(ts, inputs) then Decision(Uncontrollable, PowerDown)
    else if AllSubcritical(ts, inputs, OVERHEAT_HYSTERESIS) then RunPid(v, DefaultPid, cfg, margin - WorstMargin(ts, inputs))
    else if start + OVERHEAT_TIMEOUT_MS >= U64_LIMIT then Decision(Overheated(v, start), ArithmeticOverflow)
    else if now > start + OVERHEAT_TIMEOUT_MS then Decision(Uncontrollable, PowerDown)
    else Decision(Overheated(v, start), Pwm(100))
  }

  /**
   * The Overheated state's decision as written: the first stale sample makes
   * the reversed `u64` subtraction overflow.
   */
  function OverheatedDecision(v: seq<TemperatureReading>, start: U64, inputs: seq<InputChannel>,
                              cfg: PidConfig, margin: real, now: U64): (d: Decision)
    requires |v| == |inputs|
  {
    if AnyStale(v, now) then Decision(Overheated(v, start), ArithmeticOverflow)
    else OverheatedFromTemps(v, start, ReversedTemps(v, inputs, now), inputs, cfg, margin, now)
  }

  /**
   * The Overheated state's decision with the projection the other states
   * use: stored samples are projected forward to `now`.
   */
  function OverheatedDecisionCorrected(v: seq<TemperatureReading>, start: U64, inputs: seq<InputChannel>,
                                       cfg: PidConfig, margin: real, now: U64): (d: Decision)
    requires |v| == |inputs| && ReadingsAtMost(v, now)
  {
    OverheatedFromTemps(v, start, ForwardTemps(v, inputs, now), inputs, cfg, margin, now)
  }

  /** Whether a state can be handed to the decision at time `now`. */
  predicate Decidable(s: ControlState<PidState>, inputs: seq<InputChannel>, now: U64)
  {
    (s.Uncontrollable? || s.Width() == |inputs|) && TimesAtMost(s, now)
  }

  /**
   * The decision of `run_control`, Overheated arm as written: the arms of
   * Boot and Running project forward, Overheated faults on a stale sample.
   */
  function Decide(s: ControlState<PidState>, inputs: seq<InputChannel>, cfg: PidConfig,
                  margin: real, now: U64): (d: Decision)
    requires Decidable(s, inputs, now)
    ensures d.outcome.Pwm? ==> d.outcome.duty <= 100
    ensures d.outcome == PowerDown <==> d.next.Uncontrollable?
    ensures s.Uncontrollable? ==> d == Decision(Uncontrollable, PowerDown)
    ensures d.outcome == ArithmeticOverflow ==> s.Overheated? && d.next == s
    ensures Decidable(d.next, inputs, now)
  {
    match s
    case Boot(k) => BootDecision(k, inputs, cfg, margin, now)
    case Running(v, pid) => RunningDecision(v, pid, inputs, cfg, margin, now)
    case Overheated(v, start) => OverheatedDecision(v, start, inputs, cfg, margin, now)
    case Uncontrollable => Decision(Uncontrollable, PowerDown)
  }

  /**
   * The decision with the Overheated arm corrected to project forward like
   * the other arms.
   */
  function DecideCorrected(s: ControlState<PidState>, inputs: seq<InputChannel>, cfg: PidConfig,
                           margin: real, now: U64): (d: Decision)
    requires Decidable(s, inputs, now)
    ensures d.outcome.Pwm? ==> d.outcome.duty <= 100
    ensures d.outcome == PowerDown <==> d.next.Uncontrollable?
    ensures s.Uncontrollable? ==> d == Decision(Uncontrollable, PowerDown)
    ensures d.outcome == ArithmeticOverflow ==>
              s.Overheated? && d.next == s && s.startTime + OVERHEAT_TIMEOUT_MS >= U64_LIMIT
    ensures Decidable(d.next, inputs, now)
  {
    match s
    case Boot(k) => BootDecision(k, inputs, cfg, margin, now)
    case Running(v, pid) => RunningDecision(v, pid, inputs, cfg, margin, now)
    case Overheated(v, start) => OverheatedDecisionCorrected(v, start, inputs, cfg, margin, now)
    case Uncontrollable => Decision(Uncontrollable, PowerDown)
  }

  /**
   * With no stale sample both Overheated projections are the raw samples:
   * every stored time stamp is exactly `now`.
   */
  lemma FreshProjectionsAgree(v: seq<TemperatureReading>, inputs: seq<InputChannel>, now: U64)
    requires |v| == |inputs| && ReadingsAtMost(v, now) && !AnyStale(v, now)
    ensures ReversedTemps(v, inputs, now) == ForwardTemps(v, inputs, now)
    ensures forall i :: 0 <= i < |v| && v[i].Valid? ==> ForwardTemps(v, inputs, now)[i] == Some(v[i].value)
  {
    var r, f := ReversedTemps(v, inputs, now), ForwardTemps(v, inputs, now);
    forall i | 0 <= i < |v|
      ensures r[i] == f[i] && (v[i].Valid? ==> f[i] == Some(v[i].value))
    {
      if v[i].Valid? {
        assert v[i].timeMs == now;
      }
    }
  }

  /** The projected temperatures the decision looks at in a state that has slots. */
  function Temps(s: ControlState<PidState>, inputs: seq<InputChannel>, now: U64): (ts: seq<Option<real>>)
    requires Decidable(s, inputs, now) && !s.Uncontrollable?
    ensures |ts| == |inputs|
  {
    match s
    case Boot(k) => ForwardTemps(Known(k), inputs, now)
    case Running(v, _) => ForwardTemps(v, inputs, now)
    case Overheated(v, _) => ForwardTemps(v, inputs, now)
  }

  /**
   * Power-down pre-empts everything: in any state with slots (in Overheated,
   * with no stale sample, the only case the source handles), one input at or
   * above its power-down temperature sends the machine to Uncontrollable and
   * powers the system down, whatever the other inputs say.
   */
  lemma PowerDownPreempts(s: ControlState<PidState>, inputs: seq<InputChannel>, cfg: PidConfig,
                          margin: real, now: U64, i: nat)
    requires Decidable(s, inputs, now) && !s.Uncontrollable?
    requires s.Overheated? ==> !AnyStale(s.values, now)
    requires i < |inputs| && Temps(s, inputs, now)[i].Some?
    requires Temps(s, inputs, now)[i].value >= inputs[i].temps.powerDownTemperature
    ensures Decide(s, inputs, cfg, margin, now) == Decision(Uncontrollable, PowerDown)
  {
    if s.Overheated? {
      FreshProjectionsAgree(s.values, inputs, now);
    }
    assert AnyPowerDown(Temps(s, inputs, now), inputs);
  }

  /**
   * Boot holds the fans at 100% for as long as some input has not reported
   * once (and nothing is at power-down).
   */
  lemma BootWaitsForEveryInput(k: seq<Option<TemperatureReading>>, inputs: seq<InputChannel>, cfg: PidConfig,
                               margin: real, now: U64, i: nat)
    requires Decidable(Boot(k), inputs, now)
    requires i < |k| && k[i].None?
    requires !AnyPowerDown(ForwardTemps(Known(k), inputs, now), inputs)
    ensures Decide(Boot(k), inputs, cfg, margin, now) == Decision(Boot(k), Pwm(100))
  {
    assert !AllSome(k);
  }

  /**
   * Once every input has reported (a sample or Inactive: inactive inputs do
   * not hold Boot back) and none is at power-down, Boot enters Running with a
   * fresh controller fed with `targetMargin - worstMargin`.
   */
  lemma BootEntersRunning(k: seq<Option<TemperatureReading>>, inputs: seq<InputChannel>, cfg: PidConfig,
                          margin: real, now: U64)
    requires Decidable(Boot(k), inputs, now) && AllSome(k)
    requires !AnyPowerDown(ForwardTemps(Known(k), inputs, now), inputs)
    ensures var d := Decide(Boot(k), inputs, cfg, margin, now);
            var run := PidStep(DefaultPid, cfg, margin - WorstMargin(ForwardTemps(Known(k), inputs, now), inputs), OUTPUT_LIMIT);
            d.next == Running(Unwrap(k), run.next) && d.outcome == Pwm(DutyOf(run.output))
  {
  }

  /** Running enters Overheated at `now` with the fans at 100% when an input is critical but none at power-down. */
  lemma RunningEntersOverheated(v: seq<TemperatureReading>, pid: PidState, inputs: seq<InputChannel>, cfg: PidConfig,
                                margin: real, now: U64, i: nat)
    requires Decidable(Running(v, pid), inputs, now)
    requires i < |v| && v[i].Valid?
    requires Project(v[i].value, v[i].timeMs, now, inputs[i].temps.slewDegPerSec) >= inputs[i].temps.criticalTemperature
    requires !AnyPowerDown(ForwardTemps(v, inputs, now), inputs)
    ensures Decide(Running(v, pid), inputs, cfg, margin, now) == Decision(Overheated(v, now), Pwm(100))
  {
    assert AnyCritical(ForwardTemps(v, inputs, now), inputs);
  }

  /** Below critical everywhere, Running takes one controller step and stays Running. */
  lemma RunningRunsPid(v: seq<TemperatureReading>, pid: PidState, inputs: seq<InputChannel>, cfg: PidConfig,
                       margin: real, now: U64)
    requires Decidable(Running(v, pid), inputs, now)
    requires forall i :: 0 <= i < |v| && v[i].Valid? ==>
               Project(v[i].value, v[i].timeMs, now, inputs[i].temps.slewDegPerSec) < inputs[i].temps.criticalTemperature
    requires forall i :: 0 <= i < |inputs| ==> inputs[i].temps.criticalTemperature <= inputs[i].temps.powerDownTemperature
    ensures var d := Decide(Running(v, pid), inputs, cfg, margin, now);
            d.next.Running? && d.next.values == v && d.outcome.Pwm? &&
            d.next.pid == PidStep(pid, cfg, margin - WorstMargin(ForwardTemps(v, inputs, now), inputs), OUTPUT_LIMIT).next
  {
    var ts := ForwardTemps(v, inputs, now);
    assert !AnyPowerDown(ts, inputs);
    assert !AnyCritical(ts, inputs);
  }

  /**
   * Overheated returns to Running, with a fresh controller, once every input
   * is below critical by more than the hysteresis and none is at power-down.
   */
  lemma OverheatedRecovers(v: seq<TemperatureReading>, start: U64, inputs: seq<InputChannel>, cfg: PidConfig,
                           margin: real, now: U64)
    requires Decidable(Overheated(v, start), inputs, now) && !AnyStale(v, now)
    requires var ts := ForwardTemps(v, inputs, now);
             !AnyPowerDown(ts, inputs) && AllSubcritical(ts, inputs, OVERHEAT_HYSTERESIS)
    ensures var d := Decide(Overheated(v, start), inputs, cfg, margin, now);
            d.next.Running? && d.next.values == v && d.next.pid.prevError.Some? && d.outcome.Pwm?
  {
    FreshProjectionsAgree(v, inputs, now);
  }

  /**
   * Without recovery, Overheated powers down only when `now` is strictly
   * past `start + timeout`; up to and including that instant it keeps the
   * fans at 100%.
   */
  lemma OverheatedTimeoutIsStrict(v: seq<TemperatureReading>, start: U64, inputs: seq<InputChannel>, cfg: PidConfig,
                                  margin: real, now: U64)
    requires Decidable(Overheated(v, start), inputs, now) && !AnyStale(v, now)
    requires var ts := ForwardTemps(v, inputs, now);
             !AnyPowerDown(ts, inputs) && !AllSubcritical(ts, inputs, OVERHEAT_HYSTERESIS)
    requires start + OVERHEAT_TIMEOUT_MS < U64_LIMIT
    ensures var d := Decide(Overheated(v, start), inputs, cfg, margin, now);
            (now > start + OVERHEAT_TIMEOUT_MS ==> d == Decision(Uncontrollable, PowerDown)) &&
            (now <= start + OVERHEAT_TIMEOUT_MS ==> d == Decision(Overheated(v, start), Pwm(100)))
  {
    FreshProjectionsAgree(v, inputs, now);
  }

  /**
   * As written, the Overheated arm faults on any sample older than `now`:
   * one transient read failure of a critical input keeps its stale sample,
   * and `time_ms - now_ms` then overflows.
   */
  lemma OverheatedStaleSampleFaults(v: seq<TemperatureReading>, start: U64, inputs: seq<InputChannel>, cfg: PidConfig,
                                    margin: real, now: U64, i: nat)
    requires Decidable(Overheated(v, start), inputs, now)
    requires i < |v| && v[i].Valid? && v[i].timeMs < now
    ensures Decide(Overheated(v, start), inputs, cfg, margin, now) == Decision(Overheated(v, start), ArithmeticOverflow)
  {
    assert AnyStale(v, now);
  }

  /** A controller configuration with every gain zero (used by the examples). */
  function Config0(): PidConfig { PidConfig(0.0, 0.0, 0.0, 0.0) }

  /**
   * A concrete Overheated state that shows the fault: one input at 85 °C
   * (critical 80, power-down 90, slew 1 °C/s) sampled at 1000 ms, the clock
   * at 2000 ms. As written the tick faults; corrected, the sample projects
   * to 86 °C and the fans stay at 100%.
   */
  lemma OverheatedStaleSampleExample()
    ensures var ch := InputChannel(ThermalProperties(60.0, 80.0, 90.0, 1.0), 1, false);
            var s := Overheated([Valid(1000, 85.0)], 1000);
            Decide(s, [ch], Config0(), 0.0, 2000).outcome == ArithmeticOverflow &&
            DecideCorrected(s, [ch], Config0(), 0.0, 2000) == Decision(s, Pwm(100))
  {
    var ch := InputChannel(ThermalProperties(60.0, 80.0, 90.0, 1.0), 1, false);
    var v := [Valid(1000, 85.0)];
    assert v[0].Valid? && v[0].timeMs < 2000;
    assert AnyStale(v, 2000);
    var ts := ForwardTemps(v, [ch], 2000);
    assert ts[0] == Some(86.0);
    assert !AnyPowerDown(ts, [ch]);
    assert !AllSubcritical(ts, [ch], OVERHEAT_HYSTERESIS);
  }

  /**
   * Corrected: whenever the as-written Overheated arm does not fault, the
   * corrected one decides exactly as it does.
   */
  lemma CorrectedAgreesWhenFresh(s: ControlState<PidState>, inputs: seq<InputChannel>, cfg: PidConfig,
                                 margin: real, now: U64)
    requires Decidable(s, inputs, now)
    requires s.Overheated? ==> !AnyStale(s.values, now)
    ensures Decide(s, inputs, cfg, margin, now) == DecideCorrected(s, inputs, cfg, margin, now)
  {
    if s.Overheated? {
      FreshProjectionsAgree(s.values, inputs, now);
    }
  }

  /**
   * Corrected: a stale sample never faults the Overheated arm; its
   * projection rises with its age, so a sensor that keeps failing eventually
   * reaches power-down and the system is powered down.
   */
  lemma CorrectedStaleSamplePowersDown(v: seq<TemperatureReading>, start: U64, inputs: seq<InputChannel>, cfg: PidConfig,
                                       margin: real, now: U64, i: nat)
    requires Decidable(Overheated(v, start), inputs, now)
    requires i < |v| && v[i].Valid?
    requires Project(v[i].value, v[i].timeMs, now, inputs[i].temps.slewDegPerSec) >= inputs[i].temps.powerDownTemperature
    ensures DecideCorrected(Overheated(v, start), inputs, cfg, margin, now) == Decision(Uncontrollable, PowerDown)
  {
    assert AnyPowerDown(ForwardTemps(v, inputs, now), inputs);
  }

  /**
   * Corrected: the Overheated arm faults only on the `start + timeout`
   * overflow, never because of a stale sample.
   */
  lemma CorrectedNeverFaultsOnStaleSample(v: seq<TemperatureReading>, start: U64, inputs: seq<InputChannel>, cfg: PidConfig,
                                          margin: real, now: U64)
    requires Decidable(Overheated(v, start), inputs, now)
    requires start + OVERHEAT_TIMEOUT_MS < U64_LIMIT
    ensures DecideCorrected(Overheated(v, start), inputs, cfg, margin, now).outcome != ArithmeticOverflow
  {
  }

  /**
   * Without a power-mode change a tick never leaves Uncontrollable: the
   * readings are ignored and the decision is to stay powered down.
   */
  lemma UncontrollableIsAbsorbing(mode: bv32, inputs: seq<InputChannel>, samples: seq<Result<real, SensorReadError>>,
                                  cfg: PidConfig, margin: real, now: U64)
    requires |inputs| == |samples|
    ensures Sense<PidState>(Uncontrollable, mode, mode, inputs, samples, now) == Uncontrollable
    ensures Decide(Sense<PidState>(Uncontrollable, mode, mode, inputs, samples, now), inputs, cfg, margin, now)
            == Decision(Uncontrollable, PowerDown)
  {
    UncontrollableIgnoresReads<PidState>(inputs, mode, samples, now, |inputs|);
  }

  /**
   * Two inputs (target 50 °C, slew 1 °C/s) last read at 70 °C and 60 °C at
   * time 0 project to 75 °C and 65 °C at 5000 ms; the worst margin is -25,
   * so a proportional-only controller with gain 1 and a zero target margin
   * leaves Boot with a 25% duty cycle.
   */
  lemma BootEntersRunningExample()
    ensures var ch := InputChannel(ThermalProperties(50.0, 80.0, 90.0, 1.0), 1, false);
            var d := Decide(Boot([Some(Valid(0, 70.0)), Some(Valid(0, 60.0))]), [ch, ch],
                            PidConfig(0.0, 1.0, 0.0, 0.0), 0.0, 5000);
            d.next.Running? && d.outcome == Pwm(25)
  {
    var ch := InputChannel(ThermalProperties(50.0, 80.0, 90.0, 1.0), 1, false);
    var cfg := PidConfig(0.0, 1.0, 0.0, 0.0);
    var k := [Some(Valid(0, 70.0)), Some(Valid(0, 60.0))];
    var ts := ForwardTemps(Known(k), [ch, ch], 5000);
    assert ts[0] == Some(75.0) && ts[1] == Some(65.0);
    assert WorstMargin(ts[..1], [ch, ch]) == -25.0 by {
      assert ts[..1][..0] == [];
    }
    assert WorstMargin(ts, [ch, ch]) == -25.0 by {
      assert ts[..|ts| - 1] == ts[..1];
    }
    assert !AnyPowerDown(ts, [ch, ch]);
    assert AllSome(k);
    var run := PidStep(DefaultPid, cfg, 25.0, OUTPUT_LIMIT);
    assert OutPd(DefaultPid, cfg, 25.0) == 25.0;
    assert run.output == 25.0;
    assert Decide(Boot(k), [ch, ch], cfg, 0.0, 5000) == RunPid(Unwrap(k), DefaultPid, cfg, 25.0);
  }
}
