/**
 * The one-sided anti-windup PID controller of the thermal loop
 * (`OneSidedPidState` in task/thermal/src/control.rs). Single-precision
 * floats are modelled as `real`, so the NaN and infinity guards of the
 * source have nothing to guard against.
 */
module ThermalPid {
  import opened Wrappers

  /** Zero-bias output and the three gains. */
  datatype PidConfig = PidConfig(zero: real, gainP: real, gainI: real, gainD: real)

  /** The value of a controller: previous error, and integral pre-multiplied by its gain. */
  datatype PidState = PidState(prevError: Option<real>, integral: real)

  /** What one step of the controller produces: its next state and the output. */
  datatype PidRun = PidRun(next: PidState, output: real)

  /** The state `OneSidedPidState::default()` builds. */
  const DefaultPid: PidState := PidState(None, 0.0)

  function Min(a: real, b: real): real { if a <= b then a else b }
  function Max(a: real, b: real): real { if a >= b then a else b }

  /**
   * The window the integral accumulator is clamped into, chosen from the
   * proportional-plus-derivative output so that the integral alone never
   * moves the sum further out of `[0, limit]` than `outPd` already is.
   */
  function IntegralWindow(outPd: real, limit: real): (w: (real, real))
    ensures limit >= 0.0 ==> w.0 <= w.1
    ensures limit >= 0.0 && 0.0 <= outPd <= limit ==> 0.0 <= outPd + w.0 && outPd + w.1 <= limit
    ensures outPd > limit ==> outPd + w.1 == outPd && outPd + w.0 == 0.0
    ensures outPd < 0.0 && outPd <= limit ==> outPd + w.0 == outPd && outPd + w.1 == limit
  {
    if outPd > limit then (-outPd, 0.0)
    else if outPd < 0.0 then (0.0, -outPd + limit)
    else (-outPd, limit - outPd)
  }

  /** `x.max(lo).min(hi)`: inside `[lo, hi]` whenever that range is not empty. */
  function ClampInto(x: real, lo: real, hi: real): (r: real)
    ensures lo <= hi ==> lo <= r <= hi
    ensures lo <= x <= hi ==> r == x
  {
    Min(Max(x, lo), hi)
  }

  /** Output saturation: `out` clamped into `[0, limit]`, upper bound checked first. */
  function Saturate(out: real, limit: real): (r: real)
    ensures limit >= 0.0 ==> 0.0 <= r <= limit
    ensures 0.0 <= out <= limit ==> r == out
  {
    if out > limit then limit else if out < 0.0 then 0.0 else out
  }

  /** The derivative contribution: zero before the first sample. */
  function Derivative(prev: Option<real>, error: real, gainD: real): (d: real)
    ensures prev.None? ==> d == 0.0
  {
    match prev
    case Some(p) => (error - p) * gainD
    case None => 0.0
  }

  /** The output before the integral term: zero bias plus the P and D contributions. */
  function OutPd(s: PidState, cfg: PidConfig, error: real): real
  {
    cfg.zero + cfg.gainP * error + Derivative(s.prevError, error, cfg.gainD)
  }

  /**
   * One step of the controller on `error`: the specification of
   * `OneSidedPid.Run`. The stored integral lies in the anti-windup window of
   * the step's P+D output, the previous error becomes `error`, and for a
   * non-negative limit the output lies in `[0, limit]`.
   */
  function PidStep(s: PidState, cfg: PidConfig, error: real, limit: real): (r: PidRun)
    ensures r.next.prevError == Some(error)
    ensures var w := IntegralWindow(OutPd(s, cfg, error), limit);
            limit >= 0.0 ==> w.0 <= r.next.integral <= w.1
    ensures limit >= 0.0 ==> 0.0 <= r.output <= limit
  {
    var integral := s.integral + error * cfg.gainI;
    var outPd := OutPd(s, cfg, error);
    var w := IntegralWindow(outPd, limit);
    var clamped := ClampInto(integral, w.0, w.1);
    PidRun(PidState(Some(error), clamped), Saturate(outPd + clamped, limit))
  }

  /**
   * Anti-windup: whenever the P+D output is itself inside `[0, limit]`, the
   * clamped integral keeps the sum inside it too, so the final output clamp
   * never bites and the output is exactly P + I + D.
   */
  lemma NoSaturationWhenPdInRange(s: PidState, cfg: PidConfig, error: real, limit: real)
    requires limit >= 0.0
    requires 0.0 <= OutPd(s, cfg, error) <= limit
    ensures var r := PidStep(s, cfg, error, limit);
            r.output == OutPd(s, cfg, error) + r.next.integral
  {
    var outPd := OutPd(s, cfg, error);
    var w := IntegralWindow(outPd, limit);
    assert 0.0 <= outPd + w.0 && outPd + w.1 <= limit;
  }

  /**
   * Windup is bounded while saturated high: when the P+D output already
   * exceeds the limit, the stored integral is never positive, so it cannot
   * keep the output pinned once P+D falls back.
   */
  lemma SaturatedHighIntegralNonPositive(s: PidState, cfg: PidConfig, error: real, limit: real)
    requires limit >= 0.0
    requires OutPd(s, cfg, error) > limit
    ensures PidStep(s, cfg, error, limit).next.integral <= 0.0
  {
  }

  /**
   * Starting from the default state the derivative gain has no effect on the
   * first step: the first output is the same for every `gainD`.
   */
  lemma FirstStepIgnoresDerivative(cfg: PidConfig, gainD: real, error: real, limit: real)
    ensures PidStep(DefaultPid, cfg, error, limit) == PidStep(DefaultPid, cfg.(gainD := gainD), error, limit)
  {
    assert OutPd(DefaultPid, cfg, error) == OutPd(DefaultPid, cfg.(gainD := gainD), error);
  }

  /** The controller of the thermal loop: previous error and integral, updated in place by `Run`. */
  class OneSidedPid {
    var prevError: Option<real>
    var integral: real

    /** The controller's current value. */
    function Snapshot(): (s: PidState)
      reads this
      ensures s.prevError == prevError && s.integral == integral
    {
      PidState(prevError, integral)
    }

    /** `OneSidedPidState::default()`: no previous error and an empty integral. */
    constructor ()
      ensures Snapshot() == DefaultPid
    {
      prevError := None;
      integral := 0.0;
    }

    /**
     * `run`: drives `error` towards zero; output and error share a sign, and
     * the controller only pushes upwards from zero.
     */
    method Run(cfg: PidConfig, error: real, outputLimit: real) returns (out: real)
      modifies this
      ensures Snapshot() == PidStep(old(Snapshot()), cfg, error, outputLimit).next
      ensures out == PidStep(old(Snapshot()), cfg, error, outputLimit).output
      ensures prevError == Some(error)
      ensures outputLimit >= 0.0 ==> 0.0 <= out <= outputLimit
    {
      ghost var step := PidStep(Snapshot(), cfg, error, outputLimit);
      var outPd := OutPd(Snapshot(), cfg, error);
      integral := integral + error * cfg.gainI;
      prevError := Some(error);
      var (integralMin, integralMax) := IntegralWindow(outPd, outputLimit);
      integral := ClampInto(integral, integralMin, integralMax);
      out := Saturate(outPd + integral, outputLimit);
      assert Snapshot() == step.next && out == step.output;
    }
  }
}
