/**
 * The Ignition server (drv/ignition-server/src/main.rs): a Hubris task that
 * answers Ignition requests for the ports of the mainboard controller. It
 * keeps the port count read at start-up and the last presence summary it
 * saw; every per-port request is checked against the port count, power
 * requests against the target's state, and the presence poll reschedules
 * itself on a fixed period. The controller's replies are parameters.
 */
module IgnitionServer {
  import opened Wrappers
  import opened IgnitionApi

  type U8 = x: int | 0 <= x < 0x100
  type U64 = x: int | 0 <= x < 0x1_0000_0000_0000_0000

  /** The presence poll period, in milliseconds. */
  const TIMER_INTERVAL: nat := 1000

  /** The port count the controller reports when it runs an unexpected bitstream. */
  const BAD_PORT_COUNT: U8 := 0xff

  /** `port_count`: the stored count, unless it is the value of a misconfigured controller. */
  function PortCountReply(portCount: U8): (r: Result<U8, IgnitionError>)
    ensures r.Err? <==> portCount == BAD_PORT_COUNT
    ensures r.Err? ==> r.error == FpgaError
    ensures r.Ok? ==> r.value == portCount
  {
    if portCount == BAD_PORT_COUNT then Err(FpgaError) else Ok(portCount)
  }

  /**
   * The per-port requests (`state`, `counters`, `link_events`,
   * `clear_link_events`): a port past the count is refused before the
   * controller is asked, otherwise the controller's reply is passed on.
   */
  function PerPort<T>(port: U8, portCount: U8, reply: Result<T, IgnitionError>): (r: Result<T, IgnitionError>)
    ensures port >= portCount ==> r == Err(InvalidPort)
    ensures port < portCount ==> r == reply
  {
    if port >= portCount then Err(InvalidPort) else reply
  }

  /** Whatever the controller would answer, an out-of-range port gets the same reply. */
  lemma PerPortIgnoresController<T>(port: U8, portCount: U8, a: Result<T, IgnitionError>, b: Result<T, IgnitionError>)
    requires port >= portCount
    ensures PerPort(port, portCount, a) == PerPort(port, portCount, b)
  {
  }

  /** What the server learns of a port's target before it forwards a request. */
  datatype TargetStatus = TargetStatus(resetInProgress: bool, powerOffInProgress: bool, powerOnInProgress: bool)

  /**
   * The checks of `send_request`, in order: the port must exist, its state
   * must be readable, a target must be present, and no reset, power-off or
   * power-on may be under way.
   */
  function SendRequestCheck(port: U8, portCount: U8, state: Result<Option<TargetStatus>, IgnitionError>): (r: Result<Unit, IgnitionError>)
    ensures r.Ok? <==>
              port < portCount && state.Ok? && state.value.Some? &&
              !state.value.value.resetInProgress && !state.value.value.powerOffInProgress && !state.value.value.powerOnInProgress
    ensures port >= portCount ==> r == Err(InvalidPort)
    ensures port < portCount && state.Err? ==> r == Err(state.error)
    ensures port < portCount && state == Ok(None) ==> r == Err(NoTargetPresent)
    ensures port < portCount && state.Ok? && state.value.Some? && r.Err? ==> r == Err(RequestInProgress)
  {
    if port >= portCount then Err(InvalidPort)
    else if state.Err? then Err(state.error)
    else if state.value.None? then Err(NoTargetPresent)
    else
      var t := state.value.value;
      if t.resetInProgress || t.powerOffInProgress || t.powerOnInProgress then Err(RequestInProgress)
      else Ok(Unit)
  }

  type Pos = n: int | n >= 1 witness 1

  /** 2 to the power `i`. */
  function Pow2(i: nat): Pos
  {
    if i == 0 then 1 else 2 * Pow2(i - 1)
  }

  /**
   * Port `i` is present in a presence summary: bit `i` of the summary is
   * set. The summary is a `u64`, modelled as an unsigned integer.
   */
  predicate Present(summary: U64, i: nat)
  {
    summary / Pow2(i) % 2 == 1
  }

  /** The summary after `i` single-bit right shifts (`x >> 1` is `x / 2` on an unsigned word). */
  function ShiftRight(x: U64, i: nat): U64
  {
    if i == 0 then x else ShiftRight(x, i - 1) / 2
  }

  lemma DivMod(a: nat, b: Pos)
    ensures a == b * (a / b) + a % b && 0 <= a % b < b
  {
  }

  lemma MulAtLeast(b: Pos, k: int)
    requires k >= 1
    ensures b * k >= b
  {
    assert b * k == b + b * (k - 1);
  }

  lemma MulAtMost(b: Pos, k: int)
    requires k <= -1
    ensures b * k + b <= 0
  {
    var c: int := b;
    assert c * k == c * (k + 1) - c;
    assert c * (k + 1) == 0 - c * (0 - (k + 1));
  }

  lemma Factor(b: int, q: int, d: int)
    ensures b * q - b * d == b * (q - d)
  {
  }

  /** A quotient and remainder pair that rebuilds `a` is the quotient and remainder of `a / b`. */
  lemma DivUnique(a: nat, b: Pos, q: nat, r: nat)
    requires a == b * q + r && r < b
    ensures a / b == q
  {
    var d := a / b;
    var m := a % b;
    assert a == b * d + m && 0 <= m < b;
    Factor(b, q, d);
    var k := q - d;
    assert b * k == m - r;
    if k >= 1 {
      MulAtLeast(b, k);
    } else if k <= -1 {
      MulAtMost(b, k);
    }
  }

  lemma QuotientBelowTwo(r: nat, p: Pos, r1: nat, r0: nat)
    requires r == p * r1 + r0 && r < 2 * p
    ensures r1 < 2
  {
    if r1 >= 2 {
      assert p * r1 == p * (r1 - 1) + p;
      MulAtLeast(p, r1 - 1);
    }
  }

  lemma Regroup(p: int, q: int, r1: int, r0: int)
    ensures (2 * p) * q + (p * r1 + r0) == p * (2 * q + r1) + r0
  {
  }

  lemma DivHalfCore(s: nat, p: Pos, q: nat, r: nat, r1: nat, r0: nat)
    requires s == (2 * p) * q + r && r < 2 * p
    requires r == p * r1 + r0 && r0 < p
    ensures s / p / 2 == q
  {
    QuotientBelowTwo(r, p, r1, r0);
    Regroup(p, q, r1, r0);
    DivUnique(s, p, 2 * q + r1, r0);
    DivUnique(2 * q + r1, 2, q, r1);
  }

  /** Dividing by `p` and then by 2 is dividing by `2p`. */
  lemma DivHalf(s: nat, p: Pos)
    ensures s / p / 2 == s / (2 * p)
  {
    var q := s / (2 * p);
    var r := s % (2 * p);
    var r1 := r / p;
    var r0 := r % p;
    DivMod(s, 2 * p);
    DivMod(r, p);
    DivHalfCore(s, p, q, r, r1, r0);
  }

  /**
   * `i` single-bit shifts are one shift by `i` (`x >> i`), so after them the
   * low bit of the summary is port `i`'s presence bit.
   */
  lemma {:induction false} ShiftRightIsBitShift(x: U64, i: nat)
    ensures ShiftRight(x, i) == x / Pow2(i)
    ensures ShiftRight(x, i) % 2 == 1 <==> Present(x, i)
  {
    if i > 0 {
      ShiftRightIsBitShift(x, i - 1);
      DivHalf(x, Pow2(i - 1));
    }
  }

  /**
   * `next_deadline`: the first multiple of the period after `start` that lies
   * past `finish`. A clock that runs backwards underflows `finish - start`,
   * and a deadline past the 64-bit range overflows; both are panics (None).
   */
  function NextDeadline(start: U64, finish: U64): (d: Option<U64>)
    ensures d.None? <==> finish < start || finish + TIMER_INTERVAL >= 0x1_0000_0000_0000_0000
    ensures d.Some? ==> finish < d.value <= finish + TIMER_INTERVAL
    ensures d.Some? ==> (d.value - start) % TIMER_INTERVAL == 0
  {
    if finish < start || finish + TIMER_INTERVAL >= 0x1_0000_0000_0000_0000 then None
    else
      var delta := finish - start;
      Some(finish + TIMER_INTERVAL - delta % TIMER_INTERVAL)
  }

  /** No multiple of the period after `start` lies past `finish` and before the deadline. */
  lemma NextDeadlineIsFirst(start: U64, finish: U64, k: nat)
    requires NextDeadline(start, finish).Some?
    requires start + k * TIMER_INTERVAL > finish
    ensures start + k * TIMER_INTERVAL >= NextDeadline(start, finish).value
  {
    var d := NextDeadline(start, finish).value;
    var delta := finish - start;
    assert d == start + (delta / TIMER_INTERVAL + 1) * TIMER_INTERVAL;
    assert k * TIMER_INTERVAL > delta;
    assert (delta / TIMER_INTERVAL) * TIMER_INTERVAL <= delta;
  }

  /** The server's state: the port count read at start-up and the last presence summary seen. */
  class IgnitionServer {
    var portCount: U8
    var lastPresenceSummary: U64
    /** The power requests forwarded to the controller, oldest first. */
    var forwarded: seq<(U8, Request)>

    /** `main`: the port count the controller reported, no presence seen yet. */
    constructor (portCount: U8)
      ensures this.portCount == portCount && lastPresenceSummary == 0 && forwarded == []
    {
      this.portCount := portCount;
      lastPresenceSummary := 0;
      forwarded := [];
    }

    /** `poll_presence`: a summary read successfully becomes the last one seen. */
    method PollPresence(current: Result<U64, IgnitionError>) returns (r: Result<Unit, IgnitionError>)
      modifies this`lastPresenceSummary
      ensures current.Ok? ==> r.Ok? && lastPresenceSummary == current.value
      ensures current.Err? ==> r == Err(current.error) && lastPresenceSummary == old(lastPresenceSummary)
    {
      if current.Err? {
        return Err(current.error);
      }
      if current.value != lastPresenceSummary {
        lastPresenceSummary := current.value;
      }
      return Ok(Unit);
    }

    /**
     * `handle_notification`: poll the presence summary only when the port
     * count is plausible, then compute the next deadline from the times the
     * handler started and finished.
     */
    method HandleNotification(start: U64, finish: U64, current: Result<U64, IgnitionError>) returns (deadline: Option<U64>)
      modifies this`lastPresenceSummary
      ensures deadline == NextDeadline(start, finish)
      ensures 0 < portCount && portCount != BAD_PORT_COUNT && current.Ok? ==> lastPresenceSummary == current.value
      ensures !(0 < portCount && portCount != BAD_PORT_COUNT && current.Ok?) ==> lastPresenceSummary == old(lastPresenceSummary)
    {
      if 0 < portCount && portCount != BAD_PORT_COUNT {
        var _ := PollPresence(current);
      }
      deadline := NextDeadline(start, finish);
    }

    /**
     * `send_request`: the request is forwarded to the controller, and the
     * controller's answer returned, only when every check passes; otherwise
     * nothing is forwarded.
     */
    method SendRequest(port: U8, request: Request, state: Result<Option<TargetStatus>, IgnitionError>,
                       reply: Result<Unit, IgnitionError>) returns (r: Result<Unit, IgnitionError>)
      modifies this`forwarded
      ensures SendRequestCheck(port, portCount, state).Err? ==>
                r == SendRequestCheck(port, portCount, state) && forwarded == old(forwarded)
      ensures SendRequestCheck(port, portCount, state).Ok? ==>
                r == reply && forwarded == old(forwarded) + [(port, request)]
    {
      r := SendRequestCheck(port, portCount, state);
      if r.Ok? {
        forwarded := forwarded + [(port, request)];
        r := reply;
      }
    }

    /**
     * `state_dump`: for each port below both PORT_MAX and the port count whose
     * presence bit is set, the port's state word; every other slot is zero.
     * The first present port whose state cannot be read aborts the dump.
     */
    method StateDump(summary: Result<U64, IgnitionError>, portState: nat -> Result<bv64, IgnitionError>)
      returns (r: Result<seq<bv64>, IgnitionError>)
      ensures summary.Err? ==> r == Err(summary.error)
      ensures summary.Ok? && r.Ok? ==> |r.value| == PORT_MAX
      ensures summary.Ok? && r.Ok? ==> forall i :: 0 <= i < PORT_MAX ==>
                if i < portCount && Present(summary.value, i) then portState(i).Ok? && r.value[i] == portState(i).value
                else r.value[i] == 0
      ensures summary.Ok? ==> (r.Ok? <==> forall i :: 0 <= i < PORT_MAX && i < portCount && Present(summary.value, i) ==> portState(i).Ok?)
      ensures summary.Ok? && r.Err? ==>
                (exists i :: 0 <= i < PORT_MAX && i < portCount && Present(summary.value, i) &&
                             portState(i).Err? && r.error == portState(i).error &&
                             forall k :: 0 <= k < i && Present(summary.value, k) ==> portState(k).Ok?)
    {
      if summary.Err? {
        return Err(summary.error);
      }
      var state := new bv64[PORT_MAX](_ => 0);
      var bits := summary.value;
      var n := if PORT_MAX < portCount then PORT_MAX else portCount;
      for i := 0 to n
        invariant bits == ShiftRight(summary.value, i)
        invariant forall k :: 0 <= k < PORT_MAX ==>
                    if k < i && Present(summary.value, k) then portState(k).Ok? && state[k] == portState(k).value
                    else state[k] == 0
      {
        ShiftRightIsBitShift(summary.value, i);
        if bits % 2 != 0 {
          var s := portState(i);
          if s.Err? {
            return Err(s.error);
          }
          state[i] := s.value;
        }
        bits := bits / 2;
      }
      return Ok(state[..]);
    }
  }
}
