/**
 * The SPDM server task (task/spdm/src/main.rs): a single-slot mailbox. A
 * client `send`s a message, which is stored with every byte inverted (a
 * stand-in for real SPDM processing) and marked valid; a later `recv` hands
 * the stored bytes out, zeroes the slot and marks it empty. `exchange`
 * passes a request straight to the SPDM responder, which is a parameter
 * here: the reply it produces and whether it reported an error. Reading the
 * client's source lease and writing its sink lease may fail, which the
 * parameters `readOk` and `writeOk` stand for.
 */
module Spdm {
  import opened Wrappers

  /** The size of the message slot. */
  const MAX_SPDM_MSG_SIZE: nat := 256

  /** The errors the server answers with; `WentAway` is a lease that could not be read or written. */
  datatype SpdmError =
    | MessageAlreadyExists
    | ShortMessage
    | SourceTooLarge
    | SinkTooSmall
    | NoMessageAvailable
    | ResponderReset
    | WentAway

  /** The slot as a value: how many bytes are valid, and the whole buffer. */
  datatype SpdmState = SpdmState(valid: nat, message: seq<bv8>)
  {
    predicate Valid()
    {
      |message| == MAX_SPDM_MSG_SIZE && valid <= MAX_SPDM_MSG_SIZE
    }
  }

  /** What an operation answers, and the slot it leaves behind. */
  datatype Outcome<T> = Outcome(result: Result<T, SpdmError>, next: SpdmState)

  /** The server as `new` builds it: nothing valid, a zeroed buffer. */
  function Initial(): (st: SpdmState)
    ensures st.Valid() && st.valid == 0
    ensures forall i :: 0 <= i < |st.message| ==> st.message[i] == 0
  {
    SpdmState(0, seq(MAX_SPDM_MSG_SIZE, _ => 0))
  }

  /** The toy transform: every byte inverted. */
  function Invert(s: seq<bv8>): (r: seq<bv8>)
    ensures |r| == |s|
  {
    seq(|s|, i requires 0 <= i < |s| => s[i] ^ 0xff)
  }

  /** Inverting twice gives the bytes back. */
  lemma InvertInvolutive(s: seq<bv8>)
    ensures Invert(Invert(s)) == s
  {
    assert forall i :: 0 <= i < |s| ==> Invert(Invert(s))[i] == s[i] by {
      forall i | 0 <= i < |s|
        ensures Invert(Invert(s))[i] == s[i]
      {
        InvertByte(s[i]);
      }
    }
  }

  /** A single byte inverted twice is itself, and inversion changes every byte. */
  lemma InvertByte(b: bv8)
    ensures (b ^ 0xff) ^ 0xff == b
    ensures b ^ 0xff != b
  {
  }

  /**
   * The guards `send` (and `exchange`) apply to a message of `length` bytes
   * from a source of `sourceLen` bytes, in the order the server tests them.
   */
  function SendCheck(valid: nat, length: nat, sourceLen: nat): (r: Result<Unit, SpdmError>)
    ensures r.Ok? <==> valid == 0 && 0 < sourceLen && length <= sourceLen && length <= MAX_SPDM_MSG_SIZE
    ensures valid > 0 ==> r == Err(MessageAlreadyExists)
    ensures valid == 0 && (sourceLen == 0 || sourceLen < length) ==> r == Err(ShortMessage)
    ensures valid == 0 && 0 < sourceLen && length <= sourceLen && length > MAX_SPDM_MSG_SIZE ==> r == Err(SourceTooLarge)
  {
    if valid > 0 then Err(MessageAlreadyExists)
    else if sourceLen == 0 || sourceLen < length then Err(ShortMessage)
    else if length > MAX_SPDM_MSG_SIZE then Err(SourceTooLarge)
    else Ok(Unit)
  }

  /**
   * `send`: after the guards, the first `length` source bytes are copied in
   * inverted and become the valid message; the rest of the buffer is kept.
   * Any failure leaves the slot as it was.
   */
  function SendSpec(st: SpdmState, length: nat, source: seq<bv8>, readOk: bool): (o: Outcome<Unit>)
    requires st.Valid()
    ensures o.next.Valid()
    ensures o.result.Ok? <==> SendCheck(st.valid, length, |source|).Ok? && readOk
    ensures o.result.Err? ==> o.next == st
    ensures SendCheck(st.valid, length, |source|).Err? ==> o.result == Err(SendCheck(st.valid, length, |source|).error)
    ensures o.result.Ok? ==>
              o.next.valid == length &&
              o.next.message[..length] == Invert(source[..length]) &&
              o.next.message[length..] == st.message[length..]
  {
    var check := SendCheck(st.valid, length, |source|);
    if check.Err? then Outcome(Err(check.error), st)
    else if !readOk then Outcome(Err(WentAway), st)
    else Outcome(Ok(Unit), SpdmState(length, Invert(source[..length]) + st.message[length..]))
  }

  /**
   * `recv` into a sink of `sinkLen` bytes: with a message stored and room
   * for it, the valid bytes are handed out, zeroed in the buffer, and the
   * slot is emptied. Any failure leaves the slot as it was.
   */
  function RecvSpec(st: SpdmState, sinkLen: nat, writeOk: bool): (o: Outcome<seq<bv8>>)
    requires st.Valid()
    ensures o.next.Valid()
    ensures o.result.Ok? <==> 0 < st.valid <= sinkLen && writeOk
    ensures st.valid == 0 ==> o.result == Err(NoMessageAvailable)
    ensures 0 < st.valid && sinkLen < st.valid ==> o.result == Err(SinkTooSmall)
    ensures o.result.Err? ==> o.next == st
    ensures o.result.Ok? ==>
              o.result.value == st.message[..st.valid] &&
              o.next.valid == 0 &&
              (forall i :: 0 <= i < st.valid ==> o.next.message[i] == 0) &&
              o.next.message[st.valid..] == st.message[st.valid..]
  {
    if st.valid == 0 then Outcome(Err(NoMessageAvailable), st)
    else if st.valid > sinkLen then Outcome(Err(SinkTooSmall), st)
    else if !writeOk then Outcome(Err(WentAway), st)
    else Outcome(Ok(st.message[..st.valid]), SpdmState(0, seq(st.valid, _ => 0) + st.message[st.valid..]))
  }

  /** What `exchange` comes to: an answer and the slot it leaves, or a panic of the server task. */
  datatype Exchanged = Finished(outcome: Outcome<nat>) | Panicked

  /**
   * `exchange`: the `send` guards, then the sink must hold `length` bytes.
   * The whole source lease (`sourceLen` bytes, not just `length`) is read
   * into a request buffer of MAX_SPDM_MSG_SIZE bytes and then sliced to
   * `sourceLen`, which panics for a longer source if the read got that far.
   * The responder's reply (at most a buffer long) is written to the sink; a
   * responder error with an empty reply is `ResponderReset`. The slot's
   * `valid` holds the reply length while the sink is written, so a failed
   * write leaves it there.
   */
  function ExchangeSpec(st: SpdmState, length: nat, sourceLen: nat, sinkLen: nat, readOk: bool,
                        reply: seq<bv8>, responderFailed: bool, writeOk: bool): (o: Exchanged)
    requires st.Valid() && |reply| <= MAX_SPDM_MSG_SIZE
    ensures o.Panicked? <==>
              SendCheck(st.valid, length, sourceLen).Ok? && length <= sinkLen && readOk && sourceLen > MAX_SPDM_MSG_SIZE
    ensures o.Finished? ==> o.outcome.next.Valid() && o.outcome.next.message == st.message
    ensures (o.Finished? && o.outcome.result.Ok?) <==>
              SendCheck(st.valid, length, sourceLen).Ok? && length <= sinkLen && readOk &&
              sourceLen <= MAX_SPDM_MSG_SIZE && !(responderFailed && |reply| == 0) && writeOk
    ensures SendCheck(st.valid, length, sourceLen).Err? ==>
              o == Finished(Outcome(Err(SendCheck(st.valid, length, sourceLen).error), st))
    ensures SendCheck(st.valid, length, sourceLen).Ok? && sinkLen < length ==> o == Finished(Outcome(Err(SinkTooSmall), st))
    ensures o.Finished? && o.outcome.result.Ok? ==> o.outcome.result.value == |reply| && o.outcome.next.valid == 0
    ensures o.Finished? && o.outcome.result == Err(ResponderReset) ==> o.outcome.next == st
  {
    var check := SendCheck(st.valid, length, sourceLen);
    if check.Err? then Finished(Outcome(Err(check.error), st))
    else if length > sinkLen then Finished(Outcome(Err(SinkTooSmall), st))
    else if !readOk then Finished(Outcome(Err(WentAway), st))
    else if sourceLen > MAX_SPDM_MSG_SIZE then Panicked
    else if responderFailed && |reply| == 0 then Finished(Outcome(Err(ResponderReset), st))
    else if !writeOk then Finished(Outcome(Err(WentAway), st.(valid := |reply|)))
    else Finished(Outcome(Ok(|reply|), st.(valid := 0)))
  }

  /**
   * `exchange` with a source longer than the request buffer refused as
   * SourceTooLarge, as the length limit on the lease would: it never panics,
   * and agrees with `exchange` as written for every source that fits.
   */
  function ExchangeSpecCorrected(st: SpdmState, length: nat, sourceLen: nat, sinkLen: nat, readOk: bool,
                                 reply: seq<bv8>, responderFailed: bool, writeOk: bool): (o: Outcome<nat>)
    requires st.Valid() && |reply| <= MAX_SPDM_MSG_SIZE
    ensures sourceLen <= MAX_SPDM_MSG_SIZE ==>
              Finished(o) == ExchangeSpec(st, length, sourceLen, sinkLen, readOk, reply, responderFailed, writeOk)
    ensures SendCheck(st.valid, length, sourceLen).Ok? && sourceLen > MAX_SPDM_MSG_SIZE ==>
              o == Outcome(Err(SourceTooLarge), st)
  {
    var check := SendCheck(st.valid, length, sourceLen);
    if check.Err? then Outcome(Err(check.error), st)
    else if sourceLen > MAX_SPDM_MSG_SIZE then Outcome(Err(SourceTooLarge), st)
    else ExchangeSpec(st, length, sourceLen, sinkLen, readOk, reply, responderFailed, writeOk).outcome
  }

  /**
   * A 300-byte source lease carrying a one-byte message passes every guard
   * of `exchange`; once the lease is read, the request slice panics. The
   * corrected exchange refuses it.
   */
  lemma LongSourceExchangePanics(reply: seq<bv8>, responderFailed: bool, writeOk: bool)
    requires |reply| <= MAX_SPDM_MSG_SIZE
    ensures ExchangeSpec(Initial(), 1, 300, 256, true, reply, responderFailed, writeOk) == Panicked
    ensures ExchangeSpecCorrected(Initial(), 1, 300, 256, true, reply, responderFailed, writeOk).result == Err(SourceTooLarge)
  {
  }

  /**
   * Send then receive: an empty slot takes a message of `length > 0` bytes
   * and hands back exactly those bytes inverted, which inverted again are
   * the client's bytes; the slot is empty afterwards.
   */
  lemma SendRecvRoundTrip(st: SpdmState, length: nat, source: seq<bv8>, sinkLen: nat)
    requires st.Valid() && st.valid == 0
    requires 0 < length <= |source| && length <= MAX_SPDM_MSG_SIZE && length <= sinkLen
    ensures var sent := SendSpec(st, length, source, true);
            var got := RecvSpec(sent.next, sinkLen, true);
            sent.result.Ok? && got.result.Ok? &&
            got.result.value == Invert(source[..length]) &&
            Invert(got.result.value) == source[..length] &&
            got.next.valid == 0
  {
    var sent := SendSpec(st, length, source, true);
    assert sent.next.message[..length] == Invert(source[..length]);
    InvertInvolutive(source[..length]);
  }

  /** The slot holds one message: a second `send` before the `recv` is refused and changes nothing. */
  lemma SingleSlot(st: SpdmState, length: nat, source: seq<bv8>, length2: nat, source2: seq<bv8>, readOk: bool)
    requires st.Valid() && st.valid == 0
    requires 0 < length <= |source| && length <= MAX_SPDM_MSG_SIZE
    ensures var sent := SendSpec(st, length, source, true);
            SendSpec(sent.next, length2, source2, readOk) == Outcome(Err(MessageAlreadyExists), sent.next)
  {
  }

  /**
   * A zero-length `send` from a non-empty source succeeds but stores
   * nothing, so the following `recv` finds no message.
   */
  lemma ZeroLengthSendStoresNothing(st: SpdmState, source: seq<bv8>, sinkLen: nat)
    requires st.Valid() && st.valid == 0 && |source| > 0
    ensures var sent := SendSpec(st, 0, source, true);
            sent.result.Ok? && RecvSpec(sent.next, sinkLen, true).result == Err(NoMessageAvailable)
  {
  }

  /**
   * After a successful `exchange` the slot is free for the next `send`; after
   * one whose sink write failed on a non-empty reply, every `send` is refused.
   */
  lemma ExchangeThenSend(st: SpdmState, length: nat, sourceLen: nat, sinkLen: nat, readOk: bool,
                         reply: seq<bv8>, responderFailed: bool, writeOk: bool,
                         length2: nat, source2: seq<bv8>, readOk2: bool)
    requires st.Valid() && |reply| <= MAX_SPDM_MSG_SIZE
    ensures var ex := ExchangeSpec(st, length, sourceLen, sinkLen, readOk, reply, responderFailed, writeOk);
            ex.Finished? && ex.outcome.result.Ok? ==>
              SendSpec(ex.outcome.next, length2, source2, readOk2).result == SendSpec(st, length2, source2, readOk2).result
    ensures var ex := ExchangeSpec(st, length, sourceLen, sinkLen, readOk, reply, responderFailed, writeOk);
            ex.Finished? && ex.outcome.result == Err(WentAway) && readOk && |reply| > 0 ==>
              SendSpec(ex.outcome.next, length2, source2, readOk2).result == Err(MessageAlreadyExists)
  {
  }

  /** `ServerImpl`: the valid length and the message buffer, updated in place. */
  class SpdmServer {
    var valid: nat
    const message: array<bv8>

    predicate Valid()
      reads this
    {
      message.Length == MAX_SPDM_MSG_SIZE && valid <= MAX_SPDM_MSG_SIZE
    }

    /** The server's slot as a value. */
    function Model(): (st: SpdmState)
      reads this, message
      ensures st.valid == valid && st.message == message[..]
    {
      SpdmState(valid, message[..])
    }

    /** `new`: an empty slot and a zeroed buffer. */
    constructor ()
      ensures Valid() && Model() == Initial()
      ensures fresh(message)
    {
      valid := 0;
      message := new bv8[MAX_SPDM_MSG_SIZE](_ => 0);
    }

    /** `send`: the guards, then the copy of the source and the in-place inversion. */
    method Send(length: nat, source: seq<bv8>, readOk: bool) returns (r: Result<Unit, SpdmError>)
      requires Valid()
      modifies this, message
      ensures Valid()
      ensures r == SendSpec(old(Model()), length, source, readOk).result
      ensures Model() == SendSpec(old(Model()), length, source, readOk).next
    {
      var check := SendCheck(valid, length, |source|);
      if check.Err? {
        return Err(check.error);
      }
      if !readOk {
        return Err(WentAway);
      }
      for i := 0 to length
        invariant Valid()
        invariant message[..i] == source[..i]
        invariant message[length..] == old(message[length..])
      {
        message[i] := source[i];
      }
      valid := length;
      for i := 0 to length
        invariant Valid() && valid == length
        invariant forall k :: 0 <= k < i ==> message[k] == source[k] ^ 0xff
        invariant forall k :: i <= k < length ==> message[k] == source[k]
        invariant message[length..] == old(message[length..])
      {
        message[i] := message[i] ^ 0xff;
      }
      assert message[..length] == Invert(source[..length]);
      assert message[..] == message[..length] + message[length..];
      return Ok(Unit);
    }

    /** `recv`: the guards, then the valid bytes handed out and zeroed in place. */
    method Recv(sinkLen: nat, writeOk: bool) returns (r: Result<seq<bv8>, SpdmError>)
      requires Valid()
      modifies this, message
      ensures Valid()
      ensures r == RecvSpec(old(Model()), sinkLen, writeOk).result
      ensures Model() == RecvSpec(old(Model()), sinkLen, writeOk).next
    {
      if valid == 0 {
        return Err(NoMessageAvailable);
      }
      if valid > sinkLen {
        return Err(SinkTooSmall);
      }
      if !writeOk {
        return Err(WentAway);
      }
      var len := valid;
      var out := message[..len];
      for i := 0 to len
        invariant Valid() && valid == len
        invariant message[..i] == seq(i, _ => 0)
        invariant message[len..] == old(message[len..])
      {
        message[i] := 0;
      }
      assert message[..] == message[..len] + message[len..];
      valid := 0;
      return Ok(out);
    }

    /**
     * `exchange`: the guards, the responder's reply written to the sink, the
     * slot left empty. `None` is a panic of the task, after which the slot
     * is as it was (the task's restart is not modelled).
     */
    method Exchange(length: nat, sourceLen: nat, sinkLen: nat, readOk: bool,
                    reply: seq<bv8>, responderFailed: bool, writeOk: bool) returns (r: Option<Result<nat, SpdmError>>)
      requires Valid() && |reply| <= MAX_SPDM_MSG_SIZE
      modifies this
      ensures Valid()
      ensures var e := ExchangeSpec(old(Model()), length, sourceLen, sinkLen, readOk, reply, responderFailed, writeOk);
              (r.None? <==> e.Panicked?) &&
              (e.Panicked? ==> Model() == old(Model())) &&
              (e.Finished? ==> r == Some(e.outcome.result) && Model() == e.outcome.next)
    {
      var check := SendCheck(valid, length, sourceLen);
      if check.Err? {
        return Some(Err(check.error));
      }
      if length > sinkLen {
        return Some(Err(SinkTooSmall));
      }
      if !readOk {
        return Some(Err(WentAway));
      }
      if sourceLen > MAX_SPDM_MSG_SIZE {
        return None;
      }
      if responderFailed && |reply| == 0 {
        return Some(Err(ResponderReset));
      }
      valid := |reply|;
      if !writeOk {
        return Some(Err(WentAway));
      }
      valid := 0;
      return Some(Ok(|reply|));
    }
  }
}
