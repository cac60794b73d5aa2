/**
 * Validation and packing of transceiver requests arriving over the network
 * (drv/transceivers-server/src/net_api.rs): module ids to FPGA port masks,
 * the page and size limits of module memory accesses, the Status reply
 * packing, and the shift that places reply data right after the serialised
 * header. Packet I/O, serialisation and the FPGA register accesses are not
 * modelled; their results are parameters.
 */
module TransceiversNet {
  import opened Wrappers
  import opened BitFlags

  type U8 = x: int | 0 <= x < 256

  /** Errors returned to the host. */
  datatype Error =
    | InvalidFpga(id: U8)
    | VersionMismatch
    | ProtocolError
    | RequestTooLarge
    | InvalidMemoryAccess(offset: U8, len: U8)
    | ReadFailed
    | WriteFailed

  /** The two front-IO FPGAs. */
  datatype FpgaController = Left | Right

  /** A port mask per FPGA. */
  datatype FpgaPortMasks = FpgaPortMasks(left: bv16, right: bv16)

  /** The modules a request addresses: one FPGA and a mask of its ports. */
  datatype ModuleId = ModuleId(fpgaId: U8, ports: bv16)

  /** `get_fpga`: ids 0 and 1 name the two FPGAs, any other id is refused. */
  function GetFpga(m: ModuleId): (r: Result<FpgaController, Error>)
    ensures m.fpgaId == 0 <==> r == Ok(Left)
    ensures m.fpgaId == 1 <==> r == Ok(Right)
    ensures m.fpgaId > 1 <==> r == Err(InvalidFpga(m.fpgaId))
  {
    if m.fpgaId == 0 then Ok(Left)
    else if m.fpgaId == 1 then Ok(Right)
    else Err(InvalidFpga(m.fpgaId))
  }

  /** `get_mask`: the port mask goes to the addressed FPGA, the other gets none. */
  function GetMask(m: ModuleId): (r: Result<FpgaPortMasks, Error>)
    ensures m.fpgaId == 0 ==> r == Ok(FpgaPortMasks(m.ports, 0))
    ensures m.fpgaId == 1 ==> r == Ok(FpgaPortMasks(0, m.ports))
    ensures m.fpgaId > 1 <==> r == Err(InvalidFpga(m.fpgaId))
  {
    if m.fpgaId == 0 then Ok(FpgaPortMasks(m.ports, 0))
    else if m.fpgaId == 1 then Ok(FpgaPortMasks(0, m.ports))
    else Err(InvalidFpga(m.fpgaId))
  }

  /** `unpack`: both conversions, the FPGA's error first. */
  function Unpack(m: ModuleId): (r: Result<(FpgaController, FpgaPortMasks), Error>)
  {
    match GetFpga(m)
    case Err(e) => Err(e)
    case Ok(fpga) =>
      match GetMask(m)
      case Err(e) => Err(e)
      case Ok(mask) => Ok((fpga, mask))
  }

  /** The controller and the mask agree: the mask's ports sit on the decoded FPGA's side. */
  lemma UnpackConsistent(m: ModuleId)
    ensures Unpack(m).Ok? <==> m.fpgaId <= 1
    ensures Unpack(m).Ok? ==>
              var (fpga, mask) := Unpack(m).value;
              (fpga == Left ==> mask == FpgaPortMasks(m.ports, 0)) &&
              (fpga == Right ==> mask == FpgaPortMasks(0, m.ports))
    ensures Unpack(m).Err? ==> Unpack(m).error == InvalidFpga(m.fpgaId)
  {
  }

  /** The upper memory page a region lives in, per management standard. */
  datatype UpperPage = Cmis(cmisPage: U8) | Sff8636(sffPage: U8)

  /** A region of module memory: page, offset and length. */
  datatype MemoryRegion = MemoryRegion(upperPage: UpperPage, offset: U8, len: U8)

  /** Module memory is paged in 128-byte pages. */
  const PAGE_SIZE: nat := 128

  /** `read`/`write`: an access may not run past the end of the page its offset is in. */
  function PageCheck(mem: MemoryRegion): (r: Result<Unit, Error>)
    ensures r.Err? ==> r.error == InvalidMemoryAccess(mem.offset, mem.len)
  {
    var pageEnd := (mem.offset / PAGE_SIZE + 1) * PAGE_SIZE;
    if mem.offset + mem.len > pageEnd then Err(InvalidMemoryAccess(mem.offset, mem.len)) else Ok(Unit)
  }

  /** The page check accepts exactly the accesses whose bytes all lie in one page. */
  lemma PageCheckWithinOnePage(mem: MemoryRegion)
    requires mem.len > 0
    ensures PageCheck(mem).Ok? <==> mem.offset / PAGE_SIZE == (mem.offset + mem.len - 1) / PAGE_SIZE
  {
    var o, l := mem.offset, mem.len;
    var p := o / PAGE_SIZE;
    assert p * PAGE_SIZE <= o < (p + 1) * PAGE_SIZE;
    if o + l <= (p + 1) * PAGE_SIZE {
      assert p * PAGE_SIZE <= o + l - 1 < (p + 1) * PAGE_SIZE;
    } else {
      assert (p + 1) * PAGE_SIZE <= o + l - 1;
    }
  }

  /**
   * The validation of `read`: the page check, then at most 8 bytes for a
   * CMIS module (section 5.2.2.1 of CMIS 5.0).
   */
  function ReadCheck(mem: MemoryRegion): (r: Result<Unit, Error>)
    ensures r.Ok? <==> PageCheck(mem).Ok? && !(mem.upperPage.Cmis? && mem.len > 8)
    ensures PageCheck(mem).Err? ==> r == PageCheck(mem)
    ensures PageCheck(mem).Ok? && r.Err? ==> r.error == RequestTooLarge
  {
    if PageCheck(mem).Err? then PageCheck(mem)
    else if mem.upperPage.Cmis? && mem.len > 8 then Err(RequestTooLarge)
    else Ok(Unit)
  }

  /**
   * The validation of `write`: the page check, then at most 8 bytes for a
   * CMIS module (section 5.2.2.2 of CMIS 5.0) and at most 4 for an
   * SFF-8636 module (section 5.3.3 of SFF-8636).
   */
  function WriteCheck(mem: MemoryRegion): (r: Result<Unit, Error>)
    ensures r.Ok? <==> PageCheck(mem).Ok? && mem.len <= (if mem.upperPage.Cmis? then 8 else 4)
    ensures PageCheck(mem).Err? ==> r == PageCheck(mem)
    ensures PageCheck(mem).Ok? && r.Err? ==> r.error == RequestTooLarge
  {
    if PageCheck(mem).Err? then PageCheck(mem)
    else match mem.upperPage
      case Cmis(_) => if mem.len > 8 then Err(RequestTooLarge) else Ok(Unit)
      case Sff8636(_) => if mem.len > 4 then Err(RequestTooLarge) else Ok(Unit)
  }

  /** Every write the checks accept is also a read they accept: writes are the stricter. */
  lemma WriteCheckStricter(mem: MemoryRegion)
    ensures WriteCheck(mem).Ok? ==> ReadCheck(mem).Ok?
  {
  }

  /** The lowest bit of a per-port register is set. */
  predicate LowBit(reg: bv16)
  {
    reg & 1 != 0
  }

  /** A per-port register shifted down by one port. */
  function NextPort(reg: bv16): bv16
  {
    reg >> 1
  }

  /** Bit `i` of a per-port register, `reg & (1 << i) != 0`. */
  predicate PortBit(reg: bv16, i: nat)
    requires i < 16
  {
    if i == 0 then LowBit(reg) else PortBit(NextPort(reg), i - 1)
  }

  /** Port `i` is selected by a port mask. */
  predicate PortSelected(ports: bv16, i: nat)
    requires i < 16
  {
    PortBit(ports, i)
  }

  /** The selected ports below `n`, in increasing order (`to_indices`). */
  function IndicesBelow(ports: bv16, n: nat): (s: seq<nat>)
    requires n <= 16
    ensures |s| <= n
    ensures forall k :: 0 <= k < |s| ==> s[k] < n
  {
    if n == 0 then []
    else IndicesBelow(ports, n - 1) + (if PortSelected(ports, n - 1) then [n - 1] else [])
  }

  /** The selected ports, in increasing order. */
  function Indices(ports: bv16): seq<nat>
  {
    IndicesBelow(ports, 16)
  }

  /**
   * `to_indices` lists exactly the selected ports below `n`, each once, in
   * strictly increasing order.
   */
  lemma {:induction false} IndicesBelowSpec(ports: bv16, n: nat)
    requires n <= 16
    ensures forall k :: 0 <= k < |IndicesBelow(ports, n)| ==>
              IndicesBelow(ports, n)[k] < n && PortSelected(ports, IndicesBelow(ports, n)[k])
    ensures forall i :: 0 <= i < n && PortSelected(ports, i) ==> i in IndicesBelow(ports, n)
    ensures forall k, l :: 0 <= k < l < |IndicesBelow(ports, n)| ==> IndicesBelow(ports, n)[k] < IndicesBelow(ports, n)[l]
  {
    if n > 0 {
      IndicesBelowSpec(ports, n - 1);
    }
  }

  /** `count_ones` on a port mask. */
  function PopCount(ports: bv16): (c: nat)
    ensures c <= 16
  {
    |Indices(ports)|
  }

  /** The byte count `mem.len() * count_ones(ports)` of a request over the selected ports. */
  function RequestSize(mem: MemoryRegion, m: ModuleId): (n: nat)
    ensures n <= 255 * 16
  {
    mem.len * PopCount(m.ports)
  }

  /** No bit of the empty mask is set. */
  lemma {:induction false} NoPortBit(i: nat)
    requires i < 16
    ensures !PortBit(0, i)
  {
    if i > 0 {
      assert NextPort(0) == 0;
      NoPortBit(i - 1);
    }
  }

  /** The empty mask selects no port below `n`. */
  lemma {:induction false} NoPortBelow(n: nat)
    requires n <= 16
    ensures IndicesBelow(0, n) == []
  {
    if n > 0 {
      NoPortBelow(n - 1);
      NoPortBit(n - 1);
    }
  }

  /** The empty mask selects no port, so a request over it has size 0. */
  lemma NoPortSelected()
    ensures PopCount(0) == 0
  {
    NoPortBelow(16);
  }

  /** The messages of the protocol; only a host request is served. */
  datatype HostRequest = Reset | Status | Read(readMem: MemoryRegion) | Write(writeMem: MemoryRegion) | OtherHostRequest
  datatype MessageBody = SpRequest | SpResponse | HostResponse | HostRequestBody(request: HostRequest)
  datatype Message = Message(version: nat, modules: ModuleId, body: MessageBody)

  /** `handle_message`: the version must be 1, then only a host request is accepted. */
  function HandleMessage(msg: Message): (r: Result<HostRequest, Error>)
    ensures msg.version != 1 ==> r == Err(VersionMismatch)
    ensures msg.version == 1 && !msg.body.HostRequestBody? ==> r == Err(ProtocolError)
    ensures r.Ok? <==> msg.version == 1 && msg.body.HostRequestBody?
    ensures r.Ok? ==> r.value == msg.body.request
  {
    if msg.version != 1 then Err(VersionMismatch)
    else match msg.body
      case HostRequestBody(h) => Ok(h)
      case _ => Err(ProtocolError)
  }

  /** What serving a request comes to: a reply to the host, or a panic of the server task. */
  datatype Served<T> = Replied(result: Result<T, Error>) | Panicked

  /**
   * The Read arm as written: a reply larger than `maxMessageSize` is
   * refused before any access; then the region is validated and the FPGA id
   * decoded. `setup` is the result of selecting the page, starting the I2C
   * read and waiting for it. The reply buffer is then cut into chunks of
   * `mem.len` bytes, one per selected port, which panics for a zero-length
   * read. `fetchOk` says whether every selected port's read buffer was
   * copied out; with no port selected the copy loop is empty and cannot
   * fail, so `fetchOk` is not consulted. On success the reply carries
   * `RequestSize` bytes of data.
   */
  function ReadRequest(mem: MemoryRegion, m: ModuleId, maxMessageSize: nat, setup: Result<Unit, Error>, fetchOk: bool)
    : (r: Served<nat>)
    ensures RequestSize(mem, m) > maxMessageSize ==> r == Replied(Err(RequestTooLarge))
    ensures r.Panicked? <==>
              RequestSize(mem, m) <= maxMessageSize && ReadCheck(mem).Ok? && m.fpgaId <= 1 && setup.Ok? && mem.len == 0
    ensures r == Replied(Ok(RequestSize(mem, m))) <==>
              RequestSize(mem, m) <= maxMessageSize && ReadCheck(mem).Ok? && m.fpgaId <= 1 && setup.Ok? &&
              mem.len > 0 && (fetchOk || PopCount(m.ports) == 0)
    ensures r.Replied? && r.result.Ok? ==> r.result.value == RequestSize(mem, m)
    ensures (setup.Ok? && RequestSize(mem, m) <= maxMessageSize && ReadCheck(mem).Ok? && m.fpgaId <= 1 &&
             r.Replied? && r.result.Err?) ==> r.result.error == ReadFailed
  {
    if RequestSize(mem, m) > maxMessageSize then Replied(Err(RequestTooLarge))
    else if ReadCheck(mem).Err? then Replied(Err(ReadCheck(mem).error))
    else if GetMask(m).Err? then Replied(Err(GetMask(m).error))
    else if setup.Err? then Replied(Err(setup.error))
    else if mem.len == 0 then Panicked
    else if !fetchOk && PopCount(m.ports) > 0 then Replied(Err(ReadFailed))
    else Replied(Ok(RequestSize(mem, m)))
  }

  /**
   * The Read arm with the chunking skipped for a zero-length read, which
   * then replies with no data. It never panics, and agrees with the arm as
   * written wherever that one replies.
   */
  function ReadRequestCorrected(mem: MemoryRegion, m: ModuleId, maxMessageSize: nat, setup: Result<Unit, Error>, fetchOk: bool)
    : (r: Result<nat, Error>)
    ensures ReadRequest(mem, m, maxMessageSize, setup, fetchOk).Replied? ==>
              r == ReadRequest(mem, m, maxMessageSize, setup, fetchOk).result
    ensures ReadRequest(mem, m, maxMessageSize, setup, fetchOk).Panicked? ==> r == Ok(0)
    ensures r.Ok? ==> r.value == RequestSize(mem, m)
  {
    if RequestSize(mem, m) > maxMessageSize then Err(RequestTooLarge)
    else if ReadCheck(mem).Err? then Err(ReadCheck(mem).error)
    else if GetMask(m).Err? then Err(GetMask(m).error)
    else if setup.Err? then Err(setup.error)
    else if mem.len == 0 then Ok(0)
    else if !fetchOk && PopCount(m.ports) > 0 then Err(ReadFailed)
    else Ok(RequestSize(mem, m))
  }

  /**
   * A zero-length read of a valid module set, whose I2C transaction
   * succeeds, panics in the arm as written, whatever the ports.
   */
  lemma ZeroLengthReadPanics(page: UpperPage, offset: U8, m: ModuleId, maxMessageSize: nat, fetchOk: bool)
    requires m.fpgaId <= 1
    ensures ReadRequest(MemoryRegion(page, offset, 0), m, maxMessageSize, Ok(Unit), fetchOk) == Panicked
    ensures ReadRequestCorrected(MemoryRegion(page, offset, 0), m, maxMessageSize, Ok(Unit), fetchOk) == Ok(0)
  {
    var mem := MemoryRegion(page, offset, 0);
    assert RequestSize(mem, m) == 0;
    assert PageCheck(mem).Ok?;
  }

  /**
   * A non-empty read of no port at all succeeds with an empty reply once the
   * I2C setup does, whatever the fetch would have said: the copy loop has
   * nothing to do.
   */
  lemma EmptyMaskReadSucceeds(mem: MemoryRegion, fpgaId: U8, maxMessageSize: nat, fetchOk: bool)
    requires fpgaId <= 1 && ReadCheck(mem).Ok? && mem.len > 0
    ensures ReadRequest(mem, ModuleId(fpgaId, 0), maxMessageSize, Ok(Unit), fetchOk) == Replied(Ok(0))
  {
    NoPortSelected();
  }

  /**
   * The Write arm as written. `dataLen` is the length of the receive buffer
   * left after the message header: the whole buffer is deserialised, not just
   * the received packet, so it is that capacity and not the number of bytes
   * the host sent. It must be at least `RequestSize`; then the region is
   * validated. `pageOk` is the result of selecting the page; every failure
   * there, an unknown FPGA id included, is reported as WriteFailed. The first
   * `mem.len` bytes of the buffer are then sliced out for the FPGA's write
   * buffer, which panics when the buffer holds fewer. `transferOk` is the
   * result of filling the FPGA's buffer, starting the I2C write and waiting
   * for it, each failure again WriteFailed.
   */
  function WriteRequest(mem: MemoryRegion, m: ModuleId, dataLen: nat, pageOk: bool, transferOk: bool): (r: Served<Unit>)
    ensures RequestSize(mem, m) > dataLen ==> r == Replied(Err(RequestTooLarge))
    ensures RequestSize(mem, m) <= dataLen && WriteCheck(mem).Err? ==> r == Replied(WriteCheck(mem))
    ensures r.Panicked? <==>
              RequestSize(mem, m) <= dataLen && WriteCheck(mem).Ok? && m.fpgaId <= 1 && pageOk && dataLen < mem.len
    ensures r.Panicked? ==> PopCount(m.ports) == 0
    ensures r == Replied(Ok(Unit)) <==>
              RequestSize(mem, m) <= dataLen && WriteCheck(mem).Ok? && m.fpgaId <= 1 && pageOk &&
              mem.len <= dataLen && transferOk
    ensures RequestSize(mem, m) <= dataLen && WriteCheck(mem).Ok? && r.Replied? && r.result.Err? ==>
              r.result.error == WriteFailed
  {
    if RequestSize(mem, m) > dataLen then Replied(Err(RequestTooLarge))
    else if WriteCheck(mem).Err? then Replied(WriteCheck(mem))
    else if GetMask(m).Err? || !pageOk then Replied(Err(WriteFailed))
    else if dataLen < mem.len then Panicked
    else if !transferOk then Replied(Err(WriteFailed))
    else Replied(Ok(Unit))
  }

  /**
   * The Write arm with the data length checked against `mem.len` as well:
   * too little data is refused up front, so it never panics, and it agrees
   * with the arm as written whenever the data covers the region.
   */
  function WriteRequestCorrected(mem: MemoryRegion, m: ModuleId, dataLen: nat, pageOk: bool, transferOk: bool)
    : (r: Result<Unit, Error>)
    ensures mem.len > dataLen ==> r == Err(RequestTooLarge)
    ensures mem.len <= dataLen ==> Replied(r) == WriteRequest(mem, m, dataLen, pageOk, transferOk)
  {
    if RequestSize(mem, m) > dataLen || mem.len > dataLen then Err(RequestTooLarge)
    else WriteRequest(mem, m, dataLen, pageOk, transferOk).result
  }

  /**
   * A write to no port at all passes the size check whatever the buffer
   * length, so a valid region longer than what is left of the receive buffer
   * after the header panics in the arm as written once the page is selected.
   */
  lemma EmptyMaskShortWritePanics(mem: MemoryRegion, fpgaId: U8, dataLen: nat, transferOk: bool)
    requires fpgaId <= 1 && WriteCheck(mem).Ok? && dataLen < mem.len
    ensures WriteRequest(mem, ModuleId(fpgaId, 0), dataLen, true, transferOk) == Panicked
    ensures WriteRequestCorrected(mem, ModuleId(fpgaId, 0), dataLen, true, transferOk) == Err(RequestTooLarge)
  {
    NoPortSelected();
  }

  /** The five conditions a status byte reports, in the order of their registers. */
  datatype Flag = Enabled | Reset | LowPowerMode | Present | Interrupt
  {
    function Index(): (k: nat)
      ensures k < 5
    {
      match this
      case Enabled => 0
      case Reset => 1
      case LowPowerMode => 2
      case Present => 3
      case Interrupt => 4
    }
  }

  /** The bits of a module's status byte, one per flag. */
  datatype StatusFlags = StatusFlags(enabled: bv8, reset: bv8, lowPowerMode: bv8, present: bv8, interrupt: bv8)
  {
    function Masks(): (ms: seq<bv8>)
      ensures |ms| == 5
    {
      [enabled, reset, lowPowerMode, present, interrupt]
    }

    /** The bit `flag` is reported in. */
    function Mask(flag: Flag): bv8
    {
      Masks()[flag.Index()]
    }

    /** Five non-zero flags, no two sharing a bit. */
    predicate Distinct()
    {
      DisjointMasks(Masks())
    }
  }

  /** The per-port registers of one FPGA, one bit per port. */
  datatype PortRegisters = PortRegisters(enable: bv16, reset: bv16, lpmode: bv16, present: bv16, irq: bv16)
  {
    /** The register `flag` is read from. */
    function Register(flag: Flag): bv16
    {
      match flag
      case Enabled => enable
      case Reset => reset
      case LowPowerMode => lpmode
      case Present => present
      case Interrupt => irq
    }

    /** Port `i`'s bit in each register, in flag order. */
    function Bits(i: nat): (cs: seq<bool>)
      requires i < 16
      ensures |cs| == 5
    {
      [PortBit(enable, i), PortBit(reset, i), PortBit(lpmode, i), PortBit(present, i), PortBit(irq, i)]
    }
  }

  /** Port `i`'s status byte: the union of the flags whose register has the port's bit set. */
  function StatusByte(f: StatusFlags, regs: PortRegisters, i: nat): (b: bv8)
    requires i < 16
  {
    UnionOf(f.Masks(), regs.Bits(i))
  }

  /** Each flag of port `i`'s status byte reports that port's bit in the flag's register, both ways. */
  lemma StatusByteFlags(f: StatusFlags, regs: PortRegisters, i: nat, flag: Flag)
    requires f.Distinct() && i < 16
    ensures StatusByte(f, regs, i) & f.Mask(flag) != 0 <==> PortBit(regs.Register(flag), i)
  {
    UnionHas(f.Masks(), regs.Bits(i), flag.Index());
    assert regs.Bits(i)[flag.Index()] == PortBit(regs.Register(flag), i) by {
      match flag
      case Enabled =>
      case Reset =>
      case LowPowerMode =>
      case Present =>
      case Interrupt =>
    }
  }

  /** The status bytes of the ports `selected`, in that order. */
  function StatusBytes(f: StatusFlags, regs: PortRegisters, selected: seq<nat>): (r: seq<bv8>)
    requires forall k :: 0 <= k < |selected| ==> selected[k] < 16
    ensures |r| == |selected|
  {
    if selected == [] then []
    else StatusBytes(f, regs, selected[..|selected| - 1]) + [StatusByte(f, regs, selected[|selected| - 1])]
  }

  /** Byte `k` of the status bytes is the status byte of the `k`th selected port. */
  lemma {:induction false} StatusBytesAt(f: StatusFlags, regs: PortRegisters, selected: seq<nat>, k: nat)
    requires forall j :: 0 <= j < |selected| ==> selected[j] < 16
    requires k < |selected|
    ensures StatusBytes(f, regs, selected)[k] == StatusByte(f, regs, selected[k])
  {
    var n := |selected| - 1;
    if k < n {
      StatusBytesAt(f, regs, selected[..n], k);
    }
  }

  /** Extending the selected prefix by one port appends that port's status byte. */
  lemma StatusBytesStep(f: StatusFlags, regs: PortRegisters, selected: seq<nat>, n: nat)
    requires forall j :: 0 <= j < |selected| ==> selected[j] < 16
    requires n < |selected|
    ensures StatusBytes(f, regs, selected[..n + 1]) == StatusBytes(f, regs, selected[..n]) + [StatusByte(f, regs, selected[n])]
  {
    assert selected[..n + 1][..n] == selected[..n];
  }

  /**
   * The Status arm: one status byte per selected port, in port order
   * (`to_indices`), from the start of `out`; returns how many were written.
   */
  method PackStatus(f: StatusFlags, regs: PortRegisters, ports: bv16, out: array<bv8>) returns (count: nat)
    requires PopCount(ports) <= out.Length
    modifies out
    ensures count == PopCount(ports)
    ensures out[..count] == StatusBytes(f, regs, Indices(ports))
    ensures out[count..] == old(out[count..])
  {
    var selected := Indices(ports);
    count := 0;
    while count < |selected|
      invariant count <= |selected|
      invariant out[..count] == StatusBytes(f, regs, selected[..count])
      invariant out[count..] == old(out[count..])
    {
      out[count] := StatusByte(f, regs, selected[count]);
      StatusBytesStep(f, regs, selected, count);
      count := count + 1;
    }
    assert selected[..count] == selected;
  }

  /**
   * The shift at the end of `check_net`: the `dataLen` reply bytes staged at
   * `maxSize` move down to `msgLen`, right after the serialised header (which
   * is never longer than `maxSize`); the packet size is `msgLen + dataLen`.
   */
  method ShiftReply(tx: array<bv8>, maxSize: nat, msgLen: nat, dataLen: nat) returns (size: nat)
    requires msgLen <= maxSize && maxSize + dataLen <= tx.Length
    modifies tx
    ensures size == msgLen + dataLen
    ensures tx[msgLen .. msgLen + dataLen] == old(tx[maxSize .. maxSize + dataLen])
    ensures forall k :: 0 <= k < tx.Length && !(msgLen <= k < msgLen + dataLen) ==> tx[k] == old(tx[k])
  {
    var k := 0;
    while k < dataLen
      invariant 0 <= k <= dataLen
      invariant forall j :: 0 <= j < tx.Length ==>
                  tx[j] == if msgLen <= j < msgLen + k then old(tx[maxSize + j - msgLen]) else old(tx[j])
    {
      tx[msgLen + k] := tx[maxSize + k];
      k := k + 1;
    }
    size := msgLen + dataLen;
  }
}
