/**
 * Register encoders and decoders of the Tofino 2 sequencer and debug port
 * (drv/sidecar-mainboard-controller/src/tofino2.rs), and the chunking of
 * EEPROM byte buffers into aligned four-byte transfers. The generated
 * register masks are parameters; the register transport itself is not
 * modelled: what the EEPROM returns for a read, or answers to a write, is a
 * function argument.
 */
module Tofino2 {
  import opened Wrappers

  /** Errors of the mainboard controller interface. */
  datatype FpgaError = InvalidValue | InvalidState | Transport(code: nat)

  /** Who drives Tofino's PCIe reset. */
  datatype TofinoPcieReset = HostControl | Asserted | Deasserted

  /** Two register masks that are non-zero and share no bit. */
  predicate DisjointMasks(a: bv8, b: bv8)
  {
    a != 0 && b != 0 && a & b == 0
  }

  /**
   * `pcie_reset` on a value `ctrl` of the hot-plug control register: with
   * OVERRIDE_HOST_RESET clear the host is in control whatever RESET says.
   */
  function PcieReset(ctrl: bv8, resetMask: bv8, overrideMask: bv8): (r: TofinoPcieReset)
    ensures ctrl & overrideMask == 0 ==> r == HostControl
    ensures ctrl & overrideMask != 0 ==> (r == Asserted <==> ctrl & resetMask != 0)
  {
    if ctrl & overrideMask == 0 then HostControl
    else if ctrl & resetMask == 0 then Deasserted
    else Asserted
  }

  /** The register value `set_pcie_reset(reset)` writes back, computed from the value `ctrl` it read. */
  function CtrlNext(ctrl: bv8, reset: TofinoPcieReset, resetMask: bv8, overrideMask: bv8): bv8
  {
    match reset
    case HostControl => ctrl & !(resetMask | overrideMask)
    case Asserted => ctrl | resetMask | overrideMask
    case Deasserted => (ctrl & !resetMask) | overrideMask
  }

  /** Setting the reset mode and reading it back gives the mode set, from any register value. */
  lemma PcieResetRoundTrip(ctrl: bv8, reset: TofinoPcieReset, resetMask: bv8, overrideMask: bv8)
    requires DisjointMasks(resetMask, overrideMask)
    ensures PcieReset(CtrlNext(ctrl, reset, resetMask, overrideMask), resetMask, overrideMask) == reset
  {
  }

  /** `set_pcie_reset` changes only the RESET and OVERRIDE_HOST_RESET bits. */
  lemma CtrlNextKeepsOtherBits(ctrl: bv8, reset: TofinoPcieReset, resetMask: bv8, overrideMask: bv8)
    ensures CtrlNext(ctrl, reset, resetMask, overrideMask) & !(resetMask | overrideMask) == ctrl & !(resetMask | overrideMask)
  {
  }

  /**
   * `spi_command`: the command byte of a SPI request, bit 7 set, the read
   * count in bits 4-6 and the write count in bits 0-3. The source asserts
   * the two bounds.
   */
  function SpiCommand(nWrite: nat, nRead: nat): (c: bv32)
    requires nWrite <= 8 && nRead <= 4
    ensures c < 0x100
    ensures c & 0x80 != 0
    ensures (c >> 4) & 0x7 == nRead as bv32
    ensures c & 0xf == nWrite as bv32
  {
    0x80 | ((nRead as bv32 & 0x7) << 4) | (nWrite as bv32 & 0xf)
  }

  /** The eight supply voltages Tofino can request, with their VID codes. */
  datatype Tofino2Vid = V0P922 | V0P893 | V0P867 | V0P847 | V0P831 | V0P815 | V0P790 | V0P759
  {
    function Code(): bv8
    {
      match this
      case V0P922 => 0xf
      case V0P893 => 0xe
      case V0P867 => 0xd
      case V0P847 => 0xc
      case V0P831 => 0xb
      case V0P815 => 0xa
      case V0P790 => 0x9
      case V0P759 => 0x8
    }
  }

  /** `Tofino2Vid::from_u8`: defined exactly on the codes `0b1000 ..= 0b1111`. */
  function VidFromCode(c: bv8): (v: Option<Tofino2Vid>)
    ensures v.Some? <==> 8 <= c <= 15
    ensures v.Some? ==> v.value.Code() == c
  {
    if c == 0xf then Some(V0P922)
    else if c == 0xe then Some(V0P893)
    else if c == 0xd then Some(V0P867)
    else if c == 0xc then Some(V0P847)
    else if c == 0xb then Some(V0P831)
    else if c == 0xa then Some(V0P815)
    else if c == 0x9 then Some(V0P790)
    else if c == 0x8 then Some(V0P759)
    else None
  }

  /** Every VID survives encoding and decoding. */
  lemma VidCodeRoundTrip(v: Tofino2Vid)
    ensures VidFromCode(v.Code()) == Some(v)
  {
  }

  /**
   * `vid` on the register value `v`: no VID while VID_VALID is clear, the
   * decoded VID otherwise, and InvalidValue for a code outside the table.
   */
  function Vid(v: bv8, validMask: bv8, vidMask: bv8): (r: Result<Option<Tofino2Vid>, FpgaError>)
    ensures v & validMask == 0 ==> r == Ok(None)
    ensures v & validMask != 0 && 8 <= v & vidMask <= 15 ==> r.Ok? && r.value.Some? && r.value.value.Code() == v & vidMask
    ensures v & validMask != 0 && !(8 <= v & vidMask <= 15) ==> r == Err(InvalidValue)
  {
    if v & validMask != 0 then
      match VidFromCode(v & vidMask)
      case None => Err(InvalidValue)
      case Some(vid) => Ok(Some(vid))
    else Ok(None)
  }

  /** The segments of Tofino's direct BAR address space. */
  datatype DirectBarSegment = Bar0 | Msi | Cfg
  {
    /** The segment's base address: its index in the top four bits. */
    function Base(): bv32
    {
      match this
      case Bar0 => 0
      case Msi => 1 << 28
      case Cfg => 2 << 28
    }

    function Index(): bv32
    {
      match this
      case Bar0 => 0
      case Msi => 1
      case Cfg => 2
    }
  }

  /**
   * The address `read_direct`/`write_direct` send: segment base or-ed with an
   * offset the source asserts is below `1 << 28`. The two parts never
   * overlap, so both can be read back from the address.
   */
  function DirectAddress(segment: DirectBarSegment, offset: bv32): (a: bv32)
    requires offset < 1 << 28
    ensures a & 0x0fff_ffff == offset
    ensures a >> 28 == segment.Index()
  {
    segment.Base() | offset
  }

  /** Distinct segments or offsets give distinct addresses. */
  lemma DirectAddressInjective(s1: DirectBarSegment, o1: bv32, s2: DirectBarSegment, o2: bv32)
    requires o1 < 1 << 28 && o2 < 1 << 28
    requires DirectAddress(s1, o1) == DirectAddress(s2, o2)
    ensures s1 == s2 && o1 == o2
  {
    assert s1.Index() == s2.Index();
  }

  /** `u32::from_le_bytes`. */
  function LeU32(b0: bv8, b1: bv8, b2: bv8, b3: bv8): bv32
  {
    (b0 as bv32) | ((b1 as bv32) << 8) | ((b2 as bv32) << 16) | ((b3 as bv32) << 24)
  }

  /** Byte `k` of a little-endian word. */
  function ByteOf(w: bv32, k: nat): bv8
    requires k < 4
  {
    ((w >> (8 * k) as bv5) & 0xff) as bv8
  }

  /** Each byte of a little-endian word sits at its position. */
  lemma LeU32Bytes(b0: bv8, b1: bv8, b2: bv8, b3: bv8)
    ensures var w := LeU32(b0, b1, b2, b3);
            ByteOf(w, 0) == b0 && ByteOf(w, 1) == b1 && ByteOf(w, 2) == b2 && ByteOf(w, 3) == b3
  {
  }

  /** SPI EEPROM instruction codes. */
  const EEPROM_WRITE_ENABLE: bv8 := 0x6
  const EEPROM_READ: bv8 := 0x3
  const EEPROM_WRITE: bv8 := 0x2

  /** `offset as u8` and `(offset >> 8) as u8` on a 32-bit `usize` offset. */
  function LowByte(offset: bv32): bv8 { (offset & 0xff) as bv8 }
  function HighByte(offset: bv32): bv8 { ((offset >> 8) & 0xff) as bv8 }

  /**
   * The first word of an EEPROM read or write request: instruction, then
   * the offset's high and low bytes (truncated to 16 bits), then `last`.
   */
  function EepromCommandWord(instruction: bv8, offset: bv32, last: bv8): (w: bv32)
  {
    LeU32(instruction, HighByte(offset), LowByte(offset), last)
  }

  /** The two words `write_spi_eeprom` stores for four data bytes at `offset`. */
  function EepromWriteWords(offset: bv32, data: seq<bv8>): (ws: (bv32, bv32))
    requires |data| == 4
  {
    (EepromCommandWord(EEPROM_WRITE, offset, data[0]), LeU32(data[1], data[2], data[3], 0))
  }

  /**
   * A command word carries the instruction, then the offset's high and low
   * bytes, then `last`; for a 16-bit offset those two bytes give the offset
   * back.
   */
  lemma EepromCommandWordDecodes(instruction: bv8, offset: bv32, last: bv8)
    requires offset < 0x1_0000
    ensures var w := EepromCommandWord(instruction, offset, last);
            ByteOf(w, 0) == instruction && ByteOf(w, 3) == last &&
            ((ByteOf(w, 1) as bv32) << 8) | (ByteOf(w, 2) as bv32) == offset
  {
    LeU32Bytes(instruction, HighByte(offset), LowByte(offset), last);
  }

  /** The two write words carry the four data bytes in order. */
  lemma EepromWriteWordsCarryData(offset: bv32, data: seq<bv8>)
    requires |data| == 4
    ensures var ws := EepromWriteWords(offset, data);
            [ByteOf(ws.0, 3), ByteOf(ws.1, 0), ByteOf(ws.1, 1), ByteOf(ws.1, 2)] == data
  {
    LeU32Bytes(EEPROM_WRITE, HighByte(offset), LowByte(offset), data[0]);
    LeU32Bytes(data[1], data[2], data[3], 0);
  }

  /** Four bytes, the unit of EEPROM transfers. */
  type Bytes4 = s: seq<bv8> | |s| == 4 witness [0, 0, 0, 0]

  /** How many four-byte chunks `chunks(4)` splits `n` bytes into. */
  function NumChunks(n: nat): nat { (n + 3) / 4 }

  /** The EEPROM address of chunk `i`. */
  function ChunkAddress(offset: nat, i: nat): nat { offset + 4 * i }

  /** Chunk `i` of `data`: four bytes, or fewer for the last one. */
  function Chunk(data: seq<bv8>, i: nat): (c: seq<bv8>)
    requires i < NumChunks(|data|)
    ensures 0 < |c| <= 4 && 4 * i + |c| <= |data|
    ensures i + 1 < NumChunks(|data|) ==> |c| == 4
    ensures forall k :: 0 <= k < |c| ==> c[k] == data[4 * i + k]
  {
    if 4 * i + 4 <= |data| then data[4 * i .. 4 * i + 4] else data[4 * i ..]
  }

  /**
   * The first chunk whose read fails, or the number of chunks when none
   * does: the reads before it succeed.
   */
  function ReadStop(offset: nat, k: nat, eeprom: nat -> Result<Bytes4, FpgaError>): (s: nat)
    ensures s <= k
    ensures forall i :: 0 <= i < s ==> eeprom(ChunkAddress(offset, i)).Ok?
    ensures s < k ==> eeprom(ChunkAddress(offset, s)).Err?
  {
    if k == 0 then 0
    else
      var s := ReadStop(offset, k - 1, eeprom);
      if s < k - 1 || eeprom(ChunkAddress(offset, k - 1)).Err? then s else k
  }

  /** The buffer after the chunks before `stop` were read: byte `j` comes from the read of chunk `j / 4`. */
  function ReadInto(prev: seq<bv8>, offset: nat, eeprom: nat -> Result<Bytes4, FpgaError>, stop: nat): (d: seq<bv8>)
    requires forall i :: 0 <= i < stop ==> eeprom(ChunkAddress(offset, i)).Ok?
    ensures |d| == |prev|
  {
    seq(|prev|, j requires 0 <= j < |prev| =>
      if j / 4 < stop then eeprom(ChunkAddress(offset, j / 4)).value[j % 4] else prev[j])
  }

  /** Copies the first `data.Length - start` (at most four) bytes of `bytes` into `data` at `start`. */
  method CopyChunkIn(data: array<bv8>, start: nat, bytes: Bytes4)
    requires start < data.Length
    modifies data
    ensures forall j :: 0 <= j < data.Length ==>
              data[j] == if start <= j < start + 4 then bytes[j - start] else old(data[j])
  {
    var k := 0;
    while k < 4 && start + k < data.Length
      invariant 0 <= k <= 4
      invariant forall j :: 0 <= j < data.Length ==>
                  data[j] == if start <= j < start + k then bytes[j - start] else old(data[j])
    {
      data[start + k] := bytes[k];
      k := k + 1;
    }
  }

  /**
   * `read_spi_eeprom_bytes`: a misaligned offset is refused before any
   * access; otherwise chunk `i` is read from `offset + 4 * i` and copied
   * into `data`, stopping at the first failing read, whose error is
   * returned. `eeprom(a)` is what reading four bytes at `a` yields.
   */
  method ReadEepromBytes(offset: nat, data: array<bv8>, eeprom: nat -> Result<Bytes4, FpgaError>)
    returns (r: Result<Unit, FpgaError>)
    modifies data
    ensures offset % 4 != 0 ==> r == Err(InvalidValue) && data[..] == old(data[..])
    ensures offset % 4 == 0 ==>
              var stop := ReadStop(offset, NumChunks(data.Length), eeprom);
              (r.Ok? <==> stop == NumChunks(data.Length)) &&
              (r.Err? ==> r.error == eeprom(ChunkAddress(offset, stop)).error) &&
              data[..] == ReadInto(old(data[..]), offset, eeprom, stop)
  {
    if offset % 4 != 0 {
      return Err(InvalidValue);
    }
    ghost var stop := ReadStop(offset, NumChunks(data.Length), eeprom);
    var i := 0;
    while i < NumChunks(data.Length)
      invariant 0 <= i <= NumChunks(data.Length) && i <= stop
      invariant forall k :: 0 <= k < i ==> eeprom(ChunkAddress(offset, k)).Ok?
      invariant data[..] == ReadInto(old(data[..]), offset, eeprom, i)
    {
      match eeprom(ChunkAddress(offset, i)) {
        case Err(e) =>
          return Err(e);
        case Ok(bytes) =>
          CopyChunkIn(data, 4 * i, bytes);
      }
      i := i + 1;
    }
    r := Ok(Unit);
  }

  /** One four-byte EEPROM write: the address and the buffer written. */
  datatype EepromWrite = EepromWrite(address: nat, bytes: Bytes4)

  /**
   * The buffer `write_spi_eeprom_bytes` writes for chunk `i`: the single
   * buffer is reused, so the chunk's bytes come first and, for a short last
   * chunk, the rest is left over from the chunk before.
   */
  function WriteBuffer(data: seq<bv8>, i: nat): (b: Bytes4)
    requires i < NumChunks(|data|)
    ensures b[..|Chunk(data, i)|] == Chunk(data, i)
    decreases i, 1
  {
    var c := Chunk(data, i);
    c + BufferBefore(data, i)[|c|..]
  }

  /** The reused buffer before chunk `i` is copied in: zero before the first chunk. */
  function BufferBefore(data: seq<bv8>, i: nat): Bytes4
    requires i < NumChunks(|data|)
    decreases i, 0
  {
    if i == 0 then [0, 0, 0, 0] else WriteBuffer(data, i - 1)
  }

  /**
   * A short chunk leaves the tail of the reused buffer as the previous chunk
   * wrote it (zero for the first chunk).
   */
  lemma WriteBufferKeepsTail(data: seq<bv8>, i: nat)
    requires i < NumChunks(|data|)
    ensures var n := |Chunk(data, i)|;
            WriteBuffer(data, i)[n..] == BufferBefore(data, i)[n..] &&
            (i == 0 ==> WriteBuffer(data, i)[n..] == [0, 0, 0, 0][n..])
  {
  }

  /** Every data byte is written at its own EEPROM address: byte `j` goes to `offset + j`. */
  lemma WriteBufferCoversData(data: seq<bv8>, offset: nat, j: nat)
    requires j < |data|
    ensures ChunkAddress(offset, j / 4) + j % 4 == offset + j
    ensures WriteBuffer(data, j / 4)[j % 4] == data[j]
  {
    var c := Chunk(data, j / 4);
    assert j % 4 < |c|;
    assert WriteBuffer(data, j / 4)[..|c|][j % 4] == c[j % 4];
  }

  /** The write issued for chunk `i`. */
  function WriteOf(offset: nat, data: seq<bv8>, i: nat): EepromWrite
    requires i < NumChunks(|data|)
  {
    EepromWrite(ChunkAddress(offset, i), WriteBuffer(data, i))
  }

  /** The writes of the first `k` chunks, in order. */
  function Writes(offset: nat, data: seq<bv8>, k: nat): (ws: seq<EepromWrite>)
    requires k <= NumChunks(|data|)
    ensures |ws| == k
    ensures forall i :: 0 <= i < k ==> ws[i] == WriteOf(offset, data, i)
  {
    seq(k, i requires 0 <= i < k => WriteOf(offset, data, i))
  }

  /** The first chunk whose write fails, or the number of chunks when none does. */
  function WriteStop(offset: nat, data: seq<bv8>, k: nat, device: EepromWrite -> Result<Unit, FpgaError>): (s: nat)
    requires k <= NumChunks(|data|)
    ensures s <= k
    ensures forall i :: 0 <= i < s ==> device(WriteOf(offset, data, i)).Ok?
    ensures s < k ==> device(WriteOf(offset, data, s)).Err?
  {
    if k == 0 then 0
    else
      var s := WriteStop(offset, data, k - 1, device);
      if s < k - 1 || device(WriteOf(offset, data, k - 1)).Err? then s else k
  }

  /** Issuing chunk `i`'s write extends the trace of the chunks before it; the buffer then holds what chunk `i + 1` starts from. */
  lemma WriteStep(offset: nat, data: seq<bv8>, i: nat, trace: seq<EepromWrite>, w: EepromWrite)
    requires i < NumChunks(|data|) && trace == Writes(offset, data, i)
    requires w.address == ChunkAddress(offset, i)
    requires w.bytes == Chunk(data, i) + BufferBefore(data, i)[|Chunk(data, i)|..]
    ensures w == WriteOf(offset, data, i)
    ensures trace + [w] == Writes(offset, data, i + 1)
    ensures i + 1 < NumChunks(|data|) ==> w.bytes == BufferBefore(data, i + 1)
  {
    assert w.bytes == WriteBuffer(data, i);
  }

  /** `bytes[0..chunk.len()].copy_from_slice(chunk)`. */
  method CopyChunkOver(bytes: array<bv8>, chunk: seq<bv8>)
    requires |chunk| <= bytes.Length
    modifies bytes
    ensures bytes[..] == chunk + old(bytes[..])[|chunk|..]
  {
    var k := 0;
    while k < |chunk|
      invariant 0 <= k <= |chunk|
      invariant forall j :: 0 <= j < bytes.Length ==> bytes[j] == if j < k then chunk[j] else old(bytes[j])
    {
      bytes[k] := chunk[k];
      k := k + 1;
    }
    assert forall j :: 0 <= j < bytes.Length ==> bytes[..][j] == (chunk + old(bytes[..])[|chunk|..])[j];
  }

  /**
   * `write_spi_eeprom_bytes`: a misaligned offset is refused before any
   * access; otherwise chunk `i` is copied over the reused four-byte buffer
   * and written at `offset + 4 * i`, stopping after the first failing write.
   * `device(w)` is the result of the write `w`; `trace` lists the writes
   * issued.
   */
  method WriteEepromBytes(offset: nat, data: seq<bv8>, device: EepromWrite -> Result<Unit, FpgaError>)
    returns (r: Result<Unit, FpgaError>, trace: seq<EepromWrite>)
    ensures offset % 4 != 0 ==> r == Err(InvalidValue) && trace == []
    ensures offset % 4 == 0 ==>
              var n := NumChunks(|data|);
              var stop := WriteStop(offset, data, n, device);
              (r.Ok? <==> stop == n) &&
              trace == Writes(offset, data, if stop < n then stop + 1 else n) &&
              (r.Err? ==> r.error == device(WriteOf(offset, data, stop)).error)
  {
    trace := [];
    if offset % 4 != 0 {
      return Err(InvalidValue), trace;
    }
    var n := NumChunks(|data|);
    ghost var stop := WriteStop(offset, data, n, device);
    var bytes := new bv8[4](_ => 0);
    assert bytes[..] == [0, 0, 0, 0];
    var i := 0;
    while i < n
      invariant 0 <= i <= n && i <= stop
      invariant trace == Writes(offset, data, i)
      invariant bytes.Length == 4
      invariant i < n ==> bytes[..] == BufferBefore(data, i)
    {
      CopyChunkOver(bytes, Chunk(data, i));
      var w := EepromWrite(ChunkAddress(offset, i), bytes[..]);
      WriteStep(offset, data, i, trace, w);
      trace := trace + [w];
      var res := device(w);
      if res.Err? {
        return Err(res.error), trace;
      }
      i := i + 1;
    }
    r := Ok(Unit);
  }
}
