/**
 * The kernel ABI shared between the kernel and applications
 * (abi/src/lib.rs): task priorities and their order, the application
 * header the kernel reads from Flash, the bit layouts of task, region
 * and lease flag sets, and the response codes of dead peers and defecting
 * lenders.
 */
module Abi {
  type U8 = x: int | 0 <= x < 0x100
  type U32 = x: int | 0 <= x < 0x1_0000_0000

  /** The magic number at the start of an application header. */
  const CURRENT_APP_MAGIC: U32 := 0x1DE_fa7a1

  /** The number of region slots in a task descriptor. */
  const REGIONS_PER_TASK: nat := 8

  /** A task priority: numerically lower is more important, 0 the most important of all. */
  datatype Priority = Priority(level: U8)
  {
    /** `is_more_important_than`: strictly more important, i.e. numerically lower. */
    predicate IsMoreImportantThan(other: Priority)
    {
      level < other.level
    }
  }

  /** No priority is more important than itself. */
  lemma PriorityIrreflexive(p: Priority)
    ensures !p.IsMoreImportantThan(p)
  {
  }

  /** Of two priorities, at most one is more important than the other. */
  lemma PriorityAsymmetric(p: Priority, q: Priority)
    ensures !(p.IsMoreImportantThan(q) && q.IsMoreImportantThan(p))
  {
  }

  lemma PriorityTransitive(p: Priority, q: Priority, r: Priority)
    requires p.IsMoreImportantThan(q) && q.IsMoreImportantThan(r)
    ensures p.IsMoreImportantThan(r)
  {
  }

  /** Two different priorities are always ordered one way or the other. */
  lemma PriorityTotal(p: Priority, q: Priority)
    ensures p != q <==> p.IsMoreImportantThan(q) || q.IsMoreImportantThan(p)
  {
  }

  /** Priority 0 is more important than every other priority, and nothing is more important than it. */
  lemma PriorityZeroMostImportant(p: Priority)
    ensures p != Priority(0) <==> Priority(0).IsMoreImportantThan(p)
    ensures !p.IsMoreImportantThan(Priority(0))
  {
  }

  /** `TaskFlags`: bit 0 starts a task at boot, every other bit is reserved. */
  const START_AT_BOOT: bv32 := 1
  const TASK_FLAGS_RESERVED: bv32 := !1

  /** `RegionAttributes`: four permission bits, every higher bit reserved. */
  const REGION_READ: bv32 := 1 << 0
  const REGION_WRITE: bv32 := 1 << 1
  const REGION_EXECUTE: bv32 := 1 << 2
  const REGION_DEVICE: bv32 := 1 << 3
  const REGION_RESERVED: bv32 := !((1 << 4) - 1)

  /** `LeaseAttributes`: the borrower may read, or write, the leased memory. */
  const LEASE_READ: bv32 := 1 << 0
  const LEASE_WRITE: bv32 := 1 << 1

  /** The kernel's response code when the peer died or was restarted. */
  const DEAD: bv32 := !0

  /** The kernel's response code when a lender has defected. */
  const DEFECT: bv32 := 1

  /** The reserved task flags are exactly the bits START_AT_BOOT leaves free. */
  lemma TaskFlagsLayout()
    ensures START_AT_BOOT & TASK_FLAGS_RESERVED == 0
    ensures START_AT_BOOT | TASK_FLAGS_RESERVED == !0
  {
  }

  /** Every task flag word splits into its defined part and its reserved part. */
  lemma TaskFlagsSplit(flags: bv32)
    ensures flags == (flags & START_AT_BOOT) | (flags & TASK_FLAGS_RESERVED)
    ensures (flags & START_AT_BOOT) & (flags & TASK_FLAGS_RESERVED) == 0
  {
    TaskFlagsLayout();
  }

  /** The permission bits of a region are four distinct single bits. */
  lemma RegionPermissionsDistinct()
    ensures REGION_READ & REGION_WRITE == 0 && REGION_READ & REGION_EXECUTE == 0 && REGION_READ & REGION_DEVICE == 0
    ensures REGION_WRITE & REGION_EXECUTE == 0 && REGION_WRITE & REGION_DEVICE == 0
    ensures REGION_EXECUTE & REGION_DEVICE == 0
  {
  }

  /** The reserved region bits are exactly the bits the four permissions leave free. */
  lemma RegionAttributesLayout()
    ensures (REGION_READ | REGION_WRITE | REGION_EXECUTE | REGION_DEVICE) & REGION_RESERVED == 0
    ensures REGION_READ | REGION_WRITE | REGION_EXECUTE | REGION_DEVICE | REGION_RESERVED == !0
  {
  }

  /** Every region attribute word splits into its permission part and its reserved part. */
  lemma RegionAttributesSplit(attributes: bv32)
    ensures attributes == (attributes & 0xf) | (attributes & REGION_RESERVED)
    ensures (attributes & 0xf) & REGION_RESERVED == 0
  {
  }

  /** Lease read and write are distinct bits. */
  lemma LeaseAttributesDistinct()
    ensures LEASE_READ & LEASE_WRITE == 0 && LEASE_READ != 0 && LEASE_WRITE != 0
  {
  }

  /** A dead peer is all ones, which no defection code can be mistaken for. */
  lemma ResponseCodesDistinct()
    ensures DEAD == 0xFFFF_FFFF && DEFECT == 1 && DEAD != DEFECT
  {
  }

  /** The width of one header word, in bytes. */
  const WORD_SIZE: nat := 4

  /** The size of the application header, in bytes. */
  const APP_HEADER_SIZE: nat := 32

  /** The application header: four words, then reserved space out to the header size. */
  datatype App = App(magic: U32, taskCount: U32, regionCount: U32, irqCount: U32, zeroedExpansionSpace: seq<U8>)
  {
    predicate WellFormed()
    {
      |zeroedExpansionSpace| == ExpansionSpace()
    }
  }

  /** The reserved space the header's four words leave. */
  function ExpansionSpace(): (n: nat)
    ensures n == 16 && 4 * WORD_SIZE + n == APP_HEADER_SIZE
  {
    APP_HEADER_SIZE - 4 * WORD_SIZE
  }

  /** A word as it lies in memory, least significant byte first. */
  function WordBytes(x: U32): (b: seq<U8>)
    ensures |b| == WORD_SIZE
  {
    [x % 0x100, x / 0x100 % 0x100, x / 0x1_0000 % 0x100, x / 0x100_0000]
  }

  /** The word four bytes of memory hold, least significant byte first. */
  function WordOf(b: seq<U8>): U32
    requires |b| == WORD_SIZE
  {
    b[0] as int + 0x100 * b[1] as int + 0x1_0000 * b[2] as int + 0x100_0000 * b[3] as int
  }

  lemma WordRoundTrip(x: U32)
    ensures WordOf(WordBytes(x)) == x
  {
    var q1 := x / 0x100;
    var q2 := x / 0x1_0000;
    assert x == x % 0x100 + 0x100 * q1;
    assert q1 == q1 % 0x100 + 0x100 * q2;
    assert q2 / 0x100 == x / 0x100_0000;
    assert q2 == q2 % 0x100 + 0x100 * (x / 0x100_0000);
  }

  lemma BytesRoundTrip(b: seq<U8>)
    requires |b| == WORD_SIZE
    ensures WordBytes(WordOf(b)) == b
  {
    var x := WordOf(b);
    var hi := b[1] as int + 0x100 * b[2] as int + 0x1_0000 * b[3] as int;
    assert x == b[0] + 0x100 * hi;
    assert x % 0x100 == b[0] && x / 0x100 == hi;
    var top := b[2] as int + 0x100 * b[3] as int;
    assert hi / 0x100 == top;
    assert x / 0x1_0000 == top;
    assert x / 0x100_0000 == b[3];
  }

  /** The header as it lies in Flash: the four words in order, then the reserved bytes. */
  function AppBytes(app: App): (b: seq<U8>)
    requires app.WellFormed()
    ensures |b| == APP_HEADER_SIZE
  {
    WordBytes(app.magic) + WordBytes(app.taskCount) + WordBytes(app.regionCount) + WordBytes(app.irqCount) +
    app.zeroedExpansionSpace
  }

  /** The header the kernel reads from a header's worth of Flash bytes. */
  function AppOf(b: seq<U8>): (app: App)
    requires |b| == APP_HEADER_SIZE
    ensures app.WellFormed()
  {
    App(WordOf(b[0..4]), WordOf(b[4..8]), WordOf(b[8..12]), WordOf(b[12..16]), b[16..])
  }

  /** Reading back a written header gives the header. */
  lemma AppRoundTrip(app: App)
    requires app.WellFormed()
    ensures AppOf(AppBytes(app)) == app
  {
    var b := AppBytes(app);
    assert b[0..4] == WordBytes(app.magic);
    assert b[4..8] == WordBytes(app.taskCount);
    assert b[8..12] == WordBytes(app.regionCount);
    assert b[12..16] == WordBytes(app.irqCount);
    assert b[16..] == app.zeroedExpansionSpace;
    WordRoundTrip(app.magic);
    WordRoundTrip(app.taskCount);
    WordRoundTrip(app.regionCount);
    WordRoundTrip(app.irqCount);
  }

  /** Every header's worth of bytes is the image of the header read from it. */
  lemma AppBytesRoundTrip(b: seq<U8>)
    requires |b| == APP_HEADER_SIZE
    ensures AppBytes(AppOf(b)) == b
  {
    BytesRoundTrip(b[0..4]);
    BytesRoundTrip(b[4..8]);
    BytesRoundTrip(b[8..12]);
    BytesRoundTrip(b[12..16]);
    assert b == b[0..4] + b[4..8] + b[8..12] + b[12..16] + b[16..];
  }
}
