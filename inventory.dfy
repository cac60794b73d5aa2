/**
 * The inventory of the control-plane agent
 * (task/control-plane-agent/src/inventory.rs): the devices the service
 * processor reports to the management gateway. The first devices are the
 * agent's own fixed list; the rest are the devices the `validate` task
 * knows, each named by a generic component id of a fixed prefix followed by
 * its index in decimal, with a presence derived from what `validate`
 * answers. Both device lists, the prefix and `validate`'s answers are
 * parameters.
 */
module Inventory {
  import opened Wrappers

  /** The width of a component id, in bytes. */
  const MAX_ID_LENGTH: nat := 16

  /** A byte of text. */
  type Byte = b: int | 0 <= b < 0x100

  /** What `validate` reports for an I2C device that it could check. */
  datatype ValidateOk = Present | Validated | Removed

  /** What `validate` reports when it could not confirm a device. */
  datatype ValidateError =
    | InvalidDevice
    | BadValidation
    | NotPresent
    | DeviceError
    | Unavailable
    | DeviceTimeout
    | DeviceOff

  /** The presence of a device as reported to the management gateway. */
  datatype DevicePresence =
    | IsPresent
    | IsNotPresent
    | Failed
    | IsUnavailable
    | Timeout
    | Error

  datatype Capability = Updateable | HasMeasurementChannels | HasSerialConsole

  /** A device as reported: its component id, names, capabilities and presence. */
  datatype DeviceDescription = DeviceDescription(
    component: seq<Byte>,
    device: string,
    description: string,
    capabilities: set<Capability>,
    presence: DevicePresence)

  /** A device known to `validate`. */
  datatype ValidateDevice = ValidateDevice(device: string, description: string, numMeasurementChannels: nat)

  /**
   * The presence table: what the gateway is told for each answer of
   * `validate`.
   */
  function PresenceOf(r: Result<ValidateOk, ValidateError>): (p: DevicePresence)
    ensures p == IsPresent <==> r == Ok(Present) || r == Ok(Validated)
    ensures p == IsNotPresent <==> r == Ok(Removed) || r == Err(NotPresent)
    ensures p == Failed <==> r == Err(BadValidation)
    ensures p == IsUnavailable <==> r == Err(Unavailable) || r == Err(DeviceOff)
    ensures p == Timeout <==> r == Err(DeviceTimeout)
    ensures p == Error <==> r == Err(InvalidDevice) || r == Err(DeviceError)
  {
    match r
    case Ok(Present) => IsPresent
    case Ok(Validated) => IsPresent
    case Ok(Removed) => IsNotPresent
    case Err(NotPresent) => IsNotPresent
    case Err(BadValidation) => Failed
    case Err(Unavailable) => IsUnavailable
    case Err(DeviceOff) => IsUnavailable
    case Err(DeviceTimeout) => Timeout
    case Err(InvalidDevice) => Error
    case Err(DeviceError) => Error
  }

  /** Every presence the gateway knows can be reported for some answer of `validate`. */
  lemma EveryPresenceReported(p: DevicePresence)
    ensures exists r :: PresenceOf(r) == p
  {
    var r: Result<ValidateOk, ValidateError> :=
      match p
      case IsPresent => Ok(Present)
      case IsNotPresent => Ok(Removed)
      case Failed => Err(BadValidation)
      case IsUnavailable => Err(Unavailable)
      case Timeout => Err(DeviceTimeout)
      case Error => Err(DeviceError);
    assert PresenceOf(r) == p;
  }

  /** A validated device's capabilities: measurement channels, when it has any. */
  function CapabilitiesOf(device: ValidateDevice): (c: set<Capability>)
    ensures HasMeasurementChannels in c <==> device.numMeasurementChannels > 0
    ensures Updateable !in c && HasSerialConsole !in c
  {
    if device.numMeasurementChannels > 0 then {HasMeasurementChannels} else {}
  }

  type Pos = n: int | n >= 1 witness 1

  /** 10 to the `n`. */
  function Pow10(n: nat): Pos
  {
    if n == 0 then 1 else 10 * Pow10(n - 1)
  }

  /** `const_exp10`: ten multiplied into 1, `n` times. */
  method ConstExp10(n: nat) returns (x: nat)
    ensures x == Pow10(n)
  {
    x := 1;
    var k: nat := n;
    while k > 0
      invariant k <= n
      invariant x * Pow10(k) == Pow10(n)
    {
      x := x * 10;
      k := k - 1;
    }
  }

  /** The ASCII code of the digit zero. */
  const ZERO_DIGIT: Byte := 0x30

  /** A string of ASCII decimal digits. */
  predicate IsDigits(s: seq<Byte>)
  {
    forall i :: 0 <= i < |s| ==> ZERO_DIGIT <= s[i] < ZERO_DIGIT + 10
  }

  /** The decimal representation of `n`, most significant digit first, with no leading zeros. */
  function Digits(n: nat): (s: seq<Byte>)
    ensures 1 <= |s| && IsDigits(s)
  {
    if n < 10 then [ZERO_DIGIT + n] else Digits(n / 10) + [ZERO_DIGIT + n % 10]
  }

  /** The number a string of decimal digits spells. */
  function DecimalValue(s: seq<Byte>): nat
    requires IsDigits(s)
  {
    if s == [] then 0 else 10 * DecimalValue(s[..|s| - 1]) + (s[|s| - 1] - ZERO_DIGIT)
  }

  /** Reading the digits back gives the number. */
  lemma {:induction false} DigitsRoundTrip(n: nat)
    ensures DecimalValue(Digits(n)) == n
  {
    var s := Digits(n);
    if n >= 10 {
      assert s[..|s| - 1] == Digits(n / 10);
      DigitsRoundTrip(n / 10);
    }
  }

  /**
   * At least one digit is always written, and `k` digit positions hold
   * exactly the numbers below 10^k.
   */
  lemma {:induction false} DigitsFit(n: nat, k: nat)
    requires k >= 1
    ensures |Digits(n)| <= k <==> n < Pow10(k)
  {
    if n >= 10 {
      if k == 1 {
        assert |Digits(n)| >= 2 by {
          assert Digits(n) == Digits(n / 10) + [ZERO_DIGIT + n % 10];
        }
      } else {
        DigitsFit(n / 10, k - 1);
      }
    }
  }

  /** Different numbers have different digits. */
  lemma DigitsInjective(i: nat, j: nat)
    requires i != j
    ensures Digits(i) != Digits(j)
  {
    DigitsRoundTrip(i);
    DigitsRoundTrip(j);
  }

  /** `n` zero bytes. */
  function Zeros(n: nat): (s: seq<Byte>)
    ensures |s| == n && forall i :: 0 <= i < n ==> s[i] == 0
  {
    seq(n, _ => 0)
  }

  /**
   * The generic component id of validate device `index`: the prefix, then
   * the index in decimal, then zero padding to the id width.
   */
  function ComponentId(prefix: seq<Byte>, index: nat): (id: seq<Byte>)
    requires |prefix| + |Digits(index)| <= MAX_ID_LENGTH
    ensures |id| == MAX_ID_LENGTH
    ensures id[..|prefix|] == prefix
    ensures id[|prefix|..|prefix| + |Digits(index)|] == Digits(index)
    ensures forall i :: |prefix| + |Digits(index)| <= i < MAX_ID_LENGTH ==> id[i] == 0
  {
    var written := prefix + Digits(index);
    written + Zeros(MAX_ID_LENGTH - |written|)
  }

  /** Different validate devices get different component ids. */
  lemma ComponentIdsDistinct(prefix: seq<Byte>, i: nat, j: nat)
    requires |prefix| + |Digits(i)| <= MAX_ID_LENGTH && |prefix| + |Digits(j)| <= MAX_ID_LENGTH
    requires i != j
    ensures ComponentId(prefix, i) != ComponentId(prefix, j)
  {
    var a, b := ComponentId(prefix, i), ComponentId(prefix, j);
    var di, dj := Digits(i), Digits(j);
    if |di| < |dj| {
      assert b[|prefix| + |di|] == b[|prefix|..|prefix| + |dj|][|di|] == dj[|di|];
      assert a[|prefix| + |di|] != b[|prefix| + |di|];
    } else if |dj| < |di| {
      assert a[|prefix| + |dj|] == a[|prefix|..|prefix| + |di|][|dj|] == di[|dj|];
      assert a[|prefix| + |dj|] != b[|prefix| + |dj|];
    } else {
      DigitsInjective(i, j);
      assert a[|prefix|..|prefix| + |di|] != b[|prefix|..|prefix| + |dj|];
    }
  }

  /**
   * The number of validate devices is bounded so that every index fits in
   * the digits the prefix leaves free.
   */
  predicate DeviceCountFits(prefix: seq<Byte>, validate: seq<ValidateDevice>)
  {
    |prefix| < MAX_ID_LENGTH && |validate| <= Pow10(MAX_ID_LENGTH - |prefix|)
  }

  /**
   * The bound the source asserts at compile time: at most 10^d validate
   * devices, where d is the number of id bytes the prefix leaves free.
   */
  predicate AssertedCountBound(prefix: seq<Byte>, validate: seq<ValidateDevice>)
  {
    |prefix| <= MAX_ID_LENGTH && |validate| <= Pow10(MAX_ID_LENGTH - |prefix|)
  }

  /**
   * The asserted bound alone does not make every id fit: a prefix that fills
   * the whole id leaves no digit, yet admits one device, whose index 0
   * still needs a digit, so the `write!` fails and its `unwrap` panics.
   */
  lemma AssertedBoundAdmitsUnfittableId(prefix: seq<Byte>, validate: seq<ValidateDevice>)
    requires |prefix| == MAX_ID_LENGTH && |validate| == 1
    ensures AssertedCountBound(prefix, validate)
    ensures |prefix| + |Digits(0)| > MAX_ID_LENGTH
  {
    assert Digits(0) == [ZERO_DIGIT];
  }

  /** The corrected bound is the asserted one with at least one free digit. */
  lemma DeviceCountFitsIsAssertedBound(prefix: seq<Byte>, validate: seq<ValidateDevice>)
    ensures DeviceCountFits(prefix, validate) <==> AssertedCountBound(prefix, validate) && |prefix| < MAX_ID_LENGTH
  {
  }

  /** Under that bound, the id of every validate device fits the id width. */
  lemma IndexFits(prefix: seq<Byte>, validate: seq<ValidateDevice>, index: nat)
    requires DeviceCountFits(prefix, validate) && index < |validate|
    ensures |prefix| + |Digits(index)| <= MAX_ID_LENGTH
  {
    DigitsFit(index, MAX_ID_LENGTH - |prefix|);
  }

  /** `num_devices`: the agent's own devices, then the devices `validate` knows. */
  function NumDevices(ours: seq<DeviceDescription>, validate: seq<ValidateDevice>): (n: nat)
    ensures n >= |ours| && n - |ours| == |validate|
  {
    |ours| + |validate|
  }

  /**
   * `device_description`: an index below the agent's own count is one of its
   * own devices; the others are validate devices, shifted down by that
   * count, described from the device table, the component id and the
   * answer `validateI2c` gives for the shifted index.
   */
  function DeviceDescriptionAt(ours: seq<DeviceDescription>, validate: seq<ValidateDevice>, prefix: seq<Byte>,
                               validateI2c: nat -> Result<ValidateOk, ValidateError>, index: nat): (d: DeviceDescription)
    requires DeviceCountFits(prefix, validate)
    requires index < NumDevices(ours, validate)
    ensures index < |ours| ==> d == ours[index]
    ensures index >= |ours| ==>
              var j := index - |ours|;
              |prefix| + |Digits(j)| <= MAX_ID_LENGTH &&
              d.component == ComponentId(prefix, j) &&
              d.device == validate[j].device && d.description == validate[j].description &&
              (HasMeasurementChannels in d.capabilities <==> validate[j].numMeasurementChannels > 0) &&
              d.presence == PresenceOf(validateI2c(j))
  {
    if index < |ours| then ours[index]
    else
      var j := index - |ours|;
      IndexFits(prefix, validate, j);
      DeviceDescription(ComponentId(prefix, j), validate[j].device, validate[j].description,
                        CapabilitiesOf(validate[j]), PresenceOf(validateI2c(j)))
  }

  /** Two different validate devices are reported under different component ids. */
  lemma ValidateDevicesDistinct(ours: seq<DeviceDescription>, validate: seq<ValidateDevice>, prefix: seq<Byte>,
                                validateI2c: nat -> Result<ValidateOk, ValidateError>, i: nat, j: nat)
    requires DeviceCountFits(prefix, validate)
    requires |ours| <= i < NumDevices(ours, validate) && |ours| <= j < NumDevices(ours, validate) && i != j
    ensures DeviceDescriptionAt(ours, validate, prefix, validateI2c, i).component !=
            DeviceDescriptionAt(ours, validate, prefix, validateI2c, j).component
  {
    IndexFits(prefix, validate, i - |ours|);
    IndexFits(prefix, validate, j - |ours|);
    ComponentIdsDistinct(prefix, i - |ours|, j - |ours|);
  }

  /** `FmtComponentId`: a fixed id buffer and the position of the next byte to write. */
  class FmtComponentId {
    var pos: nat
    const id: array<Byte>

    predicate Valid()
      reads this
    {
      id.Length == MAX_ID_LENGTH && pos <= MAX_ID_LENGTH
    }

    /** `default`: an all-zero buffer, nothing written. */
    constructor ()
      ensures Valid() && pos == 0 && fresh(id)
      ensures id[..] == Zeros(MAX_ID_LENGTH)
    {
      pos := 0;
      id := new Byte[MAX_ID_LENGTH](_ => 0);
    }

    /**
     * `write_str`: `s` is appended at `pos` and `pos` advances past it when
     * it fits in what remains of the buffer; otherwise nothing changes.
     */
    method WriteStr(s: seq<Byte>) returns (r: Result<Unit, Unit>)
      requires Valid()
      modifies this, id
      ensures Valid()
      ensures r.Ok? <==> old(pos) + |s| <= MAX_ID_LENGTH
      ensures r.Ok? ==> pos == old(pos) + |s| && id[..] == old(id[..pos]) + s + old(id[pos + |s|..])
      ensures r.Err? ==> pos == old(pos) && id[..] == old(id[..])
    {
      if |s| > MAX_ID_LENGTH - pos {
        return Err(Unit);
      }
      for i := 0 to |s|
        invariant Valid() && pos == old(pos)
        invariant id[..pos] == old(id[..pos])
        invariant id[pos..pos + i] == s[..i]
        invariant id[pos + |s|..] == old(id[pos + |s|..])
      {
        id[pos + i] := s[i];
      }
      assert id[..] == id[..pos] + id[pos..pos + |s|] + id[pos + |s|..];
      pos := pos + |s|;
      return Ok(Unit);
    }
  }

  /**
   * The `write!` of `device_description`: the prefix and then the decimal
   * index written into a fresh id buffer. Under the device count bound
   * neither write can fail, so the `unwrap` never panics.
   */
  method FormatComponentId(prefix: seq<Byte>, index: nat) returns (id: seq<Byte>)
    requires |prefix| + |Digits(index)| <= MAX_ID_LENGTH
    ensures id == ComponentId(prefix, index)
  {
    var c := new FmtComponentId();
    var r := c.WriteStr(prefix);
    assert r.Ok?;
    r := c.WriteStr(Digits(index));
    assert r.Ok?;
    id := c.id[..];
  }
}
