/** The static side of the UART link between the Raspberry Pi and the screen
    STM32: wire constants, the arm-state enumeration and the closed catalogue of
    message types with their one-byte codes. */
module Registry {

  /** One octet on the wire. */
  type byte = x: int | 0 <= x < 256

  const START_BYTE: byte := 0x8A
  const STOP_BYTE: byte := 0x51
  const HEADER_LENGTH: nat := 2
  const FOOTER_LENGTH: nat := 1
  const OVERHEAD_LENGTH: nat := HEADER_LENGTH + FOOTER_LENGTH
  const MIN_FRAME_LENGTH: nat := OVERHEAD_LENGTH
  const MAX_DATA_LENGTH: nat := 16

  const MAX_TOOL_ID: int := 0x7

  // ---------------------------------------------------------------------------
  // Arm state

  datatype ArmState = ArmIdle | ArmReady | ArmClosed | ArmDisplay

  /** The single payload byte that carries an arm state. */
  function ArmCode(s: ArmState): (b: byte)
    ensures b in {0x01, 0x02, 0x04, 0x08}
  {
    match s
    case ArmIdle => 0x01
    case ArmReady => 0x02
    case ArmClosed => 0x04
    case ArmDisplay => 0x08
  }

  /** `ArmState(value)`: None stands for the ValueError raised on an undefined byte. */
  function ArmFromByte(b: byte): (r: Option<ArmState>)
    ensures r.Some? <==> b in {0x01, 0x02, 0x04, 0x08}
    ensures r.Some? ==> ArmCode(r.value) == b
  {
    if b == 0x01 then Some(ArmIdle)
    else if b == 0x02 then Some(ArmReady)
    else if b == 0x04 then Some(ArmClosed)
    else if b == 0x08 then Some(ArmDisplay)
    else None
  }

  /** Decoding the byte of an arm state gives that state back. */
  lemma ArmStateRoundTrip(s: ArmState)
    ensures ArmFromByte(ArmCode(s)) == Some(s)
  {
    match s
    case ArmIdle =>
    case ArmReady =>
    case ArmClosed =>
    case ArmDisplay =>
  }

  // ---------------------------------------------------------------------------
  // Message types

  datatype Option<+T> = None | Some(value: T)

  /** The Python type attached to each entry (its payload's value domain). */
  datatype ValueKind = IntValue | StrValue | BoolValue | ArmStateValue

  datatype MessageType =
    | ToolId | ToolName | FollowModeEnable | RfidValid     // from the Raspberry Pi
    | BatteryLevel | ArmStatus | RfidValue                 // from the STM32

  /** The tuple each catalogue entry is built from: code, direction, payload length, kind. */
  datatype Descriptor = Descriptor(code: byte, fromStm32: bool, dataLen: nat, kind: ValueKind)

  function Describe(t: MessageType): (d: Descriptor)
    ensures 1 <= d.dataLen <= MAX_DATA_LENGTH
    ensures d.fromStm32 <==> d.code >= 0x80
  {
    match t
    case ToolId => Descriptor(0x01, false, 1, IntValue)
    case ToolName => Descriptor(0x02, false, 16, StrValue)
    case FollowModeEnable => Descriptor(0x04, false, 1, BoolValue)
    case RfidValid => Descriptor(0x08, false, 1, BoolValue)
    case BatteryLevel => Descriptor(0x81, true, 1, IntValue)
    case ArmStatus => Descriptor(0x82, true, 1, ArmStateValue)
    case RfidValue => Descriptor(0x84, true, 4, StrValue)
  }

  function Code(t: MessageType): byte { Describe(t).code }
  predicate FromStm32(t: MessageType) { Describe(t).fromStm32 }
  function DataLen(t: MessageType): nat { Describe(t).dataLen }

  /** The enumeration order in which the catalogue is searched. */
  const Catalogue: seq<MessageType> :=
    [ToolId, ToolName, FollowModeEnable, RfidValid, BatteryLevel, ArmStatus, RfidValue]

  /** The search order lists each of the seven types exactly once. */
  lemma CatalogueComplete()
    ensures |Catalogue| == 7
    ensures forall t: MessageType :: t in Catalogue
    ensures forall i, j :: 0 <= i < j < |Catalogue| ==> Catalogue[i] != Catalogue[j]
  {
    forall t: MessageType ensures t in Catalogue {
      match t
      case ToolId => assert Catalogue[0] == t;
      case ToolName => assert Catalogue[1] == t;
      case FollowModeEnable => assert Catalogue[2] == t;
      case RfidValid => assert Catalogue[3] == t;
      case BatteryLevel => assert Catalogue[4] == t;
      case ArmStatus => assert Catalogue[5] == t;
      case RfidValue => assert Catalogue[6] == t;
    }
  }

  /** Every fixed payload length lies in 1..MAX_DATA_LENGTH, and the direction
      flag is exactly the high bit of the code. */
  lemma DescriptorBounds(t: MessageType)
    ensures t in Catalogue
    ensures 1 <= DataLen(t) <= MAX_DATA_LENGTH
    ensures FromStm32(t) <==> Code(t) >= 0x80
  {
  }

  /** Distinct catalogue entries have distinct codes. */
  lemma CodesDistinct(t: MessageType, u: MessageType)
    ensures Code(t) == Code(u) ==> t == u
  {
  }

  /** The first entry of `entries` whose code is `code` (the `for` loop of
      `MessageType.from_bytes`). */
  function FindByCode(entries: seq<MessageType>, code: byte): (r: Option<MessageType>)
    ensures r.Some? ==> r.value in entries && Code(r.value) == code
    ensures r.None? ==> forall e :: e in entries ==> Code(e) != code
  {
    if entries == [] then None
    else if Code(entries[0]) == code then Some(entries[0])
    else FindByCode(entries[1..], code)
  }

  /** `MessageType.from_bytes`: None stands for the ValueError on an unknown code. */
  function FromByte(b: byte): (r: Option<MessageType>)
    ensures r.Some? ==> Code(r.value) == b
    ensures r.None? ==> forall t: MessageType :: Code(t) != b
  {
    FindByCode(Catalogue, b)
  }

  /** `MessageType.to_bytes`: the code as one big-endian byte. */
  function ToBytes(t: MessageType): (r: seq<byte>)
    ensures |r| == 1
  {
    [Code(t)]
  }

  /** `from_bytes(t.to_bytes()) == t`, because the codes are distinct. */
  lemma FromByteToBytes(t: MessageType)
    ensures FromByte(ToBytes(t)[0]) == Some(t)
  {
    var r := FromByte(Code(t));
    DescriptorBounds(t);
    assert r.Some?;
    CodesDistinct(r.value, t);
  }

  /** A byte is resolved exactly when it is one of the seven registered codes,
      and then it is the code of what it resolves to. */
  lemma FromByteKnown(b: byte)
    ensures FromByte(b).Some? <==> b in {0x01, 0x02, 0x04, 0x08, 0x81, 0x82, 0x84}
    ensures FromByte(b).Some? ==> Code(FromByte(b).value) == b
  {
    if b in {0x01, 0x02, 0x04, 0x08, 0x81, 0x82, 0x84} {
      var t := if b == 0x01 then ToolId else if b == 0x02 then ToolName
               else if b == 0x04 then FollowModeEnable else if b == 0x08 then RfidValid
               else if b == 0x81 then BatteryLevel else if b == 0x82 then ArmStatus
               else RfidValue;
      FromByteToBytes(t);
    }
  }
}
