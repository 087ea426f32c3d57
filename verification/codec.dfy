/** Frame encoding (`_format_uart`), the ordered structural checks of
    `_parse_frame`, and the routing of a checked frame to a callback
    (`_dispatch_callback`). Every raised exception becomes an `Err`. */
module Codec {
  import opened Registry

  /** The exception classes of the driver that the core raises. */
  datatype Error =
    | PayloadTooLong
    | InvalidData
    | UartError
    | UnknownMessageType
    | InvalidFrameStart
    | InvalidPayloadLength
    | InvalidFrameEnd
    | IncompleteFrame

  datatype Result<+T> = Ok(value: T) | Err(error: Error)

  /** The frame layout `START | code | payload | STOP`. */
  predicate IsFrameOf(f: seq<byte>, t: MessageType, data: seq<byte>)
  {
    |f| == |data| + OVERHEAD_LENGTH
    && f[0] == START_BYTE && f[1] == Code(t) && f[|f| - 1] == STOP_BYTE
    && f[HEADER_LENGTH .. |f| - FOOTER_LENGTH] == data
  }

  /** `_format_uart`: the too-long check comes first, then the exact-length check. */
  function FormatUart(t: MessageType, data: seq<byte>): (r: Result<seq<byte>>)
    ensures |data| > MAX_DATA_LENGTH ==> r == Err(PayloadTooLong)
    ensures |data| <= MAX_DATA_LENGTH && |data| != DataLen(t) ==> r == Err(InvalidData)
    ensures r.Ok? <==> |data| == DataLen(t)
    ensures r.Ok? ==> IsFrameOf(r.value, t, data) && |r.value| == DataLen(t) + 3
  {
    DescriptorBounds(t);
    if |data| > MAX_DATA_LENGTH then Err(PayloadTooLong)
    else if |data| != DataLen(t) then Err(InvalidData)
    else Ok([START_BYTE] + ToBytes(t) + data + [STOP_BYTE])
  }

  /** A frame of the right length is laid out byte by byte as start byte,
      type code, payload, stop byte. */
  lemma FormatUartLayout(t: MessageType, data: seq<byte>)
    requires |data| == DataLen(t)
    ensures FormatUart(t, data) == Ok([START_BYTE, Code(t)] + data + [STOP_BYTE])
  {
    assert [START_BYTE] + ToBytes(t) == [START_BYTE, Code(t)];
  }

  /** What a frame that passes every structural check carries. */
  datatype Decoded = Decoded(msgType: MessageType, data: seq<byte>)

  /** The structural checks of `_parse_frame`, in the source's order. */
  function CheckFrame(frame: seq<byte>): (r: Result<Decoded>)
    ensures |frame| < MIN_FRAME_LENGTH ==> r == Err(IncompleteFrame)
    ensures |frame| >= MIN_FRAME_LENGTH && frame[0] != START_BYTE ==> r == Err(InvalidFrameStart)
    ensures (|frame| >= MIN_FRAME_LENGTH && frame[0] == START_BYTE
             && frame[|frame| - 1] != STOP_BYTE) ==> r == Err(InvalidFrameEnd)
    ensures (|frame| >= MIN_FRAME_LENGTH && frame[0] == START_BYTE
             && frame[|frame| - 1] == STOP_BYTE && FromByte(frame[1]).None?) ==> r == Err(UnknownMessageType)
    ensures (|frame| >= MIN_FRAME_LENGTH && frame[0] == START_BYTE
             && frame[|frame| - 1] == STOP_BYTE && FromByte(frame[1]).Some?
             && |frame| - OVERHEAD_LENGTH != DataLen(FromByte(frame[1]).value)) ==> r == Err(InvalidPayloadLength)
    ensures r.Ok? ==> IsFrameOf(frame, r.value.msgType, r.value.data)
                      && |r.value.data| == DataLen(r.value.msgType)
  {
    if |frame| < MIN_FRAME_LENGTH then Err(IncompleteFrame)
    else if frame[0] != START_BYTE then Err(InvalidFrameStart)
    else if frame[|frame| - 1] != STOP_BYTE then Err(InvalidFrameEnd)
    else match FromByte(frame[1])
      case None => Err(UnknownMessageType)
      case Some(t) =>
        var data := frame[HEADER_LENGTH .. |frame| - FOOTER_LENGTH];
        if DataLen(t) != |data| then Err(InvalidPayloadLength)
        else Ok(Decoded(t, data))
  }

  /** The frame `_format_uart` builds passes the checks with its own type and payload. */
  lemma FormattedFrameChecks(t: MessageType, data: seq<byte>, frame: seq<byte>)
    requires FormatUart(t, data) == Ok(frame)
    ensures CheckFrame(frame) == Ok(Decoded(t, data))
  {
    FromByteToBytes(t);
    assert IsFrameOf(frame, t, data);
    assert FromByte(frame[1]) == Some(t);
  }

  /** A sequence laid out as a frame is its start byte, code, payload and stop byte. */
  lemma FrameLayout(f: seq<byte>, t: MessageType, data: seq<byte>)
    requires IsFrameOf(f, t, data)
    ensures f == [START_BYTE] + ToBytes(t) + data + [STOP_BYTE]
  {
    var g := [START_BYTE] + ToBytes(t) + data + [STOP_BYTE];
    forall i | 0 <= i < |g| ensures g[i] == f[i] {
      if 2 <= i < |g| - 1 {
        assert f[i] == f[HEADER_LENGTH .. |f| - FOOTER_LENGTH][i - 2];
      }
    }
  }

  /** A frame that passes the checks is the one `_format_uart` builds from
      what it decodes to. */
  lemma CheckedFrameFormats(t: MessageType, data: seq<byte>, frame: seq<byte>)
    requires CheckFrame(frame) == Ok(Decoded(t, data))
    ensures FormatUart(t, data) == Ok(frame)
  {
    assert IsFrameOf(frame, t, data) && |data| == DataLen(t);
    FrameLayout(frame, t, data);
  }

  /** A frame is accepted exactly when it is the encoding of what it decodes
      to: the checks and `_format_uart` are inverse to each other. */
  lemma FormatCheckRoundTrip(t: MessageType, data: seq<byte>, frame: seq<byte>)
    ensures FormatUart(t, data) == Ok(frame) <==> CheckFrame(frame) == Ok(Decoded(t, data))
  {
    if FormatUart(t, data) == Ok(frame) {
      FormattedFrameChecks(t, data, frame);
    }
    if CheckFrame(frame) == Ok(Decoded(t, data)) {
      CheckedFrameFormats(t, data, frame);
    }
  }

  /** Every registered type encodes every payload of its fixed length, and the
      checks give back exactly that type and payload. */
  lemma FormatThenCheck(t: MessageType, data: seq<byte>)
    requires |data| == DataLen(t)
    ensures FormatUart(t, data).Ok?
    ensures CheckFrame(FormatUart(t, data).value) == Ok(Decoded(t, data))
  {
    FormatCheckRoundTrip(t, data, FormatUart(t, data).value);
  }

  /** The checks read a frame that carries more bytes after a complete frame
      (its first byte still the start byte, its last byte a stop byte) as
      having the wrong payload length. */
  lemma {:induction false} ConcatenatedFramesRejected(f1: seq<byte>, t: MessageType, d: seq<byte>, tail: seq<byte>)
    requires IsFrameOf(f1, t, d) && |d| == DataLen(t)
    requires |tail| > 0 && tail[|tail| - 1] == STOP_BYTE
    ensures CheckFrame(f1 + tail) == Err(InvalidPayloadLength)
  {
    var f := f1 + tail;
    FromByteToBytes(t);
    assert f[1] == Code(t) && f[0] == START_BYTE;
    assert f[|f| - 1] == tail[|tail| - 1];
    assert |f[HEADER_LENGTH .. |f| - FOOTER_LENGTH]| == |d| + |tail|;
  }

  // ---------------------------------------------------------------------------
  // Lower-case hexadecimal (`bytes.hex()`)

  const HEX_DIGITS: string := "0123456789abcdef"

  predicate IsHexChar(c: char) { '0' <= c <= '9' || 'a' <= c <= 'f' }

  function HexDigit(n: int): (c: char)
    requires 0 <= n < 16
    ensures IsHexChar(c)
  {
    HEX_DIGITS[n]
  }

  function HexValue(c: char): (n: int)
    requires IsHexChar(c)
    ensures 0 <= n < 16
  {
    if c <= '9' then c as int - '0' as int else c as int - 'a' as int + 10
  }

  lemma HexDigitValue(n: int)
    requires 0 <= n < 16
    ensures HexValue(HexDigit(n)) == n
  {
  }

  /** `data.hex()`: two lower-case hex digits per byte, high nibble first. */
  function Hex(data: seq<byte>): (s: string)
    ensures |s| == 2 * |data|
    ensures forall i :: 0 <= i < |s| ==> IsHexChar(s[i])
  {
    if data == [] then ""
    else [HexDigit(data[0] / 16), HexDigit(data[0] % 16)] + Hex(data[1..])
  }

  lemma HexCons(b: byte, rest: seq<byte>)
    ensures Hex([b] + rest) == [HEX_DIGITS[b / 16], HEX_DIGITS[b % 16]] + Hex(rest)
  {
    assert ([b] + rest)[1..] == rest;
  }

  /** Reads a well-formed hex string back into bytes; the partner of `Hex`. */
  function UnHex(s: string): (data: seq<byte>)
    requires |s| % 2 == 0
    requires forall i :: 0 <= i < |s| ==> IsHexChar(s[i])
    ensures |data| * 2 == |s|
  {
    if s == [] then [] else [16 * HexValue(s[0]) + HexValue(s[1])] + UnHex(s[2..])
  }

  /** The hex string of a payload determines that payload. */
  lemma {:induction false} HexRoundTrip(data: seq<byte>)
    ensures UnHex(Hex(data)) == data
  {
    if data != [] {
      var s := Hex(data);
      HexDigitValue(data[0] / 16);
      HexDigitValue(data[0] % 16);
      assert s[2..] == Hex(data[1..]);
      HexRoundTrip(data[1..]);
    }
  }

  // ---------------------------------------------------------------------------
  // Dispatch

  /** A call of one of the `cb_*` capabilities, with its argument. */
  datatype Callback =
    | RfidReceived(rfid: string)
    | ArmStateChanged(state: ArmState)
    | BatteryLevelChanged(level: byte)

  /** `_dispatch_callback`: the callback a checked frame fires (None when it fires
      none), or the error raised instead. */
  function Dispatch(t: MessageType, data: seq<byte>): (r: Result<Option<Callback>>)
    requires |data| == DataLen(t)
    ensures !FromStm32(t) ==> r == Ok(None)
    ensures t == RfidValue ==>
              r.Ok? && r.value.Some? && r.value.value.RfidReceived?
              && |r.value.value.rfid| == 8
              && (forall i :: 0 <= i < 8 ==> IsHexChar(r.value.value.rfid[i]))
              && UnHex(r.value.value.rfid) == data
    ensures t == ArmStatus ==>
              (r.Err? <==> data[0] !in {0x01, 0x02, 0x04, 0x08})
              && (r.Err? ==> r.error == InvalidData)
              && (r.Ok? ==> r.value.Some? && r.value.value.ArmStateChanged?
                            && ArmCode(r.value.value.state) == data[0])
    ensures t == BatteryLevel ==>
              r.Ok? && r.value.Some? && r.value.value.BatteryLevelChanged?
              && r.value.value.level == data[0]
  {
    if !FromStm32(t) then Ok(None)
    else if t == RfidValue then
      HexRoundTrip(data);
      Ok(Some(RfidReceived(Hex(data))))
    else if t == ArmStatus then
      match ArmFromByte(data[0])
      case None => Err(InvalidData)
      case Some(s) => Ok(Some(ArmStateChanged(s)))
    else
      Ok(Some(BatteryLevelChanged(data[0])))
  }

  /** `_parse_frame` as a whole: the checks, then dispatch. */
  function ParseFrame(frame: seq<byte>): (r: Result<Option<Callback>>)
    ensures CheckFrame(frame).Err? ==> r == Err(CheckFrame(frame).error)
    ensures CheckFrame(frame).Ok? ==>
              r == Dispatch(CheckFrame(frame).value.msgType, CheckFrame(frame).value.data)
  {
    match CheckFrame(frame)
    case Err(e) => Err(e)
    case Ok(Decoded(t, data)) => Dispatch(t, data)
  }

  /** A frame built by `_format_uart` is parsed without a structural error and
      dispatched with exactly its type and payload. */
  lemma FormatThenParse(t: MessageType, data: seq<byte>)
    requires |data| == DataLen(t)
    ensures FormatUart(t, data).Ok?
    ensures ParseFrame(FormatUart(t, data).value) == Dispatch(t, data)
  {
    FormatThenCheck(t, data);
  }

  /** `[0x8A, 0x82, 0x02, 0x51]` reports the arm state READY. */
  lemma ArmStatusReadyFrame()
    ensures ParseFrame([0x8A, 0x82, 0x02, 0x51]) == Ok(Some(ArmStateChanged(ArmReady)))
  {
    var f: seq<byte> := [0x8A, 0x82, 0x02, 0x51];
    var d: seq<byte> := [0x02];
    assert ToBytes(ArmStatus) == [0x82] && DataLen(ArmStatus) == 1;
    assert [START_BYTE] + ToBytes(ArmStatus) + d + [STOP_BYTE] == f;
    FormatCheckRoundTrip(ArmStatus, d, f);
    var r := Dispatch(ArmStatus, d);
    assert r.Ok? && ArmCode(r.value.value.state) == 0x02;
  }
}
