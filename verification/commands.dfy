/** The validation and frame building of the four outbound commands
    (`set_tool_id`, `set_tool_name`, `is_rfid_valid`, `follow_mode_enable`).
    Each gives the frame handed to `io_send_uart`, or the error raised before
    anything is sent. */
module Commands {
  import opened Registry
  import opened Codec

  // ---------------------------------------------------------------------------
  // set_tool_id

  function ToolIdFrame(tool: int): (r: Result<seq<byte>>)
    ensures r.Ok? <==> 0 < tool < MAX_TOOL_ID
    ensures r.Err? ==> r.error == InvalidData
    ensures r.Ok? ==> r.value == [0x8A, 0x01, tool, 0x51]
    ensures r.Ok? ==> CheckFrame(r.value) == Ok(Decoded(ToolId, [tool]))
  {
    if !(0 < tool < MAX_TOOL_ID) then Err(InvalidData)
    else
      FormatThenCheck(ToolId, [tool]);
      FormatUart(ToolId, [tool])
  }

  /** Both ends of the tool range are excluded; tool 5 goes out as `8A 01 05 51`. */
  lemma ToolIdBoundaries()
    ensures ToolIdFrame(0) == Err(InvalidData) && ToolIdFrame(7) == Err(InvalidData)
    ensures forall tool :: 1 <= tool <= 6 ==> ToolIdFrame(tool).Ok?
    ensures ToolIdFrame(5) == Ok([0x8A, 0x01, 0x05, 0x51])
  {
  }

  // ---------------------------------------------------------------------------
  // set_tool_name

  const TOOL_NAME_WIDTH: nat := 16
  const SPACE: byte := 0x20

  /** `str.isalnum` on ASCII characters. */
  predicate IsAlnum(c: char)
  {
    '0' <= c <= '9' || 'A' <= c <= 'Z' || 'a' <= c <= 'z'
  }

  /** `str.isalnum` on a string: false for the empty string. */
  predicate IsAlnumString(name: string)
  {
    |name| > 0 && forall i :: 0 <= i < |name| ==> IsAlnum(name[i])
  }

  /** `str.ljust(width, ' ')`: pad on the right up to `width`; never shortens. */
  function LeftJustify(name: string, width: nat): (s: string)
    ensures |s| == if |name| < width then width else |name|
    ensures s[..|name|] == name
    ensures forall i :: |name| <= i < |s| ==> s[i] == ' '
  {
    if |name| < width then name + seq(width - |name|, _ => ' ') else name
  }

  predicate IsAscii(s: string)
  {
    forall i :: 0 <= i < |s| ==> s[i] as int < 128
  }

  /** `str.encode("ascii")` on an ASCII string. */
  function EncodeAscii(s: string): (b: seq<byte>)
    requires IsAscii(s)
    ensures |b| == |s|
    ensures forall i :: 0 <= i < |s| ==> b[i] == s[i] as int
  {
    seq(|s|, i requires 0 <= i < |s| => s[i] as int)
  }

  /** `payload` is `name` followed by spaces up to the tool-name width. */
  predicate IsPaddedName(payload: seq<byte>, name: string)
  {
    |payload| == TOOL_NAME_WIDTH && |name| <= TOOL_NAME_WIDTH
    && forall i :: 0 <= i < TOOL_NAME_WIDTH ==>
         payload[i] == if i < |name| then name[i] as int else SPACE
  }

  function ToolNameFrame(name: string): (r: Result<seq<byte>>)
    ensures !IsAlnumString(name) ==> r == Err(InvalidData)
    ensures IsAlnumString(name) && |name| > TOOL_NAME_WIDTH ==> r == Err(PayloadTooLong)
    ensures r.Ok? <==> IsAlnumString(name) && |name| <= TOOL_NAME_WIDTH
    ensures r.Ok? ==>
              |r.value| == TOOL_NAME_WIDTH + 3
              && CheckFrame(r.value) == Ok(Decoded(ToolName, r.value[2..18]))
              && IsPaddedName(r.value[2..18], name)
  {
    if !IsAlnumString(name) then Err(InvalidData)
    else
      var padded := LeftJustify(name, TOOL_NAME_WIDTH);
      var data := EncodeAscii(padded);
      var r := FormatUart(ToolName, data);
      if r.Ok? then
        FormatThenCheck(ToolName, data);
        assert r.value[2..18] == data;
        r
      else r
  }

  /** The STM32's reading of a tool-name payload: trailing spaces dropped. */
  function TrimTrailingSpaces(b: seq<byte>): (t: seq<byte>)
    ensures |t| <= |b| && t == b[..|t|]
    ensures t == [] || t[|t| - 1] != SPACE
  {
    if b == [] || b[|b| - 1] != SPACE then b else TrimTrailingSpaces(b[..|b| - 1])
  }

  lemma {:induction false} TrimPadding(b: seq<byte>, k: nat)
    requires b != [] && b[|b| - 1] != SPACE
    ensures TrimTrailingSpaces(b + seq(k, _ => SPACE)) == b
  {
    if k > 0 {
      var padded := b + seq(k, _ => SPACE);
      assert padded[..|padded| - 1] == b + seq(k - 1, _ => SPACE);
      TrimPadding(b, k - 1);
    } else {
      assert b + seq(0, _ => SPACE) == b;
    }
  }

  /** A padded payload is the encoded name followed by spaces. */
  lemma PaddedNameLayout(payload: seq<byte>, name: string)
    requires IsPaddedName(payload, name) && IsAscii(name)
    ensures payload == EncodeAscii(name) + seq(TOOL_NAME_WIDTH - |name|, _ => SPACE)
  {
  }

  /** A sendable tool name is recovered from its payload by dropping the
      padding: the name itself never ends in a space. */
  lemma ToolNameRecovered(name: string)
    requires ToolNameFrame(name).Ok?
    ensures TrimTrailingSpaces(ToolNameFrame(name).value[2..18]) == EncodeAscii(name)
  {
    AcceptedName(name);
    PaddingRemoved(ToolNameFrame(name).value[2..18], name);
  }

  /** Dropping the trailing spaces of a padded payload gives back the encoded
      name, when that does not itself end in a space. */
  lemma PaddingRemoved(payload: seq<byte>, name: string)
    requires IsPaddedName(payload, name) && IsAscii(name)
    requires EncodeAscii(name) != [] && EncodeAscii(name)[|name| - 1] != SPACE
    ensures TrimTrailingSpaces(payload) == EncodeAscii(name)
  {
    PaddedNameLayout(payload, name);
    TrimPadding(EncodeAscii(name), TOOL_NAME_WIDTH - |name|);
  }

  /** An accepted name is ASCII, padded into the payload, and its encoding
      does not end in a space. */
  lemma AcceptedName(name: string)
    requires ToolNameFrame(name).Ok?
    ensures IsPaddedName(ToolNameFrame(name).value[2..18], name) && IsAscii(name)
    ensures EncodeAscii(name) != [] && EncodeAscii(name)[|name| - 1] != SPACE
  {
    assert IsAlnumString(name);
    assert IsAlnum(name[|name| - 1]);
  }

  /** "marteau" goes out as its seven letters and nine spaces. */
  lemma MarteauPadded()
    ensures ToolNameFrame("marteau").Ok?
    ensures ToolNameFrame("marteau").value[2..18] == EncodeAscii("marteau") + seq(9, _ => SPACE)
  {
    assert IsAlnumString("marteau");
  }

  /** Names longer than the payload are refused, not truncated. */
  lemma LongNameRefused()
    ensures ToolNameFrame("marteaupiqueur123") == Err(PayloadTooLong)
  {
    assert IsAlnumString("marteaupiqueur123");
  }

  // ---------------------------------------------------------------------------
  // is_rfid_valid and follow_mode_enable

  /** `1 if flag else 0`: the one payload byte of a boolean command. */
  function BoolByte(flag: bool): (b: byte)
    ensures b == 1 <==> flag
    ensures b == 0 <==> !flag
  {
    if flag then 1 else 0
  }

  function RfidValidFrame(valid: bool): (r: Result<seq<byte>>)
    ensures r.Ok? && r.value == [0x8A, 0x08, BoolByte(valid), 0x51]
    ensures CheckFrame(r.value) == Ok(Decoded(RfidValid, [BoolByte(valid)]))
  {
    var d := [BoolByte(valid)];
    assert ToBytes(RfidValid) == [0x08] && DataLen(RfidValid) == 1;
    assert [START_BYTE] + ToBytes(RfidValid) + d + [STOP_BYTE] == [0x8A, 0x08, BoolByte(valid), 0x51];
    FormatThenCheck(RfidValid, d);
    FormatUart(RfidValid, d)
  }

  function FollowModeFrame(enabled: bool): (r: Result<seq<byte>>)
    ensures r.Ok? && r.value == [0x8A, 0x04, BoolByte(enabled), 0x51]
    ensures CheckFrame(r.value) == Ok(Decoded(FollowModeEnable, [BoolByte(enabled)]))
  {
    var d := [BoolByte(enabled)];
    assert ToBytes(FollowModeEnable) == [0x04] && DataLen(FollowModeEnable) == 1;
    assert [START_BYTE] + ToBytes(FollowModeEnable) + d + [STOP_BYTE] == [0x8A, 0x04, BoolByte(enabled), 0x51];
    FormatThenCheck(FollowModeEnable, d);
    FormatUart(FollowModeEnable, d)
  }

}
