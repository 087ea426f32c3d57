# UART framing engine of the Raspberry Pi ↔ screen STM32 link

This project models `UartInterface` in `_RPI_SIDE/core/uart_manager.py`, the
engine that frames the Raspberry Pi's side of the serial link to the screen
STM32. It also proves properties of that model. The model has five modules:

- `Registry` (`registry.dfy`):
  - the wire constants (start byte `0x8A`, stop byte `0x51`, header 2, footer 1, payload at most 16, `MAX_TOOL_ID` 7);
  - the `ArmState` enumeration {1, 2, 4, 8};
  - the closed catalogue of the seven `MessageType`s, each with a code, a direction, a fixed payload length and a value kind;
  - the code lookup `from_bytes` / `to_bytes`.
- `Codec` (`codec.dfy`):
  - `_format_uart`;
  - the ordered checks of `_parse_frame`, where each raised exception class becomes an `Error` value;
  - `bytes.hex()`;
  - `_dispatch_callback`, which gives the callback a checked frame fires.
- `Commands` (`commands.dfy`): the validation and frame building of `set_tool_id`, `set_tool_name`, `is_rfid_valid` and `follow_mode_enable`.
- `StreamParser` (`parser.dfy`):
  - the receive state machine `_process_rx_byte` as a pure step function `Step`;
  - a received chunk (`io_bytes_received`) as `Feed`;
  - the invariants and the frame-level lemmas.
- `Uart` (`uart.dfy`): the class `UartInterface`.
  - Its fields `rxBuff`, `bytesLeft` and `parserState` are updated in place, byte by byte, by `ProcessRxByte` and by the loop of `BytesReceived`. Both methods are proved against `Step` and `Feed`.
  - The abstract `io_send_uart` is replaced by a `delivered` argument (the value it returned) and a ghost log `sent` of the frames handed to it.
  - The abstract `cb_*` methods append to a ghost log `fired`.

The model follows the code as written, including these behaviours of it:

- **The receive buffer is never cleared.** `_rx_buff` is created in the constructor (line 186) and is only ever appended to (line 312). After the first completed attempt, every later `_parse_frame` call sees the earlier frame in front of the new bytes, and it raises. This holds across any number of `io_bytes_received` calls, so a driver fires at most one callback in its whole life. `OnlyFirstAttemptFires` and `BytesReceived` state this, and `SecondBatteryFrameRejected` shows it on two battery frames.
- **Parse errors escape.** An error raised by `_parse_frame` (line 342) is not caught by the loop of `io_bytes_received` (lines 353-354), whose docstring (lines 347-348) says it raises. The rest of that chunk is never looked at. `Feed`, `FeedStopsAtFirstError` and `BytesReceived` state this.
- **An unknown type code shifts the footer.** The counter is set to 0 (line 331). The next byte only moves the parser to the footer state (lines 334-337) and is not stored. The byte after that is stored as the footer, and the buffer is parsed. `UnknownTypeShiftsFooter` states this. `UnknownTypeSwallowsNextFrame` shows a valid battery frame lost after `8A 99 51`.
- **The stop byte is not checked by the state machine.** Only `_parse_frame` checks it (line 293). `FrameReceived` holds whatever the last byte is.
- **Tool names are not truncated.** `set_tool_name` only left-justifies to 16 characters (line 221). A longer name reaches `_format_uart`, which raises `PayloadTooLong` (lines 254-255). `LongNameRefused` states this.

## Model

| member | source | states |
|---|---|---|
| Registry.ArmCode | _RPI_SIDE/core/uart_manager.py:81-86 | the byte of every arm state is one of 1, 2, 4, 8 |
| Registry.ArmFromByte | _RPI_SIDE/core/uart_manager.py:97-106 | `ArmState(value)` succeeds exactly on 1, 2, 4, 8, and then the state's byte is the value; otherwise it is the ValueError (None) |
| Registry.ArmStateRoundTrip | _RPI_SIDE/core/uart_manager.py:81-106 | decoding the byte of an arm state gives that state back |
| Registry.Describe | _RPI_SIDE/core/uart_manager.py:122-131 | the catalogue's tuples: every payload length lies in 1..16, and an entry comes from the STM32 exactly when its code has the high bit set |
| Registry.CatalogueComplete | _RPI_SIDE/core/uart_manager.py:120-131 | the search order of `from_bytes` lists each of the seven types exactly once |
| Registry.DescriptorBounds | _RPI_SIDE/core/uart_manager.py:122-131 | every type is in the catalogue; its payload length lies in 1..16; it comes from the STM32 exactly when its code has the high bit set |
| Registry.CodesDistinct | _RPI_SIDE/core/uart_manager.py:123-131 | no two catalogue entries share a code |
| Registry.FindByCode | _RPI_SIDE/core/uart_manager.py:164-167 | the search returns an entry of the list with the given code, or None only when no entry has that code |
| Registry.FromByte | _RPI_SIDE/core/uart_manager.py:154-167 | `from_bytes` returns a type with the given code, and raises (None) only when no type has it |
| Registry.ToBytes | _RPI_SIDE/core/uart_manager.py:145-152 | `to_bytes` is exactly one byte |
| Registry.FromByteToBytes | _RPI_SIDE/core/uart_manager.py:145-167 | `from_bytes(t.to_bytes()) == t` for every type |
| Registry.FromByteKnown | _RPI_SIDE/core/uart_manager.py:120-167 | a byte resolves exactly when it is one of 01, 02, 04, 08, 81, 82, 84, and then to the type with that code |
| Codec.FormatUart | _RPI_SIDE/core/uart_manager.py:252-265 | a payload over 16 bytes raises PayloadTooLong first; otherwise a length other than the type's raises InvalidData; it succeeds exactly for the type's length, with a frame of `data_len + 3` bytes laid out as start, code, payload, stop |
| Codec.FormatUartLayout | _RPI_SIDE/core/uart_manager.py:265 | the built frame is `[0x8A, code] + data + [0x51]` |
| Codec.CheckFrame | _RPI_SIDE/core/uart_manager.py:283-307 | the checks in order: shorter than 3 → IncompleteFrame; bad first byte → InvalidFrameStart; bad last byte → InvalidFrameEnd; unknown type → UnknownMessageType; a payload of another length than the type's → InvalidPayloadLength; an accepted frame is laid out as its type and a payload of that type's length |
| Codec.FormattedFrameChecks | _RPI_SIDE/core/uart_manager.py:252-307 | the frame `_format_uart` builds passes every check and decodes to its own type and payload |
| Codec.FrameLayout | _RPI_SIDE/core/uart_manager.py:265 | a sequence laid out as a frame equals the concatenation `_format_uart` returns |
| Codec.CheckedFrameFormats | _RPI_SIDE/core/uart_manager.py:283-307 | a frame that passes the checks is exactly what `_format_uart` builds from its decoded type and payload |
| Codec.FormatCheckRoundTrip | _RPI_SIDE/core/uart_manager.py:252-307 | `_format_uart(t, d)` returns `frame` if and only if the checks accept `frame` as `(t, d)` |
| Codec.FormatThenCheck | _RPI_SIDE/core/uart_manager.py:252-307 | for every type and payload of its length, encoding succeeds and the checks give back exactly that type and payload |
| Codec.ConcatenatedFramesRejected | _RPI_SIDE/core/uart_manager.py:304-307 | a complete frame followed by more bytes that end in a stop byte fails with InvalidPayloadLength |
| Codec.HexDigit | _RPI_SIDE/core/uart_manager.py:272 | a nibble becomes a lower-case hex character |
| Codec.HexValue | _RPI_SIDE/core/uart_manager.py:272 | a hex character is read back as a nibble |
| Codec.HexDigitValue | _RPI_SIDE/core/uart_manager.py:272 | reading back the character of a nibble gives the nibble |
| Codec.Hex | _RPI_SIDE/core/uart_manager.py:272 | `data.hex()` has two lower-case hex characters per byte |
| Codec.HexCons | _RPI_SIDE/core/uart_manager.py:272 | the hex of a byte followed by more is its high digit, its low digit, then the hex of the rest |
| Codec.UnHex | _RPI_SIDE/core/uart_manager.py:272 | reading a hex string gives half as many bytes |
| Codec.HexRoundTrip | _RPI_SIDE/core/uart_manager.py:272 | reading `data.hex()` back gives `data`, so the RFID string determines the tag bytes |
| Codec.Dispatch | _RPI_SIDE/core/uart_manager.py:267-281 | types sent by the Raspberry Pi fire nothing; RFID_VALUE fires `cb_rfid_received` with 8 hex characters that read back as the payload; ARM_STATUS raises InvalidData exactly when its byte is not 1, 2, 4 or 8, and otherwise fires `cb_arm_state` with the state of that byte; BATTERY_LEVEL fires `cb_battery_level(data[0])` |
| Codec.ParseFrame | _RPI_SIDE/core/uart_manager.py:283-309 | a check failure is raised as is; a checked frame is dispatched with its type and payload |
| Codec.FormatThenParse | _RPI_SIDE/core/uart_manager.py:252-309 | a frame built by `_format_uart` is dispatched with exactly its type and payload |
| Codec.ArmStatusReadyFrame | _RPI_SIDE/core/uart_manager.py:283-309 | `8A 82 02 51` fires `cb_arm_state(READY)` |
| Commands.ToolIdFrame | _RPI_SIDE/core/uart_manager.py:198-204 | succeeds exactly for `0 < tool < 7`, otherwise InvalidData; the frame is `[8A, 01, tool, 51]` and decodes back to `(TOOL_ID, [tool])` |
| Commands.ToolIdBoundaries | _RPI_SIDE/core/uart_manager.py:198-204 | ids 0 and 7 are refused, 1..6 accepted, and id 5 goes out as `8A 01 05 51` |
| Commands.LeftJustify | _RPI_SIDE/core/uart_manager.py:221 | `ljust` keeps the name as a prefix, pads with spaces up to the width, and never shortens |
| Commands.EncodeAscii | _RPI_SIDE/core/uart_manager.py:221 | ASCII encoding keeps the length and maps each character to its code |
| Commands.ToolNameFrame | _RPI_SIDE/core/uart_manager.py:216-222 | a name that is not alphanumeric (the empty name included) raises InvalidData; an alphanumeric name over 16 characters raises PayloadTooLong; it succeeds exactly otherwise, with a 19-byte frame that decodes as TOOL_NAME and whose payload is the name followed by spaces |
| Commands.TrimTrailingSpaces | _RPI_SIDE/core/uart_manager.py:221 | the partner of the padding: dropping trailing spaces gives a prefix that does not end in a space |
| Commands.IsAlnumString | _RPI_SIDE/core/uart_manager.py:216 | `name.isalnum()`: false on the empty name, otherwise every character is an ASCII letter or digit (the definition; no contract of its own) |
| Commands.TrimPadding | _RPI_SIDE/core/uart_manager.py:221 | trailing padding added to a sequence that does not end in a space is removed exactly |
| Commands.PaddedNameLayout | _RPI_SIDE/core/uart_manager.py:221 | a padded payload is the encoded name followed by `16 - len(name)` spaces |
| Commands.ToolNameRecovered | _RPI_SIDE/core/uart_manager.py:221 | the name of every accepted frame is recovered from its payload by dropping the padding |
| Commands.AcceptedName | _RPI_SIDE/core/uart_manager.py:216-222 | an accepted name is ASCII, sits padded in the payload, and its encoding does not end in a space |
| Commands.PaddingRemoved | _RPI_SIDE/core/uart_manager.py:221 | dropping the trailing spaces of a padded payload gives back the encoded name |
| Commands.MarteauPadded | _RPI_SIDE/core/uart_manager.py:221 | "marteau" is sent as its seven letters and nine spaces |
| Commands.LongNameRefused | _RPI_SIDE/core/uart_manager.py:216-224 | a 17-character alphanumeric name raises PayloadTooLong instead of being truncated |
| Commands.RfidValidFrame | _RPI_SIDE/core/uart_manager.py:234-235 | `is_rfid_valid` sends `[8A, 08, 1 or 0, 51]`, which decodes back to its flag |
| Commands.BoolByte | _RPI_SIDE/core/uart_manager.py:234 | `1 if flag else 0`: the byte is 1 exactly for true and 0 exactly for false |
| Commands.FollowModeFrame | _RPI_SIDE/core/uart_manager.py:247-248 | `follow_mode_enable` sends `[8A, 04, 1 or 0, 51]`, which decodes back to its flag |
| StreamParser.PayloadCountdown | _RPI_SIDE/core/uart_manager.py:326-331 | the countdown set from a type byte is the registered type's `data_len`, or 0 when `from_bytes` raises; it is at most 16 |
| StreamParser.Step | _RPI_SIDE/core/uart_manager.py:315-342 | one byte preserves the invariant (the countdown is never negative and is 0 in IDLE; a non-empty buffer starts with 0x8A); the buffer only grows, by at most one byte; `_parse_frame` is called exactly on a byte received in READING_FOOTER, with the whole buffer, after the state is already IDLE |
| StreamParser.Inv | _RPI_SIDE/core/uart_manager.py:315-342 | the parser invariant: the countdown matches the state (0 in IDLE, 1 while reading the header or the footer, 0..16 in READING_DATA) and a non-empty buffer starts with 0x8A (the definition; `Step`, `FeedInv` and the constructor state that it holds) |
| StreamParser.IdleBehaviour | _RPI_SIDE/core/uart_manager.py:319-323 | in IDLE, a byte other than 0x8A changes nothing; 0x8A is appended, the counter becomes 1 and the state READING_HEADER |
| StreamParser.FeedInv | _RPI_SIDE/core/uart_manager.py:344-354 | after any chunk the invariant still holds and the old buffer is a prefix of the new one |
| StreamParser.Feed | _RPI_SIDE/core/uart_manager.py:344-354 | `io_bytes_received` as a function: at most one `_parse_frame` call per byte; its other properties are the `Feed` lemmas and `BytesReceived` |
| StreamParser.ConsAttempt | _RPI_SIDE/core/uart_manager.py:353-354 | a successful call in front of later calls changes neither what escapes nor the claim that only the last call may fail |
| StreamParser.FeedStopsAtFirstError | _RPI_SIDE/core/uart_manager.py:339-354 | every `_parse_frame` call of a chunk but the last succeeded; if the last raised, the parser is IDLE holding exactly the buffer that call was given |
| StreamParser.FiredAppend | _RPI_SIDE/core/uart_manager.py:344-354 | the callbacks of two runs of calls are those of the first, then those of the second |
| StreamParser.FeedOne | _RPI_SIDE/core/uart_manager.py:353-354 | a one-byte chunk is one step |
| StreamParser.FeedAppend | _RPI_SIDE/core/uart_manager.py:353-354 | receiving two chunks in turn equals receiving their concatenation, unless the first raised, in which case the second is never looked at |
| StreamParser.NoiseSkipped | _RPI_SIDE/core/uart_manager.py:319-320 | in IDLE, bytes other than 0x8A leave no trace |
| StreamParser.PayloadStored | _RPI_SIDE/core/uart_manager.py:315-337 | with k > 0 payload bytes to go, the next k bytes are stored verbatim and the parser waits for the footer |
| StreamParser.FeedSnoc | _RPI_SIDE/core/uart_manager.py:353-354 | one more byte after a chunk that raised nothing is one more step |
| StreamParser.HeaderReceived | _RPI_SIDE/core/uart_manager.py:319-332 | from IDLE, the start byte and a type byte are both stored, and the counter is that type's payload length (0 if unknown) |
| StreamParser.FeedPrefixStep | _RPI_SIDE/core/uart_manager.py:353-354 | one loop iteration: the byte's step is appended to the calls so far, and if it raised, nothing after it in the chunk changes the outcome |
| StreamParser.HeaderAndPayload | _RPI_SIDE/core/uart_manager.py:315-337 | the header and payload of a registered type are stored and the parser waits for the footer |
| StreamParser.FrameReceived | _RPI_SIDE/core/uart_manager.py:315-342 | from IDLE, a frame of a registered type appends exactly its `3 + data_len` bytes, whatever its last byte is, and `_parse_frame` is called once, on that byte, with the whole buffer |
| StreamParser.FooterCompletes | _RPI_SIDE/core/uart_manager.py:339-342 | while waiting for the footer, the next byte is stored and the whole buffer is parsed |
| StreamParser.UnknownTypeShiftsFooter | _RPI_SIDE/core/uart_manager.py:325-337 | after an unknown type code, the next byte is skipped without being stored, and the byte after it is stored as the footer and triggers the parse |
| StreamParser.StepAfterAttempt | _RPI_SIDE/core/uart_manager.py:311-342 | once an earlier attempt sits in the buffer, every further call of `_parse_frame` fails |
| StreamParser.FeedAfterAttempt | _RPI_SIDE/core/uart_manager.py:311-354 | once an earlier attempt sits in the buffer, a chunk makes at most one call, which fails and fires nothing, and the parser is still past an attempt afterwards |
| StreamParser.OnlyFirstFrameFires | _RPI_SIDE/core/uart_manager.py:311-354 | within one chunk that starts, on a fresh driver, with a frame of a registered type: that frame is parsed on its own, and every later call in the chunk raises, so only that frame fires (the whole-life statement is `OnlyFirstAttemptFires`) |
| StreamParser.AfterFirstFrame | _RPI_SIDE/core/uart_manager.py:311-342 | after the first frame of a registered type, the buffer already holds a full frame of that type |
| StreamParser.SpentFeed | _RPI_SIDE/core/uart_manager.py:311-354 | once any attempt has been completed, each later `io_bytes_received` call makes only failing `_parse_frame` calls, fires nothing, and leaves the parser still past an attempt |
| StreamParser.PristineStep | _RPI_SIDE/core/uart_manager.py:315-342 | before any attempt, a byte either keeps the buffer holding only the frame in progress, or completes the first attempt (of a registered or an unknown type), after which the buffer is already past an attempt |
| StreamParser.FirstThenFailures | _RPI_SIDE/core/uart_manager.py:339-342 | a first call followed only by failing calls that fire nothing leaves only the first call able to fire |
| StreamParser.PristineFeed | _RPI_SIDE/core/uart_manager.py:344-354 | before any attempt, a chunk either completes none, or completes a first attempt after which every call raises and the parser is past an attempt |
| StreamParser.SpentChunks | _RPI_SIDE/core/uart_manager.py:344-354 | once past an attempt, any number of further `io_bytes_received` calls make only failing `_parse_frame` calls and fire nothing |
| StreamParser.PristineChunks | _RPI_SIDE/core/uart_manager.py:344-354 | before any attempt, over any number of `io_bytes_received` calls, every `_parse_frame` call after the first raises and only the first can fire |
| StreamParser.LaterChunksFail | _RPI_SIDE/core/uart_manager.py:344-354 | failing calls of later chunks, appended after the calls of the chunk that made the first attempt, leave only the first call able to fire |
| StreamParser.OnlyFirstAttemptFires | _RPI_SIDE/core/uart_manager.py:185-354 | from construction and across any number of `io_bytes_received` calls, every `_parse_frame` call after the first raises, so at most one callback fires in the driver's whole life, and it is the first call's |
| StreamParser.FiredOne | _RPI_SIDE/core/uart_manager.py:267-281 | one `_parse_frame` call fires at most one callback |
| StreamParser.NoiseThenFirstFrame | _RPI_SIDE/core/uart_manager.py:315-354 | noise without 0x8A and then a frame built by `_format_uart` dispatch exactly that frame's type and payload |
| StreamParser.FrameFromFresh | _RPI_SIDE/core/uart_manager.py:315-354 | a well-formed frame received by a fresh driver is dispatched with its type and payload |
| StreamParser.NoiseThenRfidFrame | _RPI_SIDE/core/uart_manager.py:344-354 | `FF FF 8A 84 DE AD BE EF 51` fires exactly one `cb_rfid_received("deadbeef")` and raises nothing |
| StreamParser.NoiseThenRfidFeed | _RPI_SIDE/core/uart_manager.py:344-354 | the same stream leaves the frame in the buffer and makes one successful call |
| StreamParser.RfidDeadbeef | _RPI_SIDE/core/uart_manager.py:271-273 | the RFID payload `DE AD BE EF` fires `cb_rfid_received("deadbeef")` |
| StreamParser.HexDeadbeef | _RPI_SIDE/core/uart_manager.py:272 | `bytes.hex()` of `DE AD BE EF` is "deadbeef" |
| StreamParser.UnknownTypeSwallowsNextFrame | _RPI_SIDE/core/uart_manager.py:325-342 | `8A 99 51` followed by a valid battery frame parses `8A 99 8A`, raises InvalidFrameEnd and loses the battery frame |
| StreamParser.UnknownHeadRaises | _RPI_SIDE/core/uart_manager.py:325-342 | `8A 99 51 8A` on a fresh driver parses `8A 99 8A` and raises InvalidFrameEnd |
| StreamParser.EscapeDropsTail | _RPI_SIDE/core/uart_manager.py:353-354 | once the head of a chunk has raised, the rest of the chunk changes nothing |
| StreamParser.SecondBatteryFrameRejected | _RPI_SIDE/core/uart_manager.py:311-342 | two valid battery frames in one chunk: the first fires level 0x40; the second is parsed together with the first and raises InvalidPayloadLength |
| StreamParser.FirstBatteryFrame | _RPI_SIDE/core/uart_manager.py:315-342 | a fresh driver fires `cb_battery_level(0x40)` for `8A 81 40 51` |
| StreamParser.BatteryFrameAfterAnother | _RPI_SIDE/core/uart_manager.py:311-342 | a battery frame received after one already in the buffer is parsed together with it and raises InvalidPayloadLength |
| Uart.UartInterface.constructor | _RPI_SIDE/core/uart_manager.py:185-188 | empty buffer, counter 0, IDLE, which satisfies the invariant; no attempt has been made yet |
| Uart.UartInterface.IoSendUart | _RPI_SIDE/core/uart_manager.py:356-367 | the frame is logged as sent and the result is the transmit outcome |
| Uart.UartInterface.CbRfidReceived | _RPI_SIDE/core/uart_manager.py:369-381 | logs one `cb_rfid_received` call |
| Uart.UartInterface.CbBatteryLevel | _RPI_SIDE/core/uart_manager.py:383-393 | logs one `cb_battery_level` call |
| Uart.UartInterface.CbArmState | _RPI_SIDE/core/uart_manager.py:395-405 | logs one `cb_arm_state` call |
| Uart.UartInterface.SetToolId | _RPI_SIDE/core/uart_manager.py:190-206 | sends `ToolIdFrame(tool)` only when it is valid; raises its error, or UartError exactly when the transmit failed |
| Uart.UartInterface.SetToolName | _RPI_SIDE/core/uart_manager.py:208-224 | sends `ToolNameFrame(name)` only when it is valid; raises its error, or UartError exactly when the transmit failed |
| Uart.UartInterface.IsRfidValid | _RPI_SIDE/core/uart_manager.py:226-237 | sends `RfidValidFrame(valid)`; raises UartError exactly when the transmit failed |
| Uart.UartInterface.FollowModeEnable | _RPI_SIDE/core/uart_manager.py:239-250 | sends `FollowModeFrame(enabled)`; raises UartError exactly when the transmit failed |
| Uart.UartInterface.DispatchCallback | _RPI_SIDE/core/uart_manager.py:267-281 | fires exactly the callbacks and raises exactly the error of `Dispatch` |
| Uart.UartInterface.ParseFrame | _RPI_SIDE/core/uart_manager.py:283-309 | fires exactly the callbacks and raises exactly the error of `Codec.ParseFrame` |
| Uart.UartInterface.StoreRxByte | _RPI_SIDE/core/uart_manager.py:311-313 | appends the byte to the buffer and decrements the counter |
| Uart.UartInterface.ProcessRxByte | _RPI_SIDE/core/uart_manager.py:315-342 | the fields become `Step`'s next state, the invariant is kept, and the callbacks fired and the error raised are those of the step's call of `_parse_frame` |
| Uart.UartInterface.BytesReceived | _RPI_SIDE/core/uart_manager.py:344-354 | the fields become `Feed`'s parser; the callbacks fired are those of the calls made before the loop stopped; the error raised is the one that escaped; a driver with no attempt yet is afterwards either still without one or past one, and a driver past an attempt stays past it and fires nothing |

## Left out

- Logging (`logger.warning` on an unknown type) and the message strings and constructor arguments of the exceptions. The exception hierarchy is flattened to one `Error` value per raised class.
- The ABC machinery. The concrete `io_send_uart` and `cb_*` are I/O. They are replaced by the `delivered` argument and the ghost logs `sent` and `fired`.
- The test `msg_type not in MessageType` in `_format_uart` (line 257): every `MessageType` value is in the enumeration, so it never raises.
- The `data_type` field of each catalogue entry. It is recorded as `ValueKind` but never read by the engine.
- `ArmState.to_bytes` and the instance method `ArmState.from_bytes` (lines 88-106): neither is called by the engine. `ArmCode` and `ArmFromByte` model the byte↔state mapping that `ArmState(data[0])` uses.
- Commands.IsAlnum: models `str.isalnum` on ASCII letters and digits only. A non-ASCII alphanumeric name, which would pass `isalnum` and then fail `encode("ascii")`, is not modelled.
- Uart.UartInterface.ProcessRxByte: requires the parser invariant `Valid()`. The constructor establishes it and every method keeps it, so every reachable driver satisfies it. Behaviour on states the driver cannot reach is not described.
- Uart.UartInterface.BytesReceived: requires `Valid()` for the same reason.
- StreamParser.FeedChunks: models a caller that calls `io_bytes_received` again after it has raised. The repository's own read loop (`_RPI_SIDE/modules/uart_driver_raspberry.py`, lines 180-184) does not catch the exception, so there the first escaped error ends the loop. The whole-life statement covers both cases.
- The rest of the repository is not part of this model. This covers the pyserial driver and its queues, the hotspot manager and monitor, the TCP server and its client, the logger set-up and `main`. All of them are I/O and process plumbing around this engine.
