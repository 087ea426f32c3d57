/** The driver object itself: the parser fields that `_process_rx_byte`
    updates in place, and the command and dispatch methods. The abstract
    `io_send_uart` is replaced by a `delivered` argument (what it returned),
    and the abstract `cb_*` methods by appending to a log of callbacks. */
module Uart {
  import opened Registry
  import opened Codec
  import opened Commands
  import opened StreamParser

  /** The error a command raises, given the frame it built (or the error raised
      while building it) and whether `io_send_uart` reported success. */
  function CommandError(cmd: Result<seq<byte>>, delivered: bool): Option<Error>
  {
    if cmd.Err? then Some(cmd.error) else if delivered then None else Some(UartError)
  }

  /** The frames a command hands to `io_send_uart`: none when it raised first. */
  function CommandSent(cmd: Result<seq<byte>>): seq<seq<byte>>
  {
    if cmd.Ok? then [cmd.value] else []
  }

  function ErrorOf(r: Result<Option<Callback>>): Option<Error>
  {
    if r.Err? then Some(r.error) else None
  }

  function CallbacksOf(r: Result<Option<Callback>>): seq<Callback>
  {
    if r.Ok? && r.value.Some? then [r.value.value] else []
  }

  class UartInterface {
    var rxBuff: seq<byte>
    var bytesLeft: int
    var parserState: ParserState

    /** Every frame handed to `io_send_uart`, in order. */
    ghost var sent: seq<seq<byte>>
    /** Every `cb_*` call, in order. */
    ghost var fired: seq<Callback>

    function Session(): Parser
      reads this
    {
      Parser(rxBuff, bytesLeft, parserState)
    }

    ghost predicate Valid()
      reads this
    {
      Inv(Session())
    }

    constructor ()
      ensures Valid() && Session() == Fresh && Pristine(Session())
      ensures sent == [] && fired == []
    {
      rxBuff := [];
      bytesLeft := 0;
      parserState := Idle;
      sent := [];
      fired := [];
    }

    // -------------------------------------------------------------------------
    // Capabilities provided by the concrete driver

    method IoSendUart(frame: seq<byte>, delivered: bool) returns (ok: bool)
      modifies this`sent
      ensures sent == old(sent) + [frame] && ok == delivered
    {
      sent := sent + [frame];
      ok := delivered;
    }

    method CbRfidReceived(rfid: string)
      modifies this`fired
      ensures fired == old(fired) + [RfidReceived(rfid)]
    {
      fired := fired + [RfidReceived(rfid)];
    }

    method CbBatteryLevel(level: byte)
      modifies this`fired
      ensures fired == old(fired) + [BatteryLevelChanged(level)]
    {
      fired := fired + [BatteryLevelChanged(level)];
    }

    method CbArmState(state: ArmState)
      modifies this`fired
      ensures fired == old(fired) + [ArmStateChanged(state)]
    {
      fired := fired + [ArmStateChanged(state)];
    }

    // -------------------------------------------------------------------------
    // Outbound commands

    method SetToolId(tool: int, delivered: bool) returns (err: Option<Error>)
      modifies this`sent
      ensures sent == old(sent) + CommandSent(ToolIdFrame(tool))
      ensures err == CommandError(ToolIdFrame(tool), delivered)
    {
      if !(0 < tool < MAX_TOOL_ID) {
        return Some(InvalidData);
      }
      var frame := FormatUart(ToolId, [tool]);
      var ok := IoSendUart(frame.value, delivered);
      err := if ok then None else Some(UartError);
    }

    method SetToolName(name: string, delivered: bool) returns (err: Option<Error>)
      modifies this`sent
      ensures sent == old(sent) + CommandSent(ToolNameFrame(name))
      ensures err == CommandError(ToolNameFrame(name), delivered)
    {
      if !IsAlnumString(name) {
        return Some(InvalidData);
      }
      var data := EncodeAscii(LeftJustify(name, TOOL_NAME_WIDTH));
      var frame := FormatUart(ToolName, data);
      if frame.Err? {
        return Some(frame.error);
      }
      var ok := IoSendUart(frame.value, delivered);
      err := if ok then None else Some(UartError);
    }

    method IsRfidValid(valid: bool, delivered: bool) returns (err: Option<Error>)
      modifies this`sent
      ensures sent == old(sent) + CommandSent(RfidValidFrame(valid))
      ensures err == CommandError(RfidValidFrame(valid), delivered)
    {
      var frame := FormatUart(RfidValid, [if valid then 1 else 0]);
      var ok := IoSendUart(frame.value, delivered);
      err := if ok then None else Some(UartError);
    }

    method FollowModeEnable(enabled: bool, delivered: bool) returns (err: Option<Error>)
      modifies this`sent
      ensures sent == old(sent) + CommandSent(FollowModeFrame(enabled))
      ensures err == CommandError(FollowModeFrame(enabled), delivered)
    {
      var frame := FormatUart(Registry.FollowModeEnable, [if enabled then 1 else 0]);
      var ok := IoSendUart(frame.value, delivered);
      err := if ok then None else Some(UartError);
    }

    // -------------------------------------------------------------------------
    // Inbound frames

    method DispatchCallback(t: MessageType, data: seq<byte>) returns (err: Option<Error>)
      requires |data| == DataLen(t)
      modifies this`fired
      ensures err == ErrorOf(Dispatch(t, data))
      ensures fired == old(fired) + CallbacksOf(Dispatch(t, data))
    {
      if !FromStm32(t) {
        return None;
      }
      if t == RfidValue {
        var rfid := Hex(data);
        CbRfidReceived(rfid);
      } else if t == ArmStatus {
        var state := ArmFromByte(data[0]);
        if state.None? {
          return Some(InvalidData);
        }
        CbArmState(state.value);
      } else if t == BatteryLevel {
        CbBatteryLevel(data[0]);
      }
      err := None;
    }

    method ParseFrame(frame: seq<byte>) returns (err: Option<Error>)
      modifies this`fired
      ensures err == ErrorOf(Codec.ParseFrame(frame))
      ensures fired == old(fired) + CallbacksOf(Codec.ParseFrame(frame))
    {
      match CheckFrame(frame)
      case Err(e) =>
        err := Some(e);
      case Ok(Decoded(t, data)) =>
        err := DispatchCallback(t, data);
    }

    method StoreRxByte(b: byte)
      modifies this`rxBuff, this`bytesLeft
      ensures rxBuff == old(rxBuff) + [b] && bytesLeft == old(bytesLeft) - 1
    {
      rxBuff := rxBuff + [b];
      bytesLeft := bytesLeft - 1;
    }

    method ProcessRxByte(b: byte) returns (err: Option<Error>)
      requires Valid()
      modifies this`rxBuff, this`bytesLeft, this`parserState, this`fired
      ensures Valid()
      ensures Session() == Step(old(Session()), b).next
      ensures fired == old(fired) + Fired(StepAttempts(Step(old(Session()), b)))
      ensures err == Raised(StepAttempts(Step(old(Session()), b)))
    {
      ghost var s := Step(Session(), b);
      err := None;
      if bytesLeft > 0 {
        StoreRxByte(b);
      }
      if parserState == Idle {
        if b == START_BYTE {
          bytesLeft := HEADER_LENGTH;
          parserState := ReadingHeader;
          StoreRxByte(b);
        }
      } else if parserState == ReadingHeader {
        if bytesLeft == 0 {
          var t := FromByte(b);
          bytesLeft := if t.Some? then DataLen(t.value) else 0;
          parserState := ReadingData;
        }
      } else if parserState == ReadingData {
        if bytesLeft == 0 {
          bytesLeft := FOOTER_LENGTH;
          parserState := ReadingFooter;
        }
      } else if parserState == ReadingFooter {
        if bytesLeft == 0 {
          parserState := Idle;
          err := ParseFrame(rxBuff);
          assert Fired(StepAttempts(s)) == CallbacksOf(Codec.ParseFrame(rxBuff)) + Fired([]);
        }
      }
    }

    method BytesReceived(rx: seq<byte>) returns (err: Option<Error>)
      requires Valid()
      modifies this`rxBuff, this`bytesLeft, this`parserState, this`fired
      ensures Valid()
      ensures Session() == Feed(old(Session()), rx).parser
      ensures fired == old(fired) + Fired(Feed(old(Session()), rx).attempts)
      ensures err == Escaped(Feed(old(Session()), rx))
      ensures Pristine(old(Session())) ==> Pristine(Session()) || Spent(Session())
      ensures Spent(old(Session())) ==> Spent(Session()) && fired == old(fired)
    {
      ghost var p0 := Session();
      ghost var f0 := fired;
      if Pristine(p0) {
        PristineFeed(p0, rx);
      }
      if Spent(p0) {
        SpentFeed(p0, rx);
      }
      var i := 0;
      while i < |rx|
        invariant 0 <= i <= |rx| && Valid()
        invariant Escaped(Feed(p0, rx[..i])).None?
        invariant Session() == Feed(p0, rx[..i]).parser
        invariant fired == f0 + Fired(Feed(p0, rx[..i]).attempts)
      {
        SplitAt(rx, i);
        FeedPrefixStep(p0, rx[..i], rx[i], rx[i + 1..]);
        err := ProcessRxByte(rx[i]);
        ghost var s := Step(Feed(p0, rx[..i]).parser, rx[i]);
        ConcatAssoc(f0, Fired(Feed(p0, rx[..i]).attempts), Fired(StepAttempts(s)));
        if err.Some? {
          return;
        }
        i := i + 1;
      }
      assert rx[..i] == rx;
      err := None;
    }
  }
}
