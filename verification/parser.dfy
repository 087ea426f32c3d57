/** The receive side of the link as a pure transition system: one step per
    received byte (`_process_rx_byte`) and a chunk of bytes (`io_bytes_received`).
    The class in module Uart runs the same machine on its fields and is proved
    against `Step` and `Feed`. */
module StreamParser {
  import opened Registry
  import opened Codec

  datatype ParserState = Idle | ReadingHeader | ReadingData | ReadingFooter

  /** The receive buffer, the countdown of bytes still to store, and the state. */
  datatype Parser = Parser(buff: seq<byte>, bytesLeft: int, state: ParserState)

  /** A parser just constructed. */
  const Fresh: Parser := Parser([], 0, Idle)

  /** What holds between bytes: the countdown matches the state, and the buffer
      starts with the start byte as soon as anything is in it. */
  predicate Inv(p: Parser)
  {
    (p.state == Idle ==> p.bytesLeft == 0)
    && (p.state == ReadingHeader ==> p.bytesLeft == 1)
    && (p.state == ReadingData ==> 0 <= p.bytesLeft <= MAX_DATA_LENGTH)
    && (p.state == ReadingFooter ==> p.bytesLeft == 1)
    && (p.state != Idle ==> |p.buff| > 0)
    && (|p.buff| > 0 ==> p.buff[0] == START_BYTE)
  }

  /** A call of `_parse_frame`: the buffer it was given and what it did. */
  datatype Attempt = Attempt(frame: seq<byte>, outcome: Result<Option<Callback>>)

  datatype StepResult = StepResult(next: Parser, attempt: Option<Attempt>)

  /** The countdown set from a type byte: the type's payload length, or 0 when
      the code is not registered. */
  function PayloadCountdown(code: byte): (n: nat)
    ensures FromByte(code).Some? ==> n == DataLen(FromByte(code).value)
    ensures FromByte(code).None? ==> n == 0
    ensures n <= MAX_DATA_LENGTH
  {
    match FromByte(code)
    case Some(t) => DescriptorBounds(t); DataLen(t)
    case None => 0
  }

  /** One received byte, by state. In ReadingData with nothing left to read (the
      type code was unknown) the byte moves the parser to ReadingFooter without
      being stored. The byte that ends ReadingFooter is stored whatever it is,
      and the whole buffer is handed to `_parse_frame`. */
  function Step(p: Parser, b: byte): (r: StepResult)
    ensures Inv(p) ==> Inv(r.next)
    ensures p.buff <= r.next.buff && |r.next.buff| <= |p.buff| + 1
    ensures r.attempt.Some? <==> p.state == ReadingFooter
    ensures r.attempt.Some? ==>
              r.next.state == Idle && r.next.bytesLeft == 0
              && r.attempt.value == Attempt(r.next.buff, ParseFrame(r.next.buff))
  {
    match p.state
    case Idle =>
      if b == START_BYTE then StepResult(Parser(p.buff + [b], 1, ReadingHeader), None)
      else StepResult(p, None)
    case ReadingHeader =>
      StepResult(Parser(p.buff + [b], PayloadCountdown(b), ReadingData), None)
    case ReadingData =>
      if p.bytesLeft == 0 then StepResult(Parser(p.buff, 1, ReadingFooter), None)
      else if p.bytesLeft == 1 then StepResult(Parser(p.buff + [b], 1, ReadingFooter), None)
      else StepResult(Parser(p.buff + [b], p.bytesLeft - 1, ReadingData), None)
    case ReadingFooter =>
      var frame := p.buff + [b];
      StepResult(Parser(frame, 0, Idle), Some(Attempt(frame, ParseFrame(frame))))
  }

  /** Idle skips every byte but the start byte, which it stores after whatever
      the buffer already holds. */
  lemma IdleBehaviour(p: Parser, b: byte)
    requires p.state == Idle
    ensures b != START_BYTE ==> Step(p, b) == StepResult(p, None)
    ensures b == START_BYTE ==>
              Step(p, b) == StepResult(Parser(p.buff + [START_BYTE], 1, ReadingHeader), None)
  {
  }

  // ---------------------------------------------------------------------------
  // A received chunk

  /** The outcome of a chunk: the parser afterwards and every `_parse_frame`
      call made, in order. */
  datatype FeedResult = FeedResult(parser: Parser, attempts: seq<Attempt>)

  /** The error raised by the last of some attempts, if it failed. */
  function Raised(attempts: seq<Attempt>): Option<Error>
  {
    if |attempts| > 0 && attempts[|attempts| - 1].outcome.Err?
    then Some(attempts[|attempts| - 1].outcome.error)
    else None
  }

  /** The exception that left `io_bytes_received`, if any. */
  function Escaped(r: FeedResult): Option<Error>
  {
    Raised(r.attempts)
  }

  /** `io_bytes_received`: each byte in turn; an error raised by `_parse_frame`
      leaves the loop, so the bytes after it are never looked at. */
  function Feed(p: Parser, rx: seq<byte>): (r: FeedResult)
    ensures |r.attempts| <= |rx|
    decreases |rx|
  {
    if rx == [] then FeedResult(p, [])
    else
      var s := Step(p, rx[0]);
      match s.attempt
      case None => Feed(s.next, rx[1..])
      case Some(a) =>
        if a.outcome.Err? then FeedResult(s.next, [a])
        else
          var rest := Feed(s.next, rx[1..]);
          FeedResult(rest.parser, [a] + rest.attempts)
  }

  /** The invariant holds after every chunk, and the buffer only ever grows. */
  lemma {:induction false} FeedInv(p: Parser, rx: seq<byte>)
    requires Inv(p)
    ensures Inv(Feed(p, rx).parser) && p.buff <= Feed(p, rx).parser.buff
    decreases |rx|
  {
    if rx != [] {
      var s := Step(p, rx[0]);
      FeedInv(s.next, rx[1..]);
    }
  }

  /** Every attempt but the last succeeded. */
  predicate OkBeforeLast(attempts: seq<Attempt>)
  {
    forall i :: 0 <= i < |attempts| - 1 ==> attempts[i].outcome.Ok?
  }

  /** A successful attempt in front of some attempts. */
  lemma ConsAttempt(a: Attempt, rest: seq<Attempt>)
    requires a.outcome.Ok?
    ensures OkBeforeLast(rest) ==> OkBeforeLast([a] + rest)
    ensures Raised([a] + rest) == Raised(rest)
    ensures |rest| > 0 ==> ([a] + rest)[|rest|] == rest[|rest| - 1]
  {
    if OkBeforeLast(rest) {
      forall i | 0 <= i < |[a] + rest| - 1 ensures ([a] + rest)[i].outcome.Ok? {
        if i > 0 {
          assert ([a] + rest)[i] == rest[i - 1];
        }
      }
    }
  }

  /** Processing stops at the first failed attempt: every attempt but the last
      succeeded, and when the last one raised, the parser is left Idle holding
      exactly the buffer that was handed to `_parse_frame`. */
  lemma {:induction false} FeedStopsAtFirstError(p: Parser, rx: seq<byte>)
    ensures var r := Feed(p, rx);
            OkBeforeLast(r.attempts)
            && (Escaped(r).Some? ==>
                  r.parser.state == Idle && r.parser.buff == r.attempts[|r.attempts| - 1].frame)
    decreases |rx|
  {
    if rx != [] {
      var s := Step(p, rx[0]);
      match s.attempt
      case None =>
        assert Feed(p, rx) == Feed(s.next, rx[1..]);
        FeedStopsAtFirstError(s.next, rx[1..]);
      case Some(a) =>
        if a.outcome.Err? {
          assert Feed(p, rx) == FeedResult(s.next, [a]);
        } else {
          var rest := Feed(s.next, rx[1..]);
          assert Feed(p, rx) == FeedResult(rest.parser, [a] + rest.attempts);
          FeedStopsAtFirstError(s.next, rx[1..]);
          ConsAttempt(a, rest.attempts);
        }
    }
  }

  /** The callbacks the attempts fired, in order. */
  function Fired(attempts: seq<Attempt>): seq<Callback>
  {
    if attempts == [] then []
    else
      (match attempts[0].outcome
       case Ok(Some(cb)) => [cb]
       case _ => [])
      + Fired(attempts[1..])
  }

  lemma {:induction false} FiredAppend(a: seq<Attempt>, b: seq<Attempt>)
    ensures Fired(a + b) == Fired(a) + Fired(b)
  {
    if a != [] {
      assert (a + b)[1..] == a[1..] + b;
      FiredAppend(a[1..], b);
    } else {
      assert a + b == b;
    }
  }

  // Sequence identities, stated apart so that proofs about `Feed` need not
  // derive them by extensionality.

  lemma ConcatAssoc<T>(a: seq<T>, b: seq<T>, c: seq<T>)
    ensures a + b + c == a + (b + c)
  {
  }

  lemma ConcatEmpty<T>(a: seq<T>)
    ensures [] + a == a && a + [] == a
  {
  }

  /** A chunk of one byte is one step. */
  lemma FeedOne(p: Parser, b: byte)
    ensures Feed(p, [b]) == FeedResult(Step(p, b).next,
                                       if Step(p, b).attempt.Some? then [Step(p, b).attempt.value] else [])
  {
    assert [b][1..] == [];
  }

  lemma PrependSuccess(att: Attempt, rest: FeedResult, more: seq<Attempt>)
    requires att.outcome.Ok?
    ensures Escaped(FeedResult(rest.parser, [att] + rest.attempts)) == Escaped(rest)
    ensures [att] + rest.attempts + more == [att] + (rest.attempts + more)
  {
  }

  /** Feeding two chunks one after the other is feeding their concatenation,
      unless the first chunk raised: then the second is never looked at. */
  lemma {:induction false} FeedAppend(p: Parser, a: seq<byte>, b: seq<byte>)
    ensures Escaped(Feed(p, a)).Some? ==> Feed(p, a + b) == Feed(p, a)
    ensures Escaped(Feed(p, a)).None? ==>
              Feed(p, a + b) == FeedResult(Feed(Feed(p, a).parser, b).parser,
                                           Feed(p, a).attempts + Feed(Feed(p, a).parser, b).attempts)
    decreases |a|
  {
    if a == [] {
      assert a + b == b;
    } else {
      assert (a + b)[0] == a[0] && (a + b)[1..] == a[1..] + b;
      var s := Step(p, a[0]);
      FeedAppend(s.next, a[1..], b);
      var rest := Feed(s.next, a[1..]);
      var restB := Feed(s.next, a[1..] + b);
      match s.attempt
      case None =>
        assert Feed(p, a) == rest;
        assert Feed(p, a + b) == restB;
      case Some(att) =>
        if att.outcome.Err? {
          assert Feed(p, a) == FeedResult(s.next, [att]);
          assert Feed(p, a + b) == FeedResult(s.next, [att]);
        } else {
          assert Feed(p, a) == FeedResult(rest.parser, [att] + rest.attempts);
          assert Feed(p, a + b) == FeedResult(restB.parser, [att] + restB.attempts);
          PrependSuccess(att, rest, Feed(rest.parser, b).attempts);
        }
    }
  }

  /** Line noise before a start byte is dropped without a trace. */
  lemma {:induction false} NoiseSkipped(p: Parser, noise: seq<byte>)
    requires p.state == Idle
    requires forall i :: 0 <= i < |noise| ==> noise[i] != START_BYTE
    ensures Feed(p, noise) == FeedResult(p, [])
    decreases |noise|
  {
    if noise != [] {
      NoiseSkipped(p, noise[1..]);
    }
  }

  /** In ReadingData with k > 0 bytes to go, the next k bytes are stored
      verbatim and the parser waits for the footer. */
  lemma {:induction false} PayloadStored(p: Parser, d: seq<byte>)
    requires p.state == ReadingData && p.bytesLeft == |d| > 0
    ensures Feed(p, d) == FeedResult(Parser(p.buff + d, 1, ReadingFooter), [])
    decreases |d|
  {
    var s := Step(p, d[0]);
    if |d| > 1 {
      PayloadStored(s.next, d[1..]);
      assert s.next.buff + d[1..] == p.buff + d;
    } else {
      assert d == [d[0]];
    }
  }

  /** The attempts a step adds. */
  function StepAttempts(s: StepResult): (r: seq<Attempt>)
    ensures |r| <= 1
  {
    if s.attempt.Some? then [s.attempt.value] else []
  }

  /** One more byte after a chunk that raised nothing. */
  lemma FeedSnoc(p: Parser, a: seq<byte>, b: byte)
    requires Escaped(Feed(p, a)).None?
    ensures Feed(p, a + [b]) == FeedResult(Step(Feed(p, a).parser, b).next,
                                           Feed(p, a).attempts + StepAttempts(Step(Feed(p, a).parser, b)))
  {
    FeedAppend(p, a, [b]);
    FeedOne(Feed(p, a).parser, b);
  }

  /** The start byte and a type byte, from Idle: both stored, and the parser
      reads as many payload bytes as the type code announces. */
  lemma HeaderReceived(p: Parser, code: byte)
    requires p.state == Idle
    ensures Feed(p, [START_BYTE, code])
            == FeedResult(Parser(p.buff + [START_BYTE, code], PayloadCountdown(code), ReadingData), [])
  {
    FeedOne(p, START_BYTE);
    FeedSnoc(p, [START_BYTE], code);
    assert [START_BYTE] + [code] == [START_BYTE, code];
    assert p.buff + [START_BYTE] + [code] == p.buff + [START_BYTE, code];
  }

  /** How a chunk splits around its `i`-th byte. */
  lemma SplitAt(rx: seq<byte>, i: nat)
    requires i < |rx|
    ensures rx[..i] + [rx[i]] == rx[..i + 1]
    ensures rx[..i] + [rx[i]] + rx[i + 1..] == rx
  {
    assert rx[..i + 1] + rx[i + 1..] == rx;
  }

  /** One more byte `b` after a prefix `a` that raised nothing: the step's
      attempt, if any, is added; if it raised, whatever `tail` follows
      changes nothing. */
  lemma FeedPrefixStep(p: Parser, a: seq<byte>, b: byte, tail: seq<byte>)
    requires Escaped(Feed(p, a)).None?
    ensures var done := Feed(p, a);
            var s := Step(done.parser, b);
            Feed(p, a + [b]) == FeedResult(s.next, done.attempts + StepAttempts(s))
            && Fired(Feed(p, a + [b]).attempts) == Fired(done.attempts) + Fired(StepAttempts(s))
            && Escaped(Feed(p, a + [b])) == Raised(StepAttempts(s))
            && (Raised(StepAttempts(s)).Some? ==> Feed(p, a + [b] + tail) == Feed(p, a + [b]))
  {
    var done := Feed(p, a);
    var s := Step(done.parser, b);
    FeedSnoc(p, a, b);
    FiredAppend(done.attempts, StepAttempts(s));
    if StepAttempts(s) == [] {
      assert done.attempts + [] == done.attempts;
    }
    FeedAppend(p, a + [b], tail);
  }

  /** The start byte, a registered type code and as many payload bytes as it
      announces are stored, and the parser waits for the footer. */
  lemma HeaderAndPayload(p: Parser, t: MessageType, d: seq<byte>, header: seq<byte>)
    requires p.state == Idle && |d| == DataLen(t) && header == [START_BYTE, Code(t)]
    ensures Feed(p, header + d) == FeedResult(Parser(p.buff + header + d, 1, ReadingFooter), [])
  {
    var p2 := Parser(p.buff + header, DataLen(t), ReadingData);
    assert Feed(p, header) == FeedResult(p2, []) by {
      FromByteToBytes(t);
      HeaderReceived(p, Code(t));
    }
    DescriptorBounds(t);
    PayloadStored(p2, d);
    FeedAppend(p, header, d);
  }

  /** A frame of a registered type received from Idle: exactly its
      `3 + data_len` bytes are appended to the buffer, `_parse_frame` is called
      once, on the last byte, with the whole buffer, and the parser is Idle
      again. The last byte is taken as the footer whatever its value. */
  lemma {:induction false} FrameReceived(p: Parser, t: MessageType, d: seq<byte>, footer: byte)
    requires p.state == Idle && |d| == DataLen(t)
    ensures var frame := [START_BYTE, Code(t)] + d + [footer];
            var buff := p.buff + frame;
            |frame| == 3 + DataLen(t)
            && Feed(p, frame) == FeedResult(Parser(buff, 0, Idle), [Attempt(buff, ParseFrame(buff))])
  {
    var header := [START_BYTE, Code(t)];
    HeaderAndPayload(p, t, d, header);
    FooterCompletes(p, header + d, p.buff + header + d, footer);
    ConcatAssoc(p.buff, header + d, [footer]);
    ConcatAssoc(p.buff, header, d);
  }

  /** With the parser waiting for the footer, the next byte completes the
      attempt: the whole buffer is handed to `_parse_frame`. */
  lemma FooterCompletes(p: Parser, pre: seq<byte>, stored: seq<byte>, footer: byte)
    requires Feed(p, pre) == FeedResult(Parser(stored, 1, ReadingFooter), [])
    ensures var buff := stored + [footer];
            Feed(p, pre + [footer]) == FeedResult(Parser(buff, 0, Idle), [Attempt(buff, ParseFrame(buff))])
  {
    var buff := stored + [footer];
    var att := Attempt(buff, ParseFrame(buff));
    var s := Step(Parser(stored, 1, ReadingFooter), footer);
    assert s == StepResult(Parser(buff, 0, Idle), Some(att));
    assert StepAttempts(s) == [att];
    ConcatEmpty([att]);
    FeedSnoc(p, pre, footer);
  }

  /** An unregistered type code makes the parser expect no payload: the byte
      after it only moves the parser to ReadingFooter and is not stored, and the
      byte after that is stored as the footer and triggers the parse. */
  lemma {:induction false} UnknownTypeShiftsFooter(p: Parser, code: byte, skipped: byte, footer: byte)
    requires p.state == Idle && FromByte(code).None?
    ensures Feed(p, [START_BYTE, code, skipped]).parser
            == Parser(p.buff + [START_BYTE, code], 1, ReadingFooter)
    ensures var buff := p.buff + [START_BYTE, code, footer];
            Feed(p, [START_BYTE, code, skipped, footer])
            == FeedResult(Parser(buff, 0, Idle), [Attempt(buff, ParseFrame(buff))])
  {
    var p2 := Parser(p.buff + [START_BYTE, code], 0, ReadingData);
    var p3 := Parser(p2.buff, 1, ReadingFooter);
    var buff := p3.buff + [footer];
    assert Feed(p, [START_BYTE, code]) == FeedResult(p2, []) by {
      HeaderReceived(p, code);
    }
    assert Feed(p, [START_BYTE, code, skipped]) == FeedResult(p3, []) by {
      FeedSnoc(p, [START_BYTE, code], skipped);
      assert [START_BYTE, code] + [skipped] == [START_BYTE, code, skipped];
    }
    assert Feed(p, [START_BYTE, code, skipped, footer])
        == FeedResult(Parser(buff, 0, Idle), [Attempt(buff, ParseFrame(buff))]) by {
      FeedSnoc(p, [START_BYTE, code, skipped], footer);
      assert [START_BYTE, code, skipped] + [footer] == [START_BYTE, code, skipped, footer];
    }
    assert buff == p.buff + [START_BYTE, code, footer];
  }

  // ---------------------------------------------------------------------------
  // The receive buffer is never cleared

  /** `base` is the buffer length at the end of an earlier attempt, and that
      attempt's bytes already make the buffer too long for the type in byte 1.
      The counts say how many bytes the attempt in progress has stored. */
  predicate AfterAttempt(p: Parser, base: nat)
  {
    3 <= base <= |p.buff|
    && (FromByte(p.buff[1]).Some? ==> base >= DataLen(FromByte(p.buff[1]).value) + 3)
    && (p.state == Idle ==> |p.buff| == base)
    && (p.state == ReadingHeader ==> |p.buff| == base + 1)
    && (p.state == ReadingData || p.state == ReadingFooter ==> |p.buff| >= base + 2)
  }

  /** Once an attempt has completed, every later one fails: the buffer handed to
      `_parse_frame` still starts with the earlier frame, so it either ends in
      the wrong byte, or its type byte is unknown, or its payload is too long. */
  lemma StepAfterAttempt(p: Parser, base: nat, b: byte)
    requires Inv(p) && AfterAttempt(p, base)
    ensures AfterAttempt(Step(p, b).next,
                         if p.state == ReadingFooter then |p.buff| + 1 else base)
    ensures Step(p, b).attempt.Some? ==> Step(p, b).attempt.value.outcome.Err?
  {
    if p.state == ReadingFooter {
      var frame := p.buff + [b];
      assert frame[1] == p.buff[1] && frame[0] == START_BYTE;
      if frame[|frame| - 1] == STOP_BYTE && FromByte(frame[1]).Some? {
        var t := FromByte(frame[1]).value;
        assert |frame[HEADER_LENGTH .. |frame| - FOOTER_LENGTH]| == |frame| - 3 > DataLen(t);
        assert CheckFrame(frame) == Err(InvalidPayloadLength);
      }
      assert CheckFrame(frame).Err?;
    }
  }

  /** Some attempt has been completed and its bytes are still in the buffer. */
  ghost predicate Spent(p: Parser)
  {
    Inv(p) && exists base: nat :: AfterAttempt(p, base)
  }

  lemma {:induction false} FeedAfterAttempt(p: Parser, base: nat, rx: seq<byte>)
    requires Inv(p) && AfterAttempt(p, base)
    ensures forall i :: 0 <= i < |Feed(p, rx).attempts| ==> Feed(p, rx).attempts[i].outcome.Err?
    ensures |Feed(p, rx).attempts| <= 1
    ensures Fired(Feed(p, rx).attempts) == []
    ensures Spent(Feed(p, rx).parser)
    decreases |rx|
  {
    if rx == [] {
      assert Feed(p, rx) == FeedResult(p, []);
      assert AfterAttempt(p, base);
    } else {
      var s := Step(p, rx[0]);
      var next := if p.state == ReadingFooter then |p.buff| + 1 else base;
      StepAfterAttempt(p, base, rx[0]);
      match s.attempt
      case None =>
        assert Feed(p, rx) == Feed(s.next, rx[1..]);
        FeedAfterAttempt(s.next, next, rx[1..]);
      case Some(a) =>
        assert a.outcome.Err?;
        assert Feed(p, rx) == FeedResult(s.next, [a]);
        assert AfterAttempt(s.next, next);
    }
  }

  /** A spent parser stays spent through any chunk; the chunk makes at most
      one call of `_parse_frame`, that call raises, and nothing fires. */
  lemma SpentFeed(p: Parser, rx: seq<byte>)
    requires Spent(p)
    ensures Spent(Feed(p, rx).parser)
    ensures forall i :: 0 <= i < |Feed(p, rx).attempts| ==> Feed(p, rx).attempts[i].outcome.Err?
    ensures Fired(Feed(p, rx).attempts) == []
  {
    var base: nat :| AfterAttempt(p, base);
    FeedAfterAttempt(p, base, rx);
  }

  /** From a fresh parser, only the first frame received can ever fire a
      callback: every later `_parse_frame` call raises. */
  lemma OnlyFirstFrameFires(t: MessageType, d: seq<byte>, footer: byte, rx: seq<byte>)
    requires |d| == DataLen(t)
    ensures var f1 := [START_BYTE, Code(t)] + d + [footer];
            var r := Feed(Fresh, f1 + rx);
            |r.attempts| >= 1 && r.attempts[0] == Attempt(f1, ParseFrame(f1))
            && (forall i :: 1 <= i < |r.attempts| ==> r.attempts[i].outcome.Err?)
            && Fired(r.attempts) == Fired([Attempt(f1, ParseFrame(f1))])
  {
    var f1 := [START_BYTE, Code(t)] + d + [footer];
    var a1 := Attempt(f1, ParseFrame(f1));
    FrameReceived(Fresh, t, d, footer);
    ConcatEmpty(f1);
    var q := Parser(f1, 0, Idle);
    assert Feed(Fresh, f1) == FeedResult(q, [a1]);
    FeedAppend(Fresh, f1, rx);
    if a1.outcome.Ok? {
      AfterFirstFrame(t, d, footer);
      FeedAfterAttempt(q, |f1|, rx);
      FiredAppend([a1], Feed(q, rx).attempts);
    }
  }

  /** Once a frame of a registered type has been parsed, the parser is past an
      attempt in the sense of `AfterAttempt`. */
  lemma AfterFirstFrame(t: MessageType, d: seq<byte>, footer: byte)
    requires |d| == DataLen(t)
    ensures var f1 := [START_BYTE, Code(t)] + d + [footer];
            Inv(Parser(f1, 0, Idle)) && AfterAttempt(Parser(f1, 0, Idle), |f1|)
  {
    var f1 := [START_BYTE, Code(t)] + d + [footer];
    FromByteToBytes(t);
    assert f1[0] == START_BYTE && FromByte(f1[1]) == Some(t);
  }

  // ---------------------------------------------------------------------------
  // The driver's whole life: only its first attempt can fire

  /** No attempt has been completed yet: the buffer holds only the frame in
      progress, and the countdown agrees with the type byte stored so far. */
  predicate Pristine(p: Parser)
  {
    Inv(p)
    && (p.state == Idle ==> p.buff == [])
    && (p.state == ReadingHeader ==> |p.buff| == 1)
    && (p.state == ReadingData ==>
          |p.buff| >= 2 && |p.buff| + p.bytesLeft == PayloadCountdown(p.buff[1]) + 2)
    && (p.state == ReadingFooter ==>
          |p.buff| >= 2 && |p.buff| == PayloadCountdown(p.buff[1]) + 2)
  }

  /** A step of a pristine parser keeps it pristine, or completes the first
      attempt; the buffer then holds exactly that attempt's bytes, which is
      already too long for any later frame of the type in byte 1. */
  lemma PristineStep(p: Parser, b: byte)
    requires Pristine(p)
    ensures Step(p, b).attempt.None? ==> Pristine(Step(p, b).next)
    ensures Step(p, b).attempt.Some? ==> AfterAttempt(Step(p, b).next, |Step(p, b).next.buff|)
  {
    if p.state != Idle && p.state != ReadingHeader {
      assert (p.buff + [b])[1] == p.buff[1];
    }
  }

  /** Every call but the first raised, and only the first can have fired. */
  predicate OnlyFirstMayFire(attempts: seq<Attempt>)
  {
    (forall i :: 1 <= i < |attempts| ==> attempts[i].outcome.Err?)
    && (attempts != [] ==> Fired(attempts) == Fired([attempts[0]]))
  }

  lemma FirstThenFailures(a: Attempt, rest: seq<Attempt>)
    requires forall i :: 0 <= i < |rest| ==> rest[i].outcome.Err?
    requires Fired(rest) == []
    ensures OnlyFirstMayFire([a] + rest)
  {
    FiredAppend([a], rest);
    ConcatEmpty(Fired([a]));
    forall i | 1 <= i < |[a] + rest| ensures ([a] + rest)[i].outcome.Err? {
      assert ([a] + rest)[i] == rest[i - 1];
    }
  }

  /** From a parser that has completed no attempt, a chunk either completes none
      and leaves it pristine, or completes a first attempt, after which every
      further call in the chunk raises and the parser is spent. */
  lemma {:induction false} PristineFeed(p: Parser, rx: seq<byte>)
    requires Pristine(p)
    ensures var r := Feed(p, rx);
            (r.attempts == [] && Pristine(r.parser))
            || (r.attempts != [] && Spent(r.parser) && OnlyFirstMayFire(r.attempts))
    decreases |rx|
  {
    if rx == [] {
      assert Feed(p, rx) == FeedResult(p, []);
    } else {
      var s := Step(p, rx[0]);
      PristineStep(p, rx[0]);
      match s.attempt
      case None =>
        assert Feed(p, rx) == Feed(s.next, rx[1..]);
        PristineFeed(s.next, rx[1..]);
      case Some(a) =>
        assert AfterAttempt(s.next, |s.next.buff|);
        assert Spent(s.next);
        if a.outcome.Err? {
          assert Feed(p, rx) == FeedResult(s.next, [a]);
        } else {
          var rest := Feed(s.next, rx[1..]);
          assert Feed(p, rx) == FeedResult(rest.parser, [a] + rest.attempts);
          SpentFeed(s.next, rx[1..]);
          FirstThenFailures(a, rest.attempts);
        }
    }
  }

  /** The driver's life as a run of `io_bytes_received` calls, one per chunk:
      each call starts from the state the previous one left, whether or not
      that one raised. The result holds every `_parse_frame` call, in order. */
  function FeedChunks(p: Parser, chunks: seq<seq<byte>>): FeedResult
    decreases |chunks|
  {
    if chunks == [] then FeedResult(p, [])
    else
      var r := Feed(p, chunks[0]);
      var rest := FeedChunks(r.parser, chunks[1..]);
      FeedResult(rest.parser, r.attempts + rest.attempts)
  }

  lemma {:induction false} SpentChunks(p: Parser, chunks: seq<seq<byte>>)
    requires Spent(p)
    ensures forall i :: 0 <= i < |FeedChunks(p, chunks).attempts| ==> FeedChunks(p, chunks).attempts[i].outcome.Err?
    ensures Fired(FeedChunks(p, chunks).attempts) == []
    decreases |chunks|
  {
    if chunks != [] {
      var r := Feed(p, chunks[0]);
      var rest := FeedChunks(r.parser, chunks[1..]);
      assert FeedChunks(p, chunks) == FeedResult(rest.parser, r.attempts + rest.attempts);
      SpentFeed(p, chunks[0]);
      SpentChunks(r.parser, chunks[1..]);
      FiredAppend(r.attempts, rest.attempts);
      ConcatEmpty<Callback>([]);
    }
  }

  lemma {:induction false} PristineChunks(p: Parser, chunks: seq<seq<byte>>)
    requires Pristine(p)
    ensures OnlyFirstMayFire(FeedChunks(p, chunks).attempts)
    decreases |chunks|
  {
    if chunks != [] {
      var r := Feed(p, chunks[0]);
      var rest := FeedChunks(r.parser, chunks[1..]);
      assert FeedChunks(p, chunks) == FeedResult(rest.parser, r.attempts + rest.attempts);
      PristineFeed(p, chunks[0]);
      if r.attempts == [] {
        PristineChunks(r.parser, chunks[1..]);
        ConcatEmpty(rest.attempts);
      } else {
        SpentChunks(r.parser, chunks[1..]);
        LaterChunksFail(r.attempts, rest.attempts);
      }
    }
  }

  lemma LaterChunksFail(first: seq<Attempt>, later: seq<Attempt>)
    requires first != [] && OnlyFirstMayFire(first)
    requires forall i :: 0 <= i < |later| ==> later[i].outcome.Err?
    requires Fired(later) == []
    ensures OnlyFirstMayFire(first + later)
  {
    FiredAppend(first, later);
    ConcatEmpty(Fired(first));
    assert (first + later)[0] == first[0];
  }

  /** Over the driver's whole life, from construction and across any number of
      `io_bytes_received` calls, every `_parse_frame` call after the first
      raises, so at most one callback ever fires: the first call's. */
  lemma OnlyFirstAttemptFires(chunks: seq<seq<byte>>)
    ensures var atts := FeedChunks(Fresh, chunks).attempts;
            (forall i :: 1 <= i < |atts| ==> atts[i].outcome.Err?)
            && |Fired(atts)| <= 1
            && (atts != [] ==> Fired(atts) == Fired([atts[0]]))
  {
    var atts := FeedChunks(Fresh, chunks).attempts;
    PristineChunks(Fresh, chunks);
    if atts != [] {
      FiredOne(atts[0]);
    }
  }

  /** One call fires at most one callback. */
  lemma FiredOne(a: Attempt)
    ensures |Fired([a])| <= 1
  {
    assert [a][1..] == [];
  }

  // ---------------------------------------------------------------------------
  // Concrete byte streams

  /** Resynchronisation before the first frame: line noise, then a frame built
      by `_format_uart`, fires exactly what dispatching that frame fires. */
  lemma NoiseThenFirstFrame(noise: seq<byte>, t: MessageType, d: seq<byte>)
    requires forall i :: 0 <= i < |noise| ==> noise[i] != START_BYTE
    requires |d| == DataLen(t)
    ensures var frame := [START_BYTE, Code(t)] + d + [STOP_BYTE];
            FormatUart(t, d) == Ok(frame)
            && Feed(Fresh, noise + frame)
               == FeedResult(Parser(frame, 0, Idle), [Attempt(frame, Dispatch(t, d))])
  {
    var frame := [START_BYTE, Code(t)] + d + [STOP_BYTE];
    var a := Attempt(frame, Dispatch(t, d));
    FormatUartLayout(t, d);
    FrameFromFresh(t, d, frame);
    NoiseSkipped(Fresh, noise);
    FeedAppend(Fresh, noise, frame);
    ConcatEmpty([a]);
  }

  /** A well-formed frame received by a fresh parser is dispatched. */
  lemma FrameFromFresh(t: MessageType, d: seq<byte>, frame: seq<byte>)
    requires |d| == DataLen(t) && frame == [START_BYTE, Code(t)] + d + [STOP_BYTE]
    ensures Feed(Fresh, frame) == FeedResult(Parser(frame, 0, Idle), [Attempt(frame, Dispatch(t, d))])
  {
    FrameReceived(Fresh, t, d, STOP_BYTE);
    ConcatEmpty(frame);
    FormatUartLayout(t, d);
    FormatThenParse(t, d);
  }

  /** Two bytes of noise, then an RFID frame: exactly one `cb_rfid_received`
      with "deadbeef", nothing raised. */
  lemma NoiseThenRfidFrame(rx: seq<byte>)
    requires rx == [0xFF, 0xFF, 0x8A, 0x84, 0xDE, 0xAD, 0xBE, 0xEF, 0x51]
    ensures Fired(Feed(Fresh, rx).attempts) == [RfidReceived("deadbeef")]
    ensures Escaped(Feed(Fresh, rx)).None?
  {
    var a := Attempt(rx[2..], Ok(Some(RfidReceived("deadbeef"))));
    NoiseThenRfidFeed(rx);
    assert Fired([a]) == [RfidReceived("deadbeef")] + Fired([]);
  }

  lemma NoiseThenRfidFeed(rx: seq<byte>)
    requires rx == [0xFF, 0xFF, 0x8A, 0x84, 0xDE, 0xAD, 0xBE, 0xEF, 0x51]
    ensures Feed(Fresh, rx)
            == FeedResult(Parser(rx[2..], 0, Idle), [Attempt(rx[2..], Ok(Some(RfidReceived("deadbeef"))))])
  {
    RfidStreamParts(rx);
    NoiseThenFirstFrame(rx[..2], RfidValue, rx[4..8]);
    RfidDeadbeef(rx[4..8]);
  }

  lemma RfidStreamParts(rx: seq<byte>)
    requires rx == [0xFF, 0xFF, 0x8A, 0x84, 0xDE, 0xAD, 0xBE, 0xEF, 0x51]
    ensures rx[..2] + rx[2..] == rx
    ensures forall i :: 0 <= i < 2 ==> rx[..2][i] != START_BYTE
    ensures |rx[4..8]| == DataLen(RfidValue)
    ensures rx[2..] == [START_BYTE, Code(RfidValue)] + rx[4..8] + [STOP_BYTE]
    ensures rx[4..8] == [0xDE, 0xAD, 0xBE, 0xEF]
  {
    assert DataLen(RfidValue) == 4 && Code(RfidValue) == 0x84;
  }

  lemma RfidDeadbeef(d: seq<byte>)
    requires d == [0xDE, 0xAD, 0xBE, 0xEF]
    ensures Dispatch(RfidValue, d) == Ok(Some(RfidReceived("deadbeef")))
  {
    HexDeadbeef();
  }

  lemma HexDeadbeef()
    ensures Hex([0xDE, 0xAD, 0xBE, 0xEF]) == "deadbeef"
  {
    HexCons(0xDE, [0xAD, 0xBE, 0xEF]);
    HexCons(0xAD, [0xBE, 0xEF]);
    HexCons(0xBE, [0xEF]);
    HexCons(0xEF, []);
  }

  /** An unknown type code followed by a valid battery frame: the battery
      frame's start byte is taken as the footer, `_parse_frame` raises
      InvalidFrameEnd, and the battery frame is lost with the rest of the chunk. */
  lemma UnknownTypeSwallowsNextFrame(rx: seq<byte>)
    requires rx == [0x8A, 0x99, 0x51, 0x8A, 0x81, 0x40, 0x51]
    ensures Feed(Fresh, rx)
            == FeedResult(Parser([0x8A, 0x99, 0x8A], 0, Idle),
                          [Attempt([0x8A, 0x99, 0x8A], Err(InvalidFrameEnd))])
  {
    var r := FeedResult(Parser([0x8A, 0x99, 0x8A], 0, Idle),
                        [Attempt([0x8A, 0x99, 0x8A], Err(InvalidFrameEnd))]);
    UnknownStreamParts(rx);
    UnknownHeadRaises(rx[..4]);
    EscapeDropsTail(Fresh, rx[..4], rx[4..], r);
  }

  lemma UnknownHeadRaises(head: seq<byte>)
    requires head == [START_BYTE, 0x99, 0x51, 0x8A]
    ensures Feed(Fresh, head) == FeedResult(Parser([0x8A, 0x99, 0x8A], 0, Idle),
                                            [Attempt([0x8A, 0x99, 0x8A], Err(InvalidFrameEnd))])
  {
    var buff: seq<byte> := [0x8A, 0x99, 0x8A];
    assert Fresh.buff + [START_BYTE, 0x99, 0x8A] == buff;
    assert CheckFrame(buff) == Err(InvalidFrameEnd);
    FromByteKnown(0x99);
    UnknownTypeShiftsFooter(Fresh, 0x99, 0x51, 0x8A);
  }

  /** Once a chunk's head has raised, its tail changes nothing. */
  lemma EscapeDropsTail(p: Parser, head: seq<byte>, tail: seq<byte>, r: FeedResult)
    requires Feed(p, head) == r && Escaped(r).Some?
    ensures Feed(p, head + tail) == r
  {
    FeedAppend(p, head, tail);
  }

  lemma UnknownStreamParts(rx: seq<byte>)
    requires rx == [0x8A, 0x99, 0x51, 0x8A, 0x81, 0x40, 0x51]
    ensures rx[..4] + rx[4..] == rx
    ensures rx[..4] == [START_BYTE, 0x99, 0x51, 0x8A]
  {
  }

  /** Two valid battery frames in one chunk: the first fires, the second is
      parsed together with the first and raises InvalidPayloadLength. */
  lemma SecondBatteryFrameRejected(rx: seq<byte>)
    requires rx == [0x8A, 0x81, 0x40, 0x51, 0x8A, 0x81, 0x41, 0x51]
    ensures Feed(Fresh, rx).attempts
            == [Attempt(rx[..4], Ok(Some(BatteryLevelChanged(0x40)))),
                Attempt(rx, Err(InvalidPayloadLength))]
  {
    var f1 := rx[..4];
    var f2 := rx[4..];
    assert f1 + f2 == rx;
    FirstBatteryFrame(f1);
    BatteryFrameAfterAnother(f1, f2);
    FeedAppend(Fresh, f1, f2);
  }

  lemma FirstBatteryFrame(f1: seq<byte>)
    requires f1 == [0x8A, 0x81, 0x40, 0x51]
    ensures Feed(Fresh, f1)
            == FeedResult(Parser(f1, 0, Idle), [Attempt(f1, Ok(Some(BatteryLevelChanged(0x40))))])
  {
    var d := f1[2..3];
    assert Code(BatteryLevel) == 0x81 && DataLen(BatteryLevel) == 1;
    assert f1 == [START_BYTE, Code(BatteryLevel)] + d + [STOP_BYTE];
    NoiseThenFirstFrame([], BatteryLevel, d);
    assert [] + f1 == f1;
  }

  lemma BatteryFrameAfterAnother(f1: seq<byte>, f2: seq<byte>)
    requires f1 == [0x8A, 0x81, 0x40, 0x51] && f2 == [0x8A, 0x81, 0x41, 0x51]
    ensures Feed(Parser(f1, 0, Idle), f2)
            == FeedResult(Parser(f1 + f2, 0, Idle), [Attempt(f1 + f2, Err(InvalidPayloadLength))])
  {
    var d1 := f1[2..3];
    var d2 := f2[2..3];
    assert Code(BatteryLevel) == 0x81 && DataLen(BatteryLevel) == 1;
    assert f1 == [START_BYTE, Code(BatteryLevel)] + d1 + [STOP_BYTE];
    assert f2 == [START_BYTE, Code(BatteryLevel)] + d2 + [STOP_BYTE];
    FrameReceived(Parser(f1, 0, Idle), BatteryLevel, d2, STOP_BYTE);
    assert IsFrameOf(f1, BatteryLevel, d1);
    ConcatenatedFramesRejected(f1, BatteryLevel, d1, f2);
  }
}
