/** Runs on which the connection does less than one may expect: each is a sequence of real calls. */
module Witnesses {
  import opened Bytes
  import opened Mask
  import opened Frames
  import opened Streams
  import opened FrameCodecs
  import opened Receiving
  import opened Sending
  import opened Writing
  import opened Connections

  const FIVE: bytes := [1, 2, 3, 4, 5]

  /** A Close as a client sends it. */
  function MaskedClose(): Frame {
    CloseFrameOf(None).(header := PlainHeader(ControlOp(Close), true).(mask := Some([0, 0, 0, 0])))
  }

  /** The codec's answer is the frame that is there. */
  lemma FoundIsAnswered(all: bytes, mode: ReadMode, limit: nat, r: Result<Option<Frame>, Error>, left: bytes)
    requires ReadAnswers(all, mode, limit, r, left)
    ensures NextFrame(all, mode).Found? ==> r == Ok(Some(NextFrame(all, mode).frame))
    ensures NextFrame(all, mode).TooLong? ==> r == Err(MessageTooLong(NextFrame(all, mode).size, limit)) && left == all
  {
    hide NextFrame;
  }

  /** A run that begins with a delivered frame is that frame. */
  lemma FirstFrameDecides(cfg: ReadConfig, r: ReadState, frames: seq<Frame>, last: ReadState, answer: Outcome)
    requires frames != [] && Receive(cfg, r, frames[0]).outcome.Deliver?
    ensures forall any :: !AllQuiet(cfg, r, frames, any)
    ensures EndsWithAnswer(cfg, r, frames, last, answer) ==>
      && frames == [frames[0]]
      && last == Receive(cfg, r, frames[0]).next && answer == Receive(cfg, r, frames[0]).outcome
  {
    var outcomes := Run(cfg, r, frames).1;
    assert outcomes[0] == Receive(cfg, r, frames[0]).outcome && outcomes[0] in outcomes;
    hide Receive;
    if EndsWithAnswer(cfg, r, frames, last, answer) {
      assert |frames| == 1 && frames[1..] == [];
      assert Run(cfg, Receive(cfg, r, frames[0]).next, frames[1..]).0 == Receive(cfg, r, frames[0]).next;
    }
  }

  method ReadAClose(c: WebSocketContext, stream: Stream)
    requires c.Valid() && stream !in c.Repr && c.role == Server && !c.unflushedAdditional
    requires c.frame.Unconsumed() == Encode(MaskedClose()) && c.frame.Reserved(None)
    requires c.Mode() == ReadMode(None, true, false) && c.R() == Fresh(None)
    requires c.S(stream) == Side(Active, None, [], [], []) && stream.outgoing == []
    modifies c.Repr, stream
    ensures stream.outgoing == []
    ensures c.Valid() && fresh(c.Repr - old(c.Repr)) && c.R() == Fresh(None).(state := ClosedByPeer)
    ensures c.S(stream) == Side(ClosedByPeer, Some(CloseFrameOf(None)), [], [], []) && !c.unflushedAdditional
  {
    hide Receive, NextFrame, Encode, ReadAnswers, Sound, Run, Replies, FramesRead, EndsWithAnswer, AllQuiet;
    ghost var cfg, r0 := c.Cfg(), c.R();
    assert c.frame.EffectiveMode(c.Mode()) == c.Mode();
    MaskedCloseArrives([], c.Mode());
    assert Encode(MaskedClose()) + [] == Encode(MaskedClose());
    ServerHearsClose(cfg, r0);
    var answer, frames := c.Read(stream);
    FirstFrameDecides(cfg, r0, frames, c.R(), if answer.Ok? then Deliver(answer.value) else Fail(answer.error));
    assert c.R().state == c.state;
  }

  /**
   * A server that reads a Close and flushes into a stream that blocks has its answer in the buffer and
   * nothing waiting. The next read ends the connection, and the answer never leaves the buffer.
   */
  method UndrainedServer() returns (c: WebSocketContext, stream: Stream)
    ensures c.Valid() && c.state.Terminated? && AfterClose(c.log) == Some([])
    ensures c.frame.outBuffer == Encode(CloseFrameOf(None)) != [] && stream.sent == []
  {
    hide Receive, NextFrame, ReadAnswers, Replies, Sound, Encode, AfterClose;
    var config := WebSocketConfig(0, 0, USIZE_MAX, None, None, false, None);
    c := new WebSocketContext.FromPartiallyRead(Encode(MaskedClose()), Server, config);
    stream := new Stream([], [], []);
    ReadAClose(c, stream);
    assert c.R().unusable == c.compressionUnusable;
    ghost var a := c.S(stream);
    var flushed := c.Flush(stream);
    AnswerIsBuffered(c.MaxBuffer(), a, ErrorOf(flushed), c.S(stream));
    var ended, frames := c.Read(stream);
  }

  lemma MaskedCloseArrives(tail: bytes, mode: ReadMode)
    requires mode == ReadMode(None, true, false)
    ensures NextFrame(Encode(MaskedClose()) + tail, mode) == Found(CloseFrameOf(None), |Encode(MaskedClose())|)
  {
    var w := MaskedClose();
    ReadUndoesWrite(w, tail, mode);
    assert Arrives(w, true) == CloseFrameOf(None);
  }

  lemma ServerHearsClose(cfg: ReadConfig, r: ReadState)
    requires cfg.role.Server? && r == Fresh(None)
    ensures Receive(cfg, r, CloseFrameOf(None))
         == Received(r.(state := ClosedByPeer), Deliver(CloseMessage(None)), Some(CloseFrameOf(None)))
  {
  }

  lemma AnswerIsBuffered(max: nat, a: Side, e: Option<Error>, b: Side)
    requires max == USIZE_MAX && a == Side(ClosedByPeer, Some(CloseFrameOf(None)), [], [], [])
    requires Flushed(Server, max, a, e, b) && b.sent == []
    ensures e.Some? && b == Side(ClosedByPeer, None, [CloseFrameOf(None)], Encode(CloseFrameOf(None)), [])
    ensures b.buffer != [] && AfterClose(b.log) == Some([])
  {
    var close := CloseFrameOf(None);
    var reply: seq<Frame> :| WroteFrames(Server, max, a, None, e, b, [], reply);
    assert reply == [close];
    assert EncodeAll([close]) == Encode(close) + [] == Encode(close);
    EncodeLength(close);
    assert [] + reply == reply && [close][1..] == [];
    hide EncodeAll, Encode;
    var none: bytes := [];
    assert none + none + EncodeAll(reply) == EncodeAll(reply) && none + b.buffer == b.buffer;
    assert b.log == [close] by { assert a.log + reply == reply; }
    assert b.state == ClosedByPeer;
  }

  /**
   * A buffer of eight bytes that holds a frame of seven has no room for a Close. The state moves all
   * the same, and the Close is lost.
   */
  method LostClose() returns (c: WebSocketContext, stream: Stream, r: Result<(), Error>)
    ensures c.Valid() && c.state.ClosedByUs? && AfterClose(c.log).None?
    ensures r == Err(WriteBufferFull(CloseFrameOf(None)))
    ensures forall later :: Keeps(Server, 8, c.S(stream), later) ==> AfterClose(later.log).None?
  {
    hide Receive, NextFrame, Replies, Sound, Encode, AfterClose, Keeps, OnlyPongBehind;
    var config := WebSocketConfig(0, 4, 8, None, None, false, None);
    c := new WebSocketContext.FromPartiallyRead([], Server, config);
    stream := new Stream([], [], []);
    assert c.R().state == c.state && c.R().unusable == c.compressionUnusable;
    NewSideIsInOrder();
    ghost var a := c.S(stream);
    var wrote, accepted := c.Write(stream, BinaryMessage(FIVE));
    assert c.R().state == c.state && c.R().unusable == c.compressionUnusable;
    ghost var b := c.S(stream);
    FrameIsBuffered(a, b, accepted, ErrorOf(wrote));
    r := c.Close(stream, None);
    CloseDoesNotFit(b, ErrorOf(r), c.S(stream));
  }

  lemma NewSideIsInOrder()
    ensures InOrder(8, Side(Active, None, [], [], []))
  {
  }

  lemma FrameIsBuffered(a: Side, b: Side, accepted: Option<Frame>, e: Option<Error>)
    requires a == Side(Active, None, [], [], []) && b.sent == []
    requires DataSent(Server, 8, false, None, None, a, b, Binary, FIVE, accepted, e)
    requires Step(Server, 8, a, b)
    ensures InOrder(8, b) && b.state.Active? && b.waiting.None? && |b.buffer| == 7
  {
    var f := MessageFrame(FIVE, Binary, true);
    NewSideIsInOrder();
    assert f.Len() == 7;
    assert accepted == Some(f);
    var first: seq<Frame>, reply: seq<Frame> :| WroteFrames(Server, 8, a, Some(f), e, b, first, reply);
    assert reply == [] && first == [f];
    EncodeLength(f);
    assert EncodeAll([f]) == Encode(f) + [] == Encode(f);
    hide Encode, EncodeAll;
    assert first + reply == [f];
    var none: bytes := [];
    assert none + none + EncodeAll([f]) == Encode(f) && none + b.buffer == b.buffer;
  }

  lemma CloseDoesNotFit(a: Side, e: Option<Error>, b: Side)
    requires InOrder(8, a) && a.state.Active? && |a.buffer| == 7
    requires Wrote(Server, 8, a.(state := ClosedByUs), Some(CloseFrameOf(None)), e, b)
    ensures e == Some(WriteBufferFull(CloseFrameOf(None))) && b == a.(state := ClosedByUs)
    ensures AfterClose(b.log).None?
    ensures forall later :: Keeps(Server, 8, b, later) ==> AfterClose(later.log).None?
  {
    CloseAtAFullBuffer(Server, 8, a, None, e, b);
  }

  /** The limit on frames is not applied again: refused for its size, a frame is returned by the next read. */
  method LimitIsNotAppliedAgain(stream: Stream)
    returns (codec: FrameCodec, first: Result<Option<Frame>, Error>, second: Result<Option<Frame>, Error>)
    modifies stream
    ensures first == Err(MessageTooLong(5, 3))
    ensures second == Ok(Some(MessageFrame(FIVE, Binary, true)))
  {
    hide NextFrame, ReadAnswers, Encode;
    var f := MessageFrame(FIVE, Binary, true);
    codec := new FrameCodec.FromPartiallyRead(Encode(f), 0);
    ghost var start := stream.delivered;
    first := codec.ReadFrame(stream, Some(3), false, false);
    LongFrameIsJudged(f, Since(start, stream.delivered));
    FoundIsAnswered(Encode(f) + Since(start, stream.delivered), ReadMode(Some(3), false, false), 3, first,
                    codec.Unconsumed());
    ghost var mid := stream.delivered;
    assert codec.EffectiveMode(ReadMode(Some(3), false, false)) == ReadMode(None, false, false);
    second := codec.ReadFrame(stream, Some(3), false, false);
    SinceJoins(Encode(f), start, mid, stream.delivered);
    LongFrameIsJudged(f, Since(start, stream.delivered));
    FoundIsAnswered(Encode(f) + Since(start, stream.delivered), ReadMode(None, false, false), 3, second,
                    codec.Unconsumed());
  }

  lemma LongFrameIsJudged(f: Frame, tail: bytes)
    requires f == MessageFrame(FIVE, Binary, true)
    ensures NextFrame(Encode(f) + tail, ReadMode(Some(3), false, false)) == TooLong(5)
    ensures NextFrame(Encode(f) + tail, ReadMode(None, false, false)) == Found(f, |Encode(f)|)
  {
    ReadUndoesWrite(f, tail, ReadMode(None, false, false));
    ParseUndoesFormat(f.header, 5, f.payload + tail);
    assert Encode(f) + tail == Format(f.header, 5) + (f.payload + tail);
  }

  /** The header of a frame of 100 bytes, and fourteen bytes of it. */
  function LongFrameBegun(): bytes {
    Format(PlainHeader(DataOp(Binary), true), 100) + seq(14, _ => 0)
  }

  /**
   * Behind a frame refused for its size the buffer is not enlarged. When it is full the next read finds
   * no room, and reports the end of a stream that has neither ended nor been asked.
   */
  method EndOfALiveStream() returns (codec: FrameCodec, stream: Stream,
                                     first: Result<Option<Frame>, Error>, second: Result<Option<Frame>, Error>)
    ensures first == Err(MessageTooLong(100, 50)) && second == Ok(None)
    ensures !stream.ended && stream.delivered == []
  {
    hide NextFrame, ReadAnswers, Format;
    codec := new FrameCodec.FromPartiallyRead(LongFrameBegun(), 16);
    stream := new Stream([Chunk([7])], [], []);
    LongFrameIsBegun();
    first := codec.ReadFrame(stream, Some(50), false, false);
    assert LongFrameBegun() + [] == LongFrameBegun();
    FoundIsAnswered(LongFrameBegun(), ReadMode(Some(50), false, false), 50, first, codec.Unconsumed());
    second := codec.ReadFrame(stream, Some(50), false, false);
  }

  lemma LongFrameIsBegun()
    ensures |LongFrameBegun()| == 16
    ensures NextFrame(LongFrameBegun(), ReadMode(Some(50), false, false)) == TooLong(100)
    ensures NextFrame(LongFrameBegun(), ReadMode(None, false, false)) == Starved
  {
    ParseUndoesFormat(PlainHeader(DataOp(Binary), true), 100, seq(14, _ => 0));
    hide Format, ParseHeader;
  }
}
