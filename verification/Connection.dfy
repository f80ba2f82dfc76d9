/** The connection: `WebSocketContext` of src/protocol/mod.rs, over the frame codec and the compressor. */
module Connections {
  import opened Bytes
  import opened Utf8
  import opened Mask
  import opened Frames
  import opened Streams
  import opened FrameCodecs
  import opened Assembly
  import opened Lz
  import opened Codec
  import opened DeflateSettings
  import opened Receiving
  import opened Sending
  import opened Writing

  datatype WebSocketConfig = WebSocketConfig(
    readBufferSize: nat,
    writeBufferSize: nat,
    maxWriteBufferSize: nat,
    maxMessageSize: Option<nat>,
    maxFrameSize: Option<nat>,
    acceptUnmaskedFrames: bool,
    deflate: Option<Settings>)
  {
    /** What `assert_valid` and the types demand, and what negotiation leaves of the windows. */
    predicate Valid(role: Role) {
      && writeBufferSize < maxWriteBufferSize <= USIZE_MAX
      && Limit(maxMessageSize) <= USIZE_MAX
      && (deflate.Some? ==> deflate.value.WindowsAtMost15() && deflate.value.OwnWindow(role) >= 9)
    }
  }

  /** `check_connection_reset`. */
  function CheckReset(e: Error, state: WsState): Error {
    if e == Io(ConnectionReset) && !state.CanRead() then ConnectionClosed else e
  }

  function ErrorOf<T>(r: Result<T, Error>): Option<Error> {
    match r case Ok(_) => None case Err(e) => Some(e)
  }

  predicate IsControlMessage(m: Message) { m.PingMessage? || m.PongMessage? || m.CloseMessage? }

  function Answer(o: Outcome): Result<Option<Message>, Error> {
    match o
    case Deliver(m) => Ok(Some(m))
    case Quiet => Ok(None)
    case Fail(e) => Err(e)
  }

  class WebSocketContext {
    const role: Role
    const config: WebSocketConfig
    const frame: FrameCodec
    const deflate: Context?
    var state: WsState
    var incomplete: IncompleteMessage?
    var additionalSend: Option<Frame>
    var unflushedAdditional: bool
    var compressedIncomplete: bool
    var compressionUnusable: bool
    /** Every frame accepted for sending, as encoded. */
    ghost var log: seq<Frame>
    ghost var Repr: set<object>

    ghost function DeflateRepr(): set<object>
      reads this, if deflate == null then {} else {deflate, deflate.decoder}
    {
      if deflate == null then {} else deflate.Repr()
    }

    ghost function AssemblyRepr(): set<object>
      reads this, if incomplete == null then {} else
              {incomplete} + if incomplete.collector.TextCollector? then {incomplete.collector.text} else {}
    {
      if incomplete == null then {} else incomplete.Repr()
    }

    /** The memory layout: the parts are the connection's own and do not overlap. */
    ghost predicate Owned()
      reads this, Repr
    {
      && this in Repr && frame in Repr
      && (deflate != null ==> deflate in Repr && deflate.decoder in Repr)
      && (incomplete != null ==>
            incomplete in Repr && (incomplete.collector.TextCollector? ==> incomplete.collector.text in Repr))
      && DeflateRepr() <= Repr && AssemblyRepr() <= Repr
      && {this} !! {frame} !! DeflateRepr() !! AssemblyRepr()
    }

    ghost predicate WriterValid()
      reads this, frame
    {
      && frame.Valid() && config.Valid(role)
      && frame.maxOutBufferLen == config.maxWriteBufferSize && frame.outBufferWriteLen == config.writeBufferSize
    }

    ghost predicate PartsValid()
      reads this, Repr
      requires Owned()
    {
      && WriterValid()
      && (deflate != null ==>
            && deflate.encoder.Idle() && (deflate.resetEncoder ==> deflate.encoder.hist == [])
            && deflate.decoder.Valid() && (!compressionUnusable ==> deflate.decoder.Idle()))
      && (incomplete != null ==> incomplete.Valid())
    }

    ghost predicate Valid()
      reads this, Repr
    {
      Owned() && PartsValid() && Sound(Cfg(), R())
    }

    ghost function Cfg(): ReadConfig
      reads this
    {
      ReadConfig(role, config.maxMessageSize, deflate != null && deflate.resetDecoder)
    }

    ghost function Mode(): ReadMode
      reads this
    {
      ReadMode(config.maxFrameSize, role.Server?, config.acceptUnmaskedFrames)
    }

    ghost function IncompleteView(): Option<Partial>
      reads this, Repr
      requires Owned() && PartsValid()
    {
      if incomplete == null then None else Some(incomplete.View())
    }

    ghost function DecoderView(): Option<Inflater>
      reads this, Repr
      requires Owned()
    {
      if deflate == null then None
      else if compressionUnusable then Some(DEAD)
      else Some(deflate.decoder.State())
    }

    /** What reading depends on. */
    ghost function R(): ReadState
      reads this, Repr
      requires Owned() && PartsValid()
    {
      ReadState(state, IncompleteView(), DecoderView(), compressedIncomplete, compressionUnusable)
    }

    /** What the bytes already there say. */
    ghost function NextIn(): FrameParse
      reads this, frame
    {
      NextFrame(frame.Unconsumed(), frame.EffectiveMode(Mode()))
    }

    /** What compressing depends on. */
    ghost function E(): Option<Encoder>
      reads this, if deflate == null then {} else {deflate, deflate.encoder}
    {
      if deflate == null then None
      else Some(Encoder(deflate.encoder.size, deflate.encoder.hist, deflate.resetEncoder))
    }

    /** The writing side. */
    ghost function S(stream: Stream): Side
      reads this, frame, stream
    {
      Side(state, additionalSend, log, frame.outBuffer, stream.sent)
    }

    ghost function MaxBuffer(): nat { config.maxWriteBufferSize }

    /** Only the write buffer and fields of the writing side have changed. */
    twostate predicate OnlyWrote()
      reads this, Repr
    {
      && Repr == old(Repr) && incomplete == old(incomplete)
      && compressedIncomplete == old(compressedIncomplete) && compressionUnusable == old(compressionUnusable)
      && (forall o: object :: o in Repr && o != this && o != frame ==> unchanged(o))
    }

    twostate lemma WritingKeeps()
      requires old(Owned() && PartsValid()) && OnlyWrote() && WriterValid()
      ensures Owned() && PartsValid()
      ensures R() == old(R()).(state := state) && E() == old(E())
    {
    }

    constructor FromPartiallyRead(part: bytes, role: Role, config: WebSocketConfig)
      requires config.Valid(role)
      ensures Valid() && fresh(Repr) && this.role == role && this.config == config
      ensures state == Active && log == [] && additionalSend == None && !unflushedAdditional && !compressionUnusable
      ensures frame.Unconsumed() == part && frame.outBuffer == [] && frame.Reserved(config.maxFrameSize)
      ensures R() == Fresh(if config.deflate.None? then None else Some(InitialDecoder(role, config.deflate.value)))
      ensures E() == if config.deflate.None? then None else Some(InitialEncoder(role, config.deflate.value))
      ensures Cfg() == ReadConfig(role, config.maxMessageSize,
                                  config.deflate.Some? && config.deflate.value.PeerNoContextTakeover(role))
      ensures Orderly(state, additionalSend, log)
    {
      hide WindowSize;
      this.role, this.config := role, config;
      frame := new FrameCodec.FromPartiallyRead(part, config.readBufferSize);
      if config.deflate.Some? {
        deflate := new Context(role, config.deflate.value);
      } else {
        deflate := null;
      }
      state, incomplete, additionalSend, unflushedAdditional := Active, null, None, false;
      compressedIncomplete, compressionUnusable := false, false;
      log := [];
      new;
      frame.SetMaxOutBufferLen(config.maxWriteBufferSize);
      frame.SetOutBufferWriteLen(config.writeBufferSize);
      Repr := {this, frame} + DeflateRepr();
      assert Owned();
      assert PartsValid();
    }

    // ----- Writing -----

    method GenerateMask() returns (m: MaskKey)
    {
      var a: byte, b: byte, c: byte, d: byte :| true;
      m := [a, b, c, d];
    }

    /** Masks if need be, then accepts the frame into the write buffer or refuses it whole. */
    method BufferFrame(stream: Stream, f: Frame) returns (r: Result<(), Error>, ghost w: Frame)
      requires WriterValid()
      modifies this`log, frame`outBuffer, stream`outgoing, stream`sent
      ensures WriterValid()
      ensures Buffered(role, MaxBuffer(), old(S(stream)), f, w, r, S(stream)) && stream.Stuck()
    {
      var out := f;
      if role.Client? {
        var mask := GenerateMask();
        out := f.(header := f.header.(mask := Some(mask)));
      }
      w := out;
      ghost var fits := frame.CanBuffer(w.Len());
      assert EncodeAll([w]) == Encode(w) + [] == Encode(w);
      r := frame.BufferFrame(stream, out);
      if fits { log := log + [w]; }
      if r.Err? { r := Err(CheckReset(r.error, state)); }
    }

    method SetAdditional(add: Frame)
      modifies this`additionalSend
      ensures additionalSend == Queued(old(additionalSend), add)
    {
      if additionalSend.None? || IsPong(additionalSend.value) {
        additionalSend := Some(add);
      }
    }

    /** The waiting reply, taken out; put back if it does not fit. */
    method WriteReply(stream: Stream) returns (r: Result<bool, Error>, ghost reply: seq<Frame>)
      requires WriterValid()
      modifies this`log, this`additionalSend, frame`outBuffer, stream`outgoing, stream`sent
      ensures WriterValid() && state == old(state)
      ensures Accepts(old(S(stream)), S(stream), reply)
      ensures ReplyWent(role, old(additionalSend), additionalSend, reply)
      ensures r.Err? ==> r.error.Io? || (r.error == ConnectionClosed && !state.CanRead())
      ensures MaxBuffer() == USIZE_MAX ==> additionalSend.None?
      ensures stream.Stuck()
      ensures r == Ok(true) ==> reply != [] || unflushedAdditional
    {
      reply := [];
      if additionalSend.None? {
        AcceptsNothing(S(stream), S(stream));
        return Ok(unflushedAdditional), reply;
      }
      var msg := additionalSend.value;
      additionalSend := None;
      ghost var before := S(stream);
      var buffered, w := BufferFrame(stream, msg);
      match buffered {
        case Err(WriteBufferFull(back)) =>
          SetAdditional(back);
          AcceptsNothing(old(S(stream)), S(stream));
          return Ok(false), reply;
        case Err(e) =>
          reply := [w];
          return Err(e), reply;
        case Ok(_) =>
          reply := [w];
          return Ok(true), reply;
      }
    }

    /** The draining end of `_write`. */
    method EndConnection(stream: Stream) returns (e: Error)
      requires WriterValid() && role.Server? && !state.CanRead()
      modifies this`state, frame`outBuffer, stream`outgoing, stream`sent
      ensures WriterValid() && Accepts(old(S(stream)), S(stream), [])
      ensures additionalSend == old(additionalSend) && stream.Stuck()
      ensures (e == ConnectionClosed && state == Terminated && frame.outBuffer == []) || (e.Io? && state == old(state))
    {
      var drained := frame.WriteOutBuffer(stream);
      AcceptsNothing(old(S(stream)), S(stream));
      if drained.Err? { return drained.error; }
      state := Terminated;
      return ConnectionClosed;
    }

    /** `_write` behind its data: the waiting reply, then perhaps the end of the connection. */
    method WriteRest(stream: Stream, ghost a: Side, ghost data: Option<Frame>, ghost first: seq<Frame>)
      returns (r: Result<bool, Error>)
      requires WriterValid() && Accepts(a, S(stream), first)
      requires a.state == state && a.waiting == additionalSend
      requires if data.None? then first == []
               else |first| == 1 && OnWire(role, data.value, first[0]) && Fits(MaxBuffer(), a, first[0].Len())
      modifies this`log, this`additionalSend, this`state, frame`outBuffer, stream`outgoing, stream`sent
      ensures WriterValid() && stream.Stuck()
      ensures Wrote(role, MaxBuffer(), a, data, ErrorOf(r), S(stream))
    {
      ghost var b := S(stream);
      var shouldFlush, reply := WriteReply(stream);
      AcceptsThen(a, b, S(stream), first, reply);
      r := shouldFlush;
      if r.Ok? && role.Server? && !state.CanRead() {
        ghost var c := S(stream);
        var e := EndConnection(stream);
        AcceptsThen(a, c, S(stream), first + reply, []);
        assert first + reply + [] == first + reply;
        r := Err(e);
      }
      assert WroteFrames(role, MaxBuffer(), a, data, ErrorOf(r), S(stream), first, reply);
    }

    method DoWrite(stream: Stream, data: Option<Frame>) returns (r: Result<bool, Error>)
      requires WriterValid()
      modifies this`log, this`additionalSend, this`state, frame`outBuffer, stream`outgoing, stream`sent
      ensures WriterValid() && stream.Stuck()
      ensures Wrote(role, MaxBuffer(), old(S(stream)), data, ErrorOf(r), S(stream))
    {
      ghost var a := S(stream);
      ghost var first: seq<Frame> := [];
      if data.Some? {
        var buffered, w := BufferFrame(stream, data.value);
        if buffered.Err? {
          if !buffered.error.WriteBufferFull? {
            assert [w] + [] == [w];
            assert WroteFrames(role, MaxBuffer(), a, data, Some(buffered.error), S(stream), [w], []);
          }
          return Err(buffered.error);
        }
        first := [w];
      } else {
        AcceptsNothing(a, a);
      }
      r := WriteRest(stream, a, data, first);
    }

    /** Nothing reaches the stream of a connection that compression took out of service. */
    method Flush(stream: Stream) returns (r: Result<(), Error>)
      requires Valid() && stream !in Repr
      modifies this`log, this`additionalSend, this`state, this`unflushedAdditional, frame`outBuffer
      modifies stream`outgoing, stream`sent, stream`flushes, stream`flushed
      ensures Valid() && R() == old(R()).(state := state) && E() == old(E())
      ensures old(compressionUnusable) ==>
        && r == Err(AlreadyClosed) && S(stream) == old(S(stream)) && stream.flushed == old(stream.flushed)
        && unflushedAdditional == old(unflushedAdditional)
      ensures !old(compressionUnusable) ==>
        Flushed(role, MaxBuffer(), old(S(stream)), ErrorOf(r), S(stream))
      ensures r.Ok? ==> !unflushedAdditional
      ensures r.Err? ==> unflushedAdditional == old(unflushedAdditional)
      ensures Replies(role, MaxBuffer(), old(S(stream)), S(stream)) && stream.Stuck() && OwnMove(old(state), state)
    {
      hide Replies, Flushed;
      ghost var a := S(stream);
      NothingReplies(role, MaxBuffer(), a);
      if compressionUnusable { return Err(AlreadyClosed); }
      r := FlushAll(stream);
      WritingKeeps();
      FlushedReplies(role, MaxBuffer(), a, ErrorOf(r), S(stream));
    }

    method FlushAll(stream: Stream) returns (r: Result<(), Error>)
      requires WriterValid()
      modifies this`log, this`additionalSend, this`state, this`unflushedAdditional, frame`outBuffer
      modifies stream`outgoing, stream`sent, stream`flushes, stream`flushed
      ensures WriterValid()
      ensures Flushed(role, MaxBuffer(), old(S(stream)), ErrorOf(r), S(stream)) && stream.Stuck()
      ensures r.Ok? ==> !unflushedAdditional
      ensures r.Err? ==> unflushedAdditional == old(unflushedAdditional)
    {
      ghost var a := S(stream);
      var wrote := DoWrite(stream, None);
      ghost var first: seq<Frame>, reply: seq<Frame> :|
        WroteFrames(role, MaxBuffer(), a, None, ErrorOf(wrote), S(stream), first, reply);
      if wrote.Err? { return Err(wrote.error); }
      ghost var b := S(stream);
      var drained := frame.WriteOutBuffer(stream);
      AcceptsNothing(b, S(stream));
      AcceptsThen(a, b, S(stream), [] + reply, []);
      assert [] + reply + [] == [] + reply;
      assert WroteFrames(role, MaxBuffer(), a, None, ErrorOf(drained), S(stream), [], reply);
      if drained.Err? { return drained; }
      var flushed := stream.Flush();
      if flushed.Err? {
        r := Err(Io(flushed.error));
        assert WroteFrames(role, MaxBuffer(), a, None, ErrorOf(r), S(stream), [], reply);
        return;
      }
      unflushedAdditional := false;
      return Ok(());
    }

    /** `close`: the Close frame first, then whatever waits, then everything is flushed. */
    method Close(stream: Stream, code: Option<CloseFrame>) returns (r: Result<(), Error>)
      requires Valid() && stream !in Repr
      modifies this`log, this`additionalSend, this`state, this`unflushedAdditional, frame`outBuffer
      modifies stream`outgoing, stream`sent, stream`flushes, stream`flushed
      ensures Valid() && R() == old(R()).(state := state) && E() == old(E())
      ensures old(compressionUnusable) ==>
        r == Err(AlreadyClosed) && S(stream) == old(S(stream)) && stream.flushed == old(stream.flushed)
      ensures !old(compressionUnusable) && old(state).Active? ==>
        Wrote(role, MaxBuffer(), old(S(stream)).(state := ClosedByUs), Some(CloseFrameOf(code)), ErrorOf(r), S(stream))
      ensures !old(compressionUnusable) && !old(state).Active? ==>
        Flushed(role, MaxBuffer(), old(S(stream)), ErrorOf(r), S(stream))
      ensures Step(role, MaxBuffer(), old(S(stream)), S(stream)) && SendsControl(role, old(S(stream)), S(stream))
      ensures stream.Stuck() && OwnMove(old(state), state)
      ensures InOrder(MaxBuffer(), old(S(stream))) && old(state).Active? ==>
        (AfterClose(log).Some? <==> Fits(MaxBuffer(), old(S(stream)), WireSize(role, CloseFrameOf(code))))
    {
      hide Replies, Flushed, Wrote, Step, SendsControl, InOrder, Fits, WireSize, AfterClose;
      NothingReplies(role, MaxBuffer(), S(stream));
      r := CloseInOrder(stream, code);
      if old(state).Active? && !compressionUnusable {
        ClosingSteps(role, MaxBuffer(), old(S(stream)), code, ErrorOf(r), S(stream));
      } else {
        if !compressionUnusable { FlushedReplies(role, MaxBuffer(), old(S(stream)), ErrorOf(r), S(stream)); }
        RepliesAreSteps(role, MaxBuffer(), old(S(stream)), S(stream));
        assert old(R().state) == old(state);
      }
    }

    method CloseInOrder(stream: Stream, code: Option<CloseFrame>) returns (r: Result<(), Error>)
      requires Valid() && stream !in Repr
      modifies this`log, this`additionalSend, this`state, this`unflushedAdditional, frame`outBuffer
      modifies stream`outgoing, stream`sent, stream`flushes, stream`flushed
      ensures Valid() && R() == old(R()).(state := state) && E() == old(E())
      ensures old(compressionUnusable) ==>
        r == Err(AlreadyClosed) && S(stream) == old(S(stream)) && stream.flushed == old(stream.flushed)
      ensures !old(compressionUnusable) && old(state).Active? ==>
        Wrote(role, MaxBuffer(), old(S(stream)).(state := ClosedByUs), Some(CloseFrameOf(code)), ErrorOf(r), S(stream))
      ensures !old(compressionUnusable) && !old(state).Active? ==>
        Flushed(role, MaxBuffer(), old(S(stream)), ErrorOf(r), S(stream))
      ensures stream.Stuck()
    {
      ghost var a := S(stream).(state := ClosedByUs);
      var active := state.Active?;
      if active {
        state := ClosedByUs;
        var wrote := DoWrite(stream, Some(CloseFrameOf(code)));
        WritingKeeps();
        if wrote.Err? { return Err(wrote.error); }
      }
      ghost var b := S(stream);
      r := Flush(stream);
      if active { WroteThenFlushed(role, MaxBuffer(), a, Some(CloseFrameOf(code)), b, ErrorOf(r), S(stream)); }
    }

    /**
     * The frame a message is sent as. Admission is decided on the uncompressed size, before the
     * compressor moves; a frame this returns fits, so it is never refused afterwards.
     */
    method PrepareData(data: bytes, d: Data) returns (r: Result<Frame, Error>)
      requires Valid() && !compressionUnusable && (d.Text? || d.Binary?)
      modifies if deflate == null then {} else {deflate.encoder}
      ensures Valid() && R() == old(R()) && unchanged(this) && unchanged(frame)
      ensures deflate == null ==> r == Ok(MessageFrame(data, d, true))
      ensures deflate != null && !frame.CanBuffer(WireSize(role, MessageFrame(data, d, true))) ==>
        r == Err(WriteBufferFull(MessageFrame(data, d, true))) && E() == old(E())
      ensures deflate != null && frame.CanBuffer(WireSize(role, MessageFrame(data, d, true))) ==>
        && (r.Err? ==> r.error == Protocol(Compression) && E() == ResetEncoder(old(E())))
        && (r.Ok? ==> DataWrite(old(E()), E(), d, data, Some(r.value)) && frame.CanBuffer(WireSize(role, r.value)))
      ensures r.Ok? ==> r.value.header.mask.None?
    {
      var plain := MessageFrame(data, d, true);
      if deflate != null {
        if !frame.CanBuffer(WireSize(role, plain)) {
          return Err(WriteBufferFull(plain));
        }
        var compressed := deflate.Compress(plain.payload);
        if compressed.Err? {
          deflate.ResetEncoder();
          CompressingKeeps();
          return Err(compressed.error);
        }
        var packed := CompressedFrame(compressed.value, d);
        if frame.CanBuffer(WireSize(role, packed)) {
          CompressingKeeps();
          return Ok(packed);
        }
        deflate.ResetEncoder();
        CompressingKeeps();
      }
      return Ok(plain);
    }

    /** Only the compressor has changed. */
    twostate lemma CompressingKeeps()
      requires deflate != null && old(Owned() && PartsValid())
      requires Repr == old(Repr) && (forall o: object :: o in Repr && o != deflate.encoder ==> unchanged(o))
      requires deflate.encoder.Idle() && (deflate.resetEncoder ==> deflate.encoder.hist == [])
      ensures Owned() && PartsValid() && R() == old(R())
    {
    }

    /** A prepared frame on its way, and the flush if a reply went with it. */
    method Push(stream: Stream, f: Frame) returns (r: Result<(), Error>)
      requires Valid() && stream !in Repr && !compressionUnusable
      modifies this`log, this`additionalSend, this`state, this`unflushedAdditional, frame`outBuffer
      modifies stream`outgoing, stream`sent, stream`flushes, stream`flushed
      ensures Valid() && R() == old(R()).(state := state) && E() == old(E())
      ensures Wrote(role, MaxBuffer(), old(S(stream)), Some(f), ErrorOf(r), S(stream))
      ensures f.header.mask.None? ==>
        ((r.Err? && IsFull(r.error)) <==> !Fits(MaxBuffer(), old(S(stream)), WireSize(role, f)))
      ensures stream.Stuck()
    {
      hide Wrote, Flushed, Fits, WireSize;
      ghost var a := S(stream);
      if f.header.mask.None? { AdmissionIsExact(role, MaxBuffer(), a, f); }
      var shouldFlush := DoWrite(stream, Some(f));
      WritingKeeps();
      if shouldFlush.Err? {
        return Err(shouldFlush.error);
      }
      ghost var b := S(stream);
      r := Ok(());
      if shouldFlush.value {
        r := Flush(stream);
        WroteThenFlushed(role, MaxBuffer(), a, Some(f), b, ErrorOf(r), S(stream));
      }
    }

    /**
     * Sends a message. `accepted` is the frame a Text or Binary message was accepted as: a refused
     * or failed one has left no trace but a compressor reset, and with compression on it is
     * refused exactly when its uncompressed form does not fit.
     */
    method Write(stream: Stream, message: Message) returns (r: Result<(), Error>, ghost accepted: Option<Frame>)
      requires Valid() && stream !in Repr
      modifies this`log, this`additionalSend, this`state, this`unflushedAdditional, frame`outBuffer
      modifies stream`outgoing, stream`sent, stream`flushes, stream`flushed
      modifies if deflate == null then {} else {deflate.encoder}
      ensures Valid() && R() == old(R()).(state := state)
      ensures old(state).Terminated? ==> r == Err(AlreadyClosed)
      ensures !old(state).Terminated? && !old(state).Active? ==> r == Err(Protocol(SendAfterClosing))
      ensures !old(state).Active? ==>
        S(stream) == old(S(stream)) && E() == old(E()) && stream.flushed == old(stream.flushed)
      ensures old(state).Active? ==>
        Written(message, old(E()), E(), old(S(stream)), S(stream), accepted, ErrorOf(r))
      ensures !message.RawFrame? ==> Step(role, MaxBuffer(), old(S(stream)), S(stream))
      ensures stream.Stuck() && OwnMove(old(state), state)
      ensures IsControlMessage(message) ==> SendsControl(role, old(S(stream)), S(stream))
    {
      hide Step, SendsControl, Replies, Written;
      RepliesAreSteps(role, MaxBuffer(), S(stream), S(stream)) by { NothingReplies(role, MaxBuffer(), S(stream)); }
      accepted := None;
      NothingReplies(role, MaxBuffer(), S(stream));
      if state.Terminated? { return Err(AlreadyClosed), None; }
      if !state.Active? { return Err(Protocol(SendAfterClosing)), None; }
      ghost var e, a := E(), S(stream);
      r, accepted := WriteActive(stream, message);
      if !message.RawFrame? { WrittenKeeps(message, e, E(), a, S(stream), accepted, ErrorOf(r)); }
      WrittenMoves(message, e, E(), a, S(stream), accepted, ErrorOf(r));
    }

    /** What writing `message` on an active connection does. */
    ghost predicate Written(message: Message, e: Option<Encoder>, e': Option<Encoder>, a: Side, b: Side,
                            accepted: Option<Frame>, error: Option<Error>)
      reads this
    {
      match message
      case TextMessage(data) =>
        DataSent(role, config.maxWriteBufferSize, deflate != null, e, e', a, b, Text, data, accepted, error)
      case BinaryMessage(data) =>
        DataSent(role, config.maxWriteBufferSize, deflate != null, e, e', a, b, Binary, data, accepted, error)
      case PingMessage(data) => e' == e && Wrote(role, config.maxWriteBufferSize, a, Some(PingFrame(data)), error, b)
      case PongMessage(data) =>
        && e' == e
        && Wrote(role, config.maxWriteBufferSize, a.(waiting := Queued(a.waiting, PongFrame(data))), None, error, b)
      case CloseMessage(code) =>
        && e' == e
        && Wrote(role, config.maxWriteBufferSize, a.(state := ClosedByUs), Some(CloseFrameOf(code)), error, b)
      case RawFrame(f) =>
        && e' == e
        && if f.header.rsv1 && deflate != null then error == Some(Protocol(NonZeroReservedBits)) && b == a
           else Wrote(role, config.maxWriteBufferSize, a, Some(f), error, b)
    }

    lemma WrittenMoves(message: Message, e: Option<Encoder>, e': Option<Encoder>, a: Side, b: Side,
                       accepted: Option<Frame>, error: Option<Error>)
      requires a.state.Active? && Written(message, e, e', a, b, accepted, error)
      ensures OwnMove(a.state, b.state)
    {
      hide Accepts, ReplyWent, Fits, OnWire, DataWrite, WireSize;
    }

    lemma WrittenKeeps(message: Message, e: Option<Encoder>, e': Option<Encoder>, a: Side, b: Side,
                       accepted: Option<Frame>, error: Option<Error>)
      requires a.state.Active? && !message.RawFrame? && Written(message, e, e', a, b, accepted, error)
      ensures Step(role, MaxBuffer(), a, b) && (IsControlMessage(message) ==> SendsControl(role, a, b))
    {
      hide Keeps, Wrote, NothingBehindReply, SendsControl, OnlyPongBehind, InOrder, AfterClose;
      NothingReplies(role, MaxBuffer(), a);
      var max := config.maxWriteBufferSize;
      match message
      case PingMessage(data) =>
        PingReplies(role, max, a, data, error, b);
        RepliesAreSteps(role, max, a, b);
      case PongMessage(data) =>
        AnsweringReplies(role, max, a, data, error, b);
        RepliesAreSteps(role, max, a, b);
      case CloseMessage(code) => ClosingSteps(role, max, a, code, error, b);
      case _ =>
        if accepted.Some? { WroteKeeps(role, max, a, accepted, error, b); }
        DataSteps(role, max, a, b);
    }

    method WriteActive(stream: Stream, message: Message) returns (r: Result<(), Error>, ghost accepted: Option<Frame>)
      requires Valid() && stream !in Repr && state.Active?
      modifies this`log, this`additionalSend, this`state, this`unflushedAdditional, frame`outBuffer
      modifies stream`outgoing, stream`sent, stream`flushes, stream`flushed
      modifies if deflate == null then {} else {deflate.encoder}
      ensures Valid() && R() == old(R()).(state := state)
      ensures Written(message, old(E()), E(), old(S(stream)), S(stream), accepted, ErrorOf(r))
      ensures stream.Stuck()
    {
      hide Wrote, Fits, Flushed, WireSize, OnWire, MessageFrame, DataSent;
      accepted := None;
      assert R().state == state && !compressionUnusable;
      match message {
        case TextMessage(data) => r, accepted := SendData(stream, data, Text);
        case BinaryMessage(data) => r, accepted := SendData(stream, data, Binary);
        case PingMessage(data) => r := Push(stream, PingFrame(data));
        case PongMessage(data) =>
          SetAdditional(PongFrame(data));
          WritingKeeps();
          var wrote := DoWrite(stream, None);
          WritingKeeps();
          r := if wrote.Ok? then Ok(()) else Err(wrote.error);
        case CloseMessage(code) => r := Close(stream, code);
        case RawFrame(f) =>
          if f.header.rsv1 && deflate != null {
            return Err(Protocol(NonZeroReservedBits)), None;
          }
          r := Push(stream, f);
      }
    }

    method SendData(stream: Stream, data: bytes, d: Data) returns (r: Result<(), Error>, ghost accepted: Option<Frame>)
      requires Valid() && stream !in Repr && state.Active? && !compressionUnusable && (d.Text? || d.Binary?)
      modifies this`log, this`additionalSend, this`state, this`unflushedAdditional, frame`outBuffer
      modifies stream`outgoing, stream`sent, stream`flushes, stream`flushed
      modifies if deflate == null then {} else {deflate.encoder}
      ensures Valid() && R() == old(R()).(state := state)
      ensures DataSent(role, MaxBuffer(), deflate != null, old(E()), E(), old(S(stream)), S(stream), d, data, accepted,
                       ErrorOf(r))
      ensures stream.Stuck()
    {
      var prepared := PrepareData(data, d);
      if prepared.Err? { return Err(prepared.error), None; }
      var f := prepared.value;
      r := Push(stream, f);
      accepted := if r.Err? && IsFull(r.error) then None else Some(f);
    }

    // ----- Reading -----

    method FailCompression()
      requires Owned() && PartsValid()
      modifies this`compressionUnusable, this`state
      ensures Owned() && PartsValid() && R() == Receiving.FailCompression(old(R())) && E() == old(E())
    {
      compressionUnusable := true;
      state := Terminated;
    }

    method FailCompressionOnDiscardedFrame(f: Frame)
      requires Owned() && PartsValid()
      modifies this`compressionUnusable, this`state
      ensures Owned() && PartsValid() && R() == Discard(old(R()), f.header) && E() == old(E())
    {
      var claimsCompression :=
        f.header.rsv1 || (f.header.opcode == DataOp(Continue) && (compressedIncomplete || incomplete == null));
      if claimsCompression && deflate != null {
        FailCompression();
      }
    }

    /** Only the decoder and the fields it may latch have changed. */
    twostate predicate OnlyDecoded()
      reads this, Repr, if deflate == null then {} else {deflate.decoder}
    {
      && deflate != null && Repr == old(Repr) + {deflate.decoder.stream}
      && fresh({deflate.decoder.stream} - {old(deflate.decoder.stream)})
      && incomplete == old(incomplete) && compressedIncomplete == old(compressedIncomplete)
      && (forall o: object ::
            o in old(Repr) && o != this && o != deflate.decoder && o != old(deflate.decoder.stream) ==> unchanged(o))
    }

    twostate lemma DecodingKeeps()
      requires old(Owned() && PartsValid()) && OnlyDecoded()
      requires deflate.decoder.Valid() && (!compressionUnusable ==> deflate.decoder.Idle())
      ensures Owned() && PartsValid() && E() == old(E()) && IncompleteView() == old(IncompleteView())
    {
    }

    /** Inflates one frame's payload, ending the connection if the decoder fails. */
    method Decompress(payload: bytes, isFinal: bool) returns (r: Result<bytes, Error>)
      requires Valid() && deflate != null && !compressionUnusable
      modifies this`compressionUnusable, this`state, this`Repr, deflate.decoder, deflate.decoder.stream
      ensures Owned() && PartsValid() && E() == old(E()) && fresh(Repr - old(Repr))
      ensures var d := DecompressSpec(old(R()).decoder.value, deflate.resetDecoder, payload, isFinal,
                                      HeldSize(old(R())), config.maxMessageSize);
              if d.Err? then r == Err(d.error) && R() == Receiving.FailCompression(old(R()))
              else r == Ok(d.value.0) && R() == old(R()).(decoder := Some(d.value.1))
    {
      var already := 0;
      if incomplete != null {
        assert R().incomplete == Some(incomplete.View());
        already := incomplete.Len();
      }
      r := deflate.Decompress(payload, isFinal, already, config.maxMessageSize);
      Repr := Repr + {deflate.decoder.stream};
      if r.Err? {
        compressionUnusable := true;
        state := Terminated;
      }
      DecodingKeeps();
    }

    /** Control frames. */
    method HandleControl(c: Control, f: Frame) returns (r: Result<Option<Message>, Error>)
      requires Owned() && PartsValid() && state.CanRead()
      modifies this`state, this`additionalSend
      ensures Owned() && PartsValid() && E() == old(E())
      ensures Handled(ControlReceived(old(R()), c, f), old(additionalSend), r)
    {
      if !f.header.isFinal { return Err(Protocol(FragmentedControlFrame)); }
      if |f.payload| > 125 { return Err(Protocol(ControlFrameTooBig)); }
      match c {
        case Close =>
          var close := IntoClose(f.payload);
          if close.Err? { return Err(close.error); }
          var told := DoClose(close.value);
          return Ok(match told case None => None case Some(code) => Some(CloseMessage(code)));
        case ReservedControl(i) => return Err(Protocol(UnknownControlFrameType(i)));
        case Ping =>
          if state.Active? { SetAdditional(PongFrame(f.payload)); }
          return Ok(Some(PingMessage(f.payload)));
        case Pong => return Ok(Some(PongMessage(f.payload)));
      }
    }

    method DoClose(close: Option<CloseFrame>) returns (r: Option<Option<CloseFrame>>)
      requires Owned() && PartsValid() && state.CanRead()
      modifies this`state, this`additionalSend
      ensures Owned() && PartsValid() && E() == old(E())
      ensures var spec := CloseReceived(old(R()), close);
              && R() == spec.next
              && additionalSend == (if spec.reply.None? then old(additionalSend)
                                    else Queued(old(additionalSend), spec.reply.value))
              && (r.Some? ==> spec.outcome == Deliver(CloseMessage(r.value))) && (r.None? ==> spec.outcome.Quiet?)
    {
      match state {
        case Active =>
          state := ClosedByPeer;
          var told := Sanitized(close);
          SetAdditional(CloseFrameOf(told));
          return Some(told);
        case ClosedByUs =>
          state := CloseAcknowledged;
          return Some(close);
        case _ => return None;
      }
    }

    /** A result is the specified one: state, answer and queued reply. */
    ghost predicate Handled(spec: Received, waiting: Option<Frame>, r: Result<Option<Message>, Error>)
      reads this, Repr
      requires Owned() && PartsValid()
    {
      && R() == spec.next
      && r == Answer(spec.outcome)
      && additionalSend == (if spec.reply.None? then waiting else Queued(waiting, spec.reply.value))
    }

    /** Assembly has only touched the open message. */
    twostate predicate OnlyAssembled()
      reads this, Repr
    {
      && state == old(state) && compressedIncomplete == old(compressedIncomplete)
      && compressionUnusable == old(compressionUnusable) && additionalSend == old(additionalSend)
      && old(Repr) <= Repr
      && (forall o: object :: o in Repr && o in old(Repr) && o != this && o !in old(AssemblyRepr()) ==> unchanged(o))
    }

    twostate lemma AssemblingKeeps()
      requires old(Owned() && PartsValid()) && OnlyAssembled()
      requires incomplete == null ||
        (incomplete.Valid() && incomplete.Repr() <= Repr && fresh(incomplete.Repr() - old(AssemblyRepr())))
      ensures Owned() && PartsValid() && E() == old(E())
      ensures R() == old(R()).(incomplete := if incomplete == null then None else Some(incomplete.View()))
    {
    }

    method ExtendIncomplete(payload: bytes) returns (e: Option<Error>)
      requires Valid() && incomplete != null
      modifies this`Repr, AssemblyRepr()
      ensures Owned() && PartsValid() && E() == old(E()) && fresh(Repr - old(Repr))
      ensures incomplete == old(incomplete)
      ensures var (e', p) := ExtendPartial(old(incomplete.View()), payload, config.maxMessageSize);
              e == e' && R() == old(R()).(incomplete := Some(p))
    {
      hide ExtendPartial;
      assert R().incomplete == Some(incomplete.View());
      e := incomplete.Extend(payload, config.maxMessageSize);
      Repr := Repr + incomplete.Repr();
      AssemblingKeeps();
    }

    method CompleteOpen() returns (r: Result<Message, Error>)
      requires Owned() && PartsValid() && incomplete != null
      modifies this`incomplete
      ensures Owned() && PartsValid() && E() == old(E())
      ensures R() == old(R()).(incomplete := None) && r == CompletePartial(old(incomplete.View()))
    {
      hide CompletePartial;
      var message := incomplete;
      incomplete := null;
      AssemblingKeeps();
      r := message.Complete();
    }

    /** A continuation of the open message. */
    method ExtendOpen(isFinal: bool, payload: bytes) returns (r: Result<Option<Message>, Error>)
      requires Valid() && incomplete != null
      modifies this`incomplete, this`Repr, AssemblyRepr()
      ensures Owned() && PartsValid() && E() == old(E()) && fresh(Repr - old(Repr))
      ensures Handled(Assemble(old(Cfg()), old(R()), Continue, isFinal, payload), old(additionalSend), r)
    {
      hide ExtendPartial, CompletePartial;
      assert R().incomplete == Some(incomplete.View());
      var e := ExtendIncomplete(payload);
      assert R().incomplete == Some(incomplete.View());
      if e.Some? { return Err(e.value); }
      if !isFinal { return Ok(None); }
      var message := CompleteOpen();
      return match message case Ok(m) => Ok(Some(m)) case Err(error) => Err(error);
    }

    method StartMessage(kind: MessageType, payload: bytes) returns (open: IncompleteMessage, e: Option<Error>)
      requires Limit(config.maxMessageSize) <= USIZE_MAX
      ensures open.Valid() && fresh(open.Repr())
      ensures (e, open.View()) == ExtendPartial(Partial(kind, []), payload, config.maxMessageSize)
    {
      hide ExtendPartial;
      open := new IncompleteMessage(kind);
      e := open.Extend(payload, config.maxMessageSize);
    }

    /** The first frame of a message that goes on. */
    method OpenMessage(kind: MessageType, payload: bytes) returns (r: Result<Option<Message>, Error>)
      requires Valid() && incomplete == null
      modifies this`incomplete, this`Repr
      ensures Owned() && PartsValid() && E() == old(E()) && fresh(Repr - old(Repr))
      ensures Handled(Assemble(old(Cfg()), old(R()), if kind.TextType? then Text else Binary, false, payload),
                      old(additionalSend), r)
    {
      hide ExtendPartial;
      var open, e := StartMessage(kind, payload);
      if e.Some? { return Err(e.value); }
      incomplete := open;
      Repr := Repr + open.Repr();
      AssemblingKeeps();
      return Ok(None);
    }

    method AssembleFrame(d: Data, isFinal: bool, payload: bytes) returns (r: Result<Option<Message>, Error>)
      requires Valid()
      modifies this`incomplete, this`Repr, AssemblyRepr()
      ensures Owned() && PartsValid() && E() == old(E()) && fresh(Repr - old(Repr))
      ensures Handled(Assemble(old(Cfg()), old(R()), d, isFinal, payload), old(additionalSend), r)
    {
      if incomplete != null {
        if !d.Continue? { return Err(Protocol(ExpectedFragment(d))); }
        r := ExtendOpen(isFinal, payload);
        return;
      }
      match d {
        case Continue => return Err(Protocol(UnexpectedContinueFrame));
        case ReservedData(i) => return Err(Protocol(UnknownDataFrameType(i)));
        case _ =>
          var kind := KindOf(d);
          if !isFinal {
            r := OpenMessage(kind, payload);
            return;
          }
          if config.maxMessageSize.Some? && |payload| > config.maxMessageSize.value {
            return Err(MessageTooLong(|payload|, config.maxMessageSize.value));
          }
          if kind.BinaryType? { return Ok(Some(BinaryMessage(payload))); }
          if FromUtf8(payload).Valid? { return Ok(Some(TextMessage(payload))); }
          return Err(InvalidUtf8);
      }
    }

    /** The compressor's bytes go to the decoder first; a frame out of turn is discarded. */
    method DecodePayload(d: Data, f: Frame) returns (r: Result<bytes, Error>)
      requires Valid() && state.CanRead() && f.header.opcode == DataOp(d) && (f.header.rsv1 ==> deflate != null)
      modifies Repr
      ensures Valid() && E() == old(E()) && fresh(Repr - old(Repr))
      ensures incomplete == old(incomplete) && log == old(log) && additionalSend == old(additionalSend)
      ensures unflushedAdditional == old(unflushedAdditional) && unchanged(frame)
      ensures (R(), r) == DecodedPayload(old(Cfg()), old(R()), d, f)
    {
      hide DecompressSpec, Sound, Receiving.FailCompression, Discard;
      assert !compressionUnusable && (compressedIncomplete ==> deflate != null) by { ModeIsSound(); }
      DecodedKeeps(Cfg(), R(), d, f);
      var isFinal := f.header.isFinal;
      var payload := f.payload;
      if d.Continue? == (incomplete != null) {
        var compressed :=
          match d
          case Continue => compressedIncomplete
          case ReservedData(_) => false
          case _ => f.header.rsv1;
        if compressed {
          r := Decompress(payload, isFinal);
          if r.Err? { return; }
          payload := r.value;
        }
        SaveMode(d, isFinal, compressed);
      } else {
        FailCompressionOnDiscardedFrame(f);
      }
      return Ok(payload);
    }

    /** Whether the open message is compressed. */
    method SaveMode(d: Data, isFinal: bool, compressed: bool)
      requires Owned() && PartsValid()
      modifies this`compressedIncomplete
      ensures Owned() && PartsValid() && E() == old(E())
      ensures R() == old(R()).(compressedIncomplete := SavedMode(old(R()), d, isFinal, compressed))
    {
      match d {
        case Continue => if isFinal { compressedIncomplete := false; }
        case ReservedData(_) =>
        case _ => if !isFinal { compressedIncomplete := compressed; }
      }
    }

    lemma ModeIsSound()
      requires Valid() && state.CanRead()
      ensures !compressionUnusable && (compressedIncomplete ==> deflate != null)
    {
      assert R().unusable == compressionUnusable && R().compressedIncomplete == compressedIncomplete;
    }

    /** A data frame that may be decoded. */
    method HandleData(d: Data, f: Frame) returns (r: Result<Option<Message>, Error>)
      requires Valid() && state.CanRead() && f.header.opcode == DataOp(d) && (f.header.rsv1 ==> deflate != null)
      modifies Repr
      ensures Owned() && PartsValid() && E() == old(E()) && fresh(Repr - old(Repr))
      ensures log == old(log) && unflushedAdditional == old(unflushedAdditional) && unchanged(frame)
      ensures Handled(DataReceived(old(Cfg()), old(R()), d, f), old(additionalSend), r)
    {
      hide DecodedPayload, Assemble, Sound;
      var payload := DecodePayload(d, f);
      if payload.Err? { return Err(payload.error); }
      r := AssembleFrame(d, f.header.isFinal, payload.value);
    }

    /** Everything behind the frame codec, in the order of the checks. */
    method HandleFrame(f: Frame) returns (r: Result<Option<Message>, Error>)
      requires Valid()
      modifies Repr
      ensures Valid() && E() == old(E()) && fresh(Repr - old(Repr))
      ensures log == old(log) && unflushedAdditional == old(unflushedAdditional) && unchanged(frame)
      ensures Handled(Receive(old(Cfg()), old(R()), f), old(additionalSend), r)
    {
      hide DataReceived, ControlReceived, Discard, Sound;
      ReceiveKeeps(Cfg(), R(), f);
      if !state.CanRead() { return Err(Protocol(ReceivedAfterClosing)); }
      var h := f.header;
      var invalidRsv1 := h.rsv1 && (deflate == null || (h.opcode != DataOp(Text) && h.opcode != DataOp(Binary)));
      if invalidRsv1 || h.rsv2 || h.rsv3 {
        FailCompressionOnDiscardedFrame(f);
        return Err(Protocol(NonZeroReservedBits));
      }
      if role.Client? && f.IsMasked() {
        FailCompressionOnDiscardedFrame(f);
        return Err(Protocol(MaskedFrameFromServer));
      }
      match h.opcode {
        case DataOp(d) => r := HandleData(d, f);
        case ControlOp(c) => r := HandleControl(c, f);
      }
    }

    /**
     * Reads one frame and handles it; `got` is what the codec answered. A frame the codec threw
     * away unread takes a compressed connection out of service.
     */
    method ReadMessageFrame(stream: Stream)
      returns (r: Result<Option<Message>, Error>, ghost got: Result<Option<Frame>, Error>)
      requires Valid() && stream !in Repr
      modifies Repr, stream`incoming, stream`delivered, stream`ended
      ensures Valid() && E() == old(E()) && fresh(Repr - old(Repr))
      ensures log == old(log) && unflushedAdditional == old(unflushedAdditional)
      ensures frame.outBuffer == old(frame.outBuffer)
      ensures old(stream.delivered) <= stream.delivered
      ensures stream.Supply() + |stream.delivered| <= old(stream.Supply() + |stream.delivered|)
      ensures old(frame.Reserved(config.maxFrameSize)) && !(got.Err? && got.error.MessageTooLong?) ==>
        frame.Reserved(config.maxFrameSize)
      ensures ReadAnswers(old(frame.Unconsumed()) + Since(old(stream.delivered), stream.delivered),
                          old(frame.EffectiveMode(Mode())), Limit(config.maxFrameSize), got, frame.Unconsumed())
      ensures got == Ok(None) ==> stream.ended || (!old(frame.Reserved(config.maxFrameSize)) && frame.Spare() == 0)
      ensures got.Ok? && got.value.Some? ==>
        Handled(Receive(old(Cfg()), old(R()), got.value.value), old(additionalSend), r)
      ensures got == Ok(None) ==>
        && R() == old(R()).(state := Terminated) && additionalSend == old(additionalSend)
        && r == Err(if old(state).ClosedByPeer? || old(state).CloseAcknowledged? then ConnectionClosed
                    else Protocol(ResetWithoutClosingHandshake))
      ensures got.Err? ==>
        && additionalSend == old(additionalSend) && r == Err(CheckReset(got.error, old(state)))
        && R() == if got.error == Protocol(UnmaskedFrameFromClient) && deflate != null
                  then Receiving.FailCompression(old(R())) else old(R())
    {
      hide Receive, NextFrame, ReadAnswers;
      var read := TakeFrame(stream);
      got := read;
      if read.Ok? && read.value.Some? {
        r := HandleFrame(read.value.value);
      } else {
        r := NoFrame(read);
      }
    }

    /** The codec's part of `read_message_frame`. */
    method TakeFrame(stream: Stream) returns (got: Result<Option<Frame>, Error>)
      requires Valid() && stream !in Repr
      modifies frame`inBuffer, frame`capacity, frame`header, frame`headerBytes
      modifies stream`incoming, stream`delivered, stream`ended
      ensures Valid() && E() == old(E()) && R() == old(R())
      ensures old(stream.delivered) <= stream.delivered
      ensures stream.Supply() + |stream.delivered| <= old(stream.Supply() + |stream.delivered|)
      ensures old(frame.Reserved(config.maxFrameSize)) && !(got.Err? && got.error.MessageTooLong?) ==>
        frame.Reserved(config.maxFrameSize)
      ensures ReadAnswers(old(frame.Unconsumed()) + Since(old(stream.delivered), stream.delivered),
                          old(frame.EffectiveMode(Mode())), Limit(config.maxFrameSize), got, frame.Unconsumed())
      ensures got == Ok(None) ==> stream.ended || (!old(frame.Reserved(config.maxFrameSize)) && frame.Spare() == 0)
    {
      got := frame.ReadFrame(stream, config.maxFrameSize, role.Server?, config.acceptUnmaskedFrames);
      WritingKeeps();
    }

    /** What an error of the codec, or the end of the stream, does to the connection. */
    method NoFrame(read: Result<Option<Frame>, Error>) returns (r: Result<Option<Message>, Error>)
      requires Valid() && !(read.Ok? && read.value.Some?)
      modifies this`state, this`compressionUnusable
      ensures Valid() && E() == old(E())
      ensures read == Ok(None) ==>
        && R() == old(R()).(state := Terminated)
        && r == Err(if old(state).ClosedByPeer? || old(state).CloseAcknowledged? then ConnectionClosed
                    else Protocol(ResetWithoutClosingHandshake))
      ensures read.Err? ==>
        && r == Err(CheckReset(read.error, old(state)))
        && R() == if read.error == Protocol(UnmaskedFrameFromClient) && deflate != null
                  then Receiving.FailCompression(old(R())) else old(R())
    {
      if read.Err? {
        r := Err(CheckReset(read.error, state));
        if deflate != null && read.error == Protocol(UnmaskedFrameFromClient) {
          FailCompression();
        }
      } else {
        r := Err(if state.ClosedByPeer? || state.CloseAcknowledged? then ConnectionClosed
                 else Protocol(ResetWithoutClosingHandshake));
        state := Terminated;
        WritingKeeps();
      }
    }

    /** The automatic part of `read`: replies first, and the server's own end when there is none. */
    method ReplyFirst(stream: Stream) returns (e: Option<Error>)
      requires Valid() && stream !in Repr && !state.Terminated?
      modifies this`log, this`additionalSend, this`state, this`unflushedAdditional, frame`outBuffer
      modifies stream`outgoing, stream`sent, stream`flushes, stream`flushed
      ensures Valid() && R() == old(R()).(state := state) && E() == old(E())
      ensures Replies(role, MaxBuffer(), old(S(stream)), S(stream)) && stream.Stuck()
      ensures e.None? ==> state == old(state)
      ensures state == old(state) || state.Terminated?
      ensures e.Some? ==> (e.value.Io? && state == old(state)) || (e.value == ConnectionClosed && !old(state).CanRead())
      ensures role.Server? && !old(state).CanRead() && state.Terminated? ==>
        (frame.outBuffer == [] <==> old(additionalSend.Some? || unflushedAdditional || frame.outBuffer == []))
      ensures role.Server? && !old(state).CanRead() && old(additionalSend.None? && !unflushedAdditional) ==>
        e == Some(ConnectionClosed) && S(stream) == old(S(stream)).(state := Terminated)
      ensures old(state).CanRead() && old(additionalSend.None? && !unflushedAdditional) ==>
        e.None? && S(stream) == old(S(stream)) && !unflushedAdditional
    {
      hide Replies, Flushed;
      NothingReplies(role, MaxBuffer(), S(stream));
      if additionalSend.Some? || unflushedAdditional {
        assert R().state == state && !compressionUnusable;
        ghost var a := S(stream);
        var flushed := Flush(stream);
        FlushedReplies(role, MaxBuffer(), a, ErrorOf(flushed), S(stream));
        if flushed.Err? {
          if flushed.error == Io(WouldBlock) {
            unflushedAdditional := true;
            WritingKeeps();
          } else {
            return Some(flushed.error);
          }
        }
      } else if role.Server? && !state.CanRead() {
        state := Terminated;
        WritingKeeps();
        return Some(ConnectionClosed);
      }
      return None;
    }

    /**
     * Reads a message. The message is what the specification delivers for the next frames of the
     * byte stream, however it was cut and whatever replies went out in between; a terminated
     * connection touches nothing.
     */
    method Read(stream: Stream) returns (r: Result<Message, Error>, ghost frames: seq<Frame>)
      requires Valid() && stream !in Repr
      modifies Repr, stream
      ensures Valid() && E() == old(E()) && fresh(Repr - old(Repr))
      ensures Replies(role, MaxBuffer(), old(S(stream)), S(stream)) && stream.Stuck()
      ensures old(stream.delivered) <= stream.delivered
      ensures old(state).Terminated? ==>
        && r == Err(AlreadyClosed) && S(stream) == old(S(stream)) && R() == old(R())
        && stream.delivered == old(stream.delivered) && stream.flushed == old(stream.flushed)
      ensures r.Ok? ==> EndsWithAnswer(old(Cfg()), old(R()), frames, R(), Deliver(r.value))
      ensures !old(state).Terminated? && r.Err? ==>
        || EndsWithAnswer(old(Cfg()), old(R()), frames, R(), Fail(r.error))
        || StoppedBehind(old(Cfg()), old(R()), frames, r.error, R())
      ensures old(frame.Reserved(config.maxFrameSize)) && r != Err(Protocol(UnmaskedFrameFromClient)) ==>
        FramesRead(old(frame.Unconsumed()) + Since(old(stream.delivered), stream.delivered), old(Mode()), frames,
                   frame.Unconsumed())
      ensures old(frame.Reserved(config.maxFrameSize)) && r.Ok? ==> frame.Reserved(config.maxFrameSize)
      ensures UndrainedEnd(old(S(stream)), old(unflushedAdditional)) ==>
        r == Err(ConnectionClosed) && S(stream) == old(S(stream)).(state := Terminated)
      ensures InOrder(MaxBuffer(), old(S(stream))) && r.Ok? ==> AnswerQueued(r.value, state, additionalSend)
      ensures IsIdle(old(S(stream)), old(unflushedAdditional)) && old(NextIn()).Found? ==>
        frames != [] && frames[0] == old(NextIn()).frame
      ensures IsIdle(old(S(stream)), old(unflushedAdditional)) && r.Ok? && |frames| == 1 ==>
        SameWritten(old(S(stream)), S(stream)) && !unflushedAdditional
      ensures r == Err(Protocol(ResetWithoutClosingHandshake)) && old(frame.Reserved(config.maxFrameSize)) ==>
        stream.ended
    {
      hide Receive, NextFrame, Run, FramesRead, AllQuiet, EndsWithAnswer, Sound, Replies, StoppedBehind, StoppedIn,
        InOrder, AnswerQueued, NextIn, SameWritten, Forward;
      frames := [];
      NothingReplies(role, MaxBuffer(), S(stream));
      ghost var cfg, mode, r0, input := Cfg(), Mode(), R(), frame.Unconsumed();
      ghost var s0, start, reserved := S(stream), stream.delivered, frame.Reserved(config.maxFrameSize);
      ghost var next0 := NextIn();
      NothingReadYet(cfg, r0, input, start, mode);
      if state.Terminated? { return Err(AlreadyClosed), []; }
      while true
        invariant Valid() && stream !in Repr && fresh(Repr - old(Repr)) && E() == old(E()) && !state.Terminated?
        invariant Cfg() == cfg && Mode() == mode
        invariant Replies(role, MaxBuffer(), s0, S(stream)) && stream.Stuck()
        invariant start <= stream.delivered
        invariant AllQuiet(cfg, r0, frames, R())
        invariant UndrainedEnd(s0, old(unflushedAdditional)) ==>
          frames == [] && S(stream) == s0 && !unflushedAdditional
        invariant frames == [] ==>
          S(stream) == s0 && unflushedAdditional == old(unflushedAdditional) && NextIn() == next0
        invariant frames != [] && IsIdle(s0, old(unflushedAdditional)) && next0.Found? ==> frames[0] == next0.frame
        invariant reserved ==>
          && frame.Reserved(config.maxFrameSize)
          && FramesRead(input + Since(start, stream.delivered), mode, frames, frame.Unconsumed())
        decreases stream.Supply() + |frame.Unconsumed()|
      {
        ghost var before, rest, mid, a := stream.delivered, frame.Unconsumed(), R(), S(stream);
        var read, got := ReadOnce(stream);
        RepliesThrough(role, MaxBuffer(), s0, a, S(stream));
        if reserved {
          ReadAccounts(input, start, before, stream.delivered, mode, frames, rest, Limit(config.maxFrameSize), got,
                       frame.Unconsumed());
        }
        if got.Ok? && got.value.Some? {
          FrameIsHandled(cfg, r0, frames, mid, got.value.value, s0, a, additionalSend);
          frames := frames + [got.value.value];
        } else {
          StopsBehind(cfg, r0, frames, mid, read.error, R());
        }
        if read.Err? { return Err(read.error), frames; }
        if read.value.Some? { return Ok(read.value.value), frames; }
      }
    }

    lemma StopsBehind(cfg: ReadConfig, r: ReadState, frames: seq<Frame>, mid: ReadState, e: Error, r': ReadState)
      requires AllQuiet(cfg, r, frames, mid) && StoppedIn(mid, e, r')
      ensures StoppedBehind(cfg, r, frames, e, r')
    {
    }

    /** Nothing is waiting and nothing stands in the way of reading. */
    predicate IsIdle(s: Side, unflushed: bool) { s.state.CanRead() && s.waiting.None? && !unflushed }

    predicate SameWritten(a: Side, b: Side) { b.log == a.log && b.buffer == a.buffer && b.sent == a.sent }

    /** A Ping has its Pong queued, and a peer's Close its answer. */
    predicate AnswerQueued(m: Message, state: WsState, waiting: Option<Frame>) {
      match m
      case PingMessage(data) => state.Active? ==> waiting == Some(PongFrame(data))
      case CloseMessage(code) => state.ClosedByPeer? ==> waiting == Some(CloseFrameOf(code))
      case _ => true
    }

    lemma AnswerIsOwed(cfg: ReadConfig, r: ReadState, f: Frame, waiting: Option<Frame>)
      requires var s := Receive(cfg, r, f); s.reply.Some? ==> waiting == s.reply
      ensures var s := Receive(cfg, r, f);
              s.outcome.Deliver? ==> AnswerQueued(s.outcome.message, s.next.state, waiting)
    {
      hide DataReceived, IntoClose, Sanitized;
      if f.header.opcode.DataOp? { DataDelivered(cfg, r, f.header.opcode.data, f); }
    }

    lemma DataDelivered(cfg: ReadConfig, r: ReadState, d: Data, f: Frame)
      ensures var o := DataReceived(cfg, r, d, f).outcome;
              o.Deliver? ==> o.message.TextMessage? || o.message.BinaryMessage?
    {
      hide DecodedPayload, ExtendPartial, FromUtf8;
    }

    /** What one more frame does to a run of quiet ones. */
    lemma FrameIsHandled(cfg: ReadConfig, r: ReadState, frames: seq<Frame>, mid: ReadState, f: Frame,
                         start: Side, a: Side, waiting: Option<Frame>)
      requires AllQuiet(cfg, r, frames, mid) && Replies(role, MaxBuffer(), start, a)
      requires var reply := Receive(cfg, mid, f).reply; InOrder(MaxBuffer(), a) && reply.Some? ==> waiting == reply
      ensures var s := Receive(cfg, mid, f);
              && (if s.outcome.Quiet? then AllQuiet(cfg, r, frames + [f], s.next) && s.next.state == mid.state
                  else EndsWithAnswer(cfg, r, frames + [f], s.next, s.outcome))
              && (InOrder(MaxBuffer(), start) && s.outcome.Deliver? ==>
                    AnswerQueued(s.outcome.message, s.next.state, waiting))
              && s.outcome != Fail(Protocol(ResetWithoutClosingHandshake))
    {
      QuietThen(cfg, r, frames, mid, f);
      NoFrameResets(cfg, mid, f);
      hide Receive, AllQuiet, EndsWithAnswer, Replies, AnswerQueued, InOrder;
      if InOrder(MaxBuffer(), start) {
        RepliesKeepOrder(role, MaxBuffer(), start, a);
        AnswerIsOwed(cfg, mid, f, waiting);
      }
    }

    lemma NoFrameResets(cfg: ReadConfig, r: ReadState, f: Frame)
      ensures Receive(cfg, r, f).outcome != Fail(Protocol(ResetWithoutClosingHandshake))
    {
      hide Feed, FromUtf8, Collect;
    }

    lemma ReplyIsQueued(a: Side, b: Side, cfg: ReadConfig, r: ReadState, f: Frame)
      requires Replies(role, MaxBuffer(), a, b) && b.state == r.state
      ensures var reply := Receive(cfg, r, f).reply;
              InOrder(MaxBuffer(), a) && reply.Some? ==> Queued(b.waiting, reply.value) == reply
    {
      StatesAndReplies(cfg, r, f);
      hide Receive;
      if InOrder(MaxBuffer(), a) { RepliesKeepOrder(role, MaxBuffer(), a, b); }
    }

    lemma RepliesKeepOrder(role: Role, max: nat, a: Side, b: Side)
      requires Replies(role, max, a, b) && InOrder(max, a)
      ensures InOrder(max, b)
    {
    }

    /** A server that may not read and has nothing waiting ends here, with its buffer as it is. */
    predicate UndrainedEnd(s: Side, unflushed: bool) {
      role.Server? && !s.state.CanRead() && !s.state.Terminated? && s.waiting.None? && !unflushed
    }

    lemma NothingReadYet(cfg: ReadConfig, r: ReadState, input: bytes, start: bytes, mode: ReadMode)
      ensures AllQuiet(cfg, r, [], r) && FramesRead(input + Since(start, start), mode, [], input)
    {
    }

    /**
     * A read that stopped between frames. A frame thrown away unread takes a compressed connection
     * out of service; the end of the stream, and the server's own end, terminate; anything else
     * leaves the reading side as it was.
     */
    static predicate StoppedIn(r: ReadState, e: Error, r': ReadState) {
      match e
      case Protocol(UnmaskedFrameFromClient) => r' == if r.decoder.Some? then Receiving.FailCompression(r) else r
      case Protocol(ResetWithoutClosingHandshake) => r' == r.(state := Terminated)
      case ConnectionClosed => !r.state.CanRead() && (r' == r || r' == r.(state := Terminated))
      case Protocol(InvalidOpcode(_)) => r' == r
      case MessageTooLong(_, _) => r' == r
      case Io(_) => r' == r
      case _ => false
    }

    static predicate StoppedBehind(cfg: ReadConfig, r: ReadState, frames: seq<Frame>, e: Error, r': ReadState) {
      AllQuiet(cfg, r, frames, Run(cfg, r, frames).0) && StoppedIn(Run(cfg, r, frames).0, e, r')
    }

    /** One turn of the loop in `read`. */
    method ReadOnce(stream: Stream)
      returns (r: Result<Option<Message>, Error>, ghost got: Result<Option<Frame>, Error>)
      requires Valid() && stream !in Repr && !state.Terminated?
      modifies Repr, stream
      ensures Valid() && E() == old(E()) && fresh(Repr - old(Repr)) && Cfg() == old(Cfg()) && Mode() == old(Mode())
      ensures Replies(role, MaxBuffer(), old(S(stream)), S(stream)) && stream.Stuck()
      ensures old(stream.delivered) <= stream.delivered
      ensures stream.Supply() + |stream.delivered| <= old(stream.Supply() + |stream.delivered|)
      ensures r.Ok? ==> got.Ok? && got.value.Some?
      ensures UndrainedEnd(old(S(stream)), old(unflushedAdditional)) ==>
        && !(got.Ok? && got.value.Some?) && r == Err(ConnectionClosed)
        && S(stream) == old(S(stream)).(state := Terminated)
      ensures !(got.Ok? && got.value.Some?) ==>
        && StoppedIn(old(R()), r.error, R())
        && (r != Err(Protocol(UnmaskedFrameFromClient)) ==>
              frame.Unconsumed() == old(frame.Unconsumed()) + Since(old(stream.delivered), stream.delivered))
      ensures got.Ok? && got.value.Some? ==>
        && (old(frame.Reserved(config.maxFrameSize)) ==> frame.Reserved(config.maxFrameSize))
        && ReadAnswers(old(frame.Unconsumed()) + Since(old(stream.delivered), stream.delivered),
                       old(frame.EffectiveMode(Mode())), Limit(config.maxFrameSize), got, frame.Unconsumed())
        && var spec := Receive(old(Cfg()), old(R()), got.value.value);
           && R() == spec.next && r == Answer(spec.outcome)
           && (InOrder(MaxBuffer(), old(S(stream))) && spec.reply.Some? ==> additionalSend == spec.reply)
      ensures IsIdle(old(S(stream)), old(unflushedAdditional)) ==>
        && (old(NextIn()).Found? ==> got == Ok(Some(old(NextIn()).frame)))
        && SameWritten(old(S(stream)), S(stream)) && !unflushedAdditional
      ensures r == Err(Protocol(ResetWithoutClosingHandshake)) && !(got.Ok? && got.value.Some?) ==>
        stream.ended || (!old(frame.Reserved(config.maxFrameSize)) && frame.Spare() == 0)
    {
      hide Receive, NextFrame, Replies, ReadAnswers, InOrder, Queued;
      ghost var a, all, mode := S(stream), frame.Unconsumed(), frame.EffectiveMode(Mode());
      var e := ReplyFirst(stream);
      if e.Some? {
        assert all + Since(stream.delivered, stream.delivered) == all;
        return Err(e.value), Ok(None);
      }
      hide StoppedIn;
      ghost var b := S(stream);
      assert R() == old(R()) && frame.EffectiveMode(Mode()) == mode && frame.Unconsumed() == all;
      ghost var cfg, mid := Cfg(), R();
      r, got := ReadNext(stream);
      if got.Ok? && got.value.Some? { ReplyIsQueued(a, b, cfg, mid, got.value.value); }
      RepliesThrough(role, MaxBuffer(), a, b, S(stream));
    }

    /** The next frame, and what becomes of it. */
    method ReadNext(stream: Stream)
      returns (r: Result<Option<Message>, Error>, ghost got: Result<Option<Frame>, Error>)
      requires Valid() && stream !in Repr
      modifies Repr, stream`incoming, stream`delivered, stream`ended
      ensures Valid() && E() == old(E()) && fresh(Repr - old(Repr)) && Cfg() == old(Cfg()) && Mode() == old(Mode())
      ensures Replies(role, MaxBuffer(), old(S(stream)), S(stream)) && SameWritten(old(S(stream)), S(stream))
      ensures unflushedAdditional == old(unflushedAdditional)
      ensures old(stream.delivered) <= stream.delivered
      ensures stream.Supply() + |stream.delivered| <= old(stream.Supply() + |stream.delivered|)
      ensures r.Ok? ==> got.Ok? && got.value.Some?
      ensures !(got.Ok? && got.value.Some?) ==>
        && StoppedIn(old(R()), r.error, R())
        && (r != Err(Protocol(UnmaskedFrameFromClient)) ==>
              frame.Unconsumed() == old(frame.Unconsumed()) + Since(old(stream.delivered), stream.delivered))
      ensures got.Ok? && got.value.Some? ==>
        && (old(frame.Reserved(config.maxFrameSize)) ==> frame.Reserved(config.maxFrameSize))
        && ReadAnswers(old(frame.Unconsumed()) + Since(old(stream.delivered), stream.delivered),
                       old(frame.EffectiveMode(Mode())), Limit(config.maxFrameSize), got, frame.Unconsumed())
        && var spec := Receive(old(Cfg()), old(R()), got.value.value);
           && R() == spec.next && r == Answer(spec.outcome)
           && additionalSend == (if spec.reply.None? then old(additionalSend)
                                 else Queued(old(additionalSend), spec.reply.value))
      ensures old(NextIn()).Found? ==> got == Ok(Some(old(NextIn()).frame))
      ensures r == Err(Protocol(ResetWithoutClosingHandshake)) && !(got.Ok? && got.value.Some?) ==>
        stream.ended || (!old(frame.Reserved(config.maxFrameSize)) && frame.Spare() == 0)
    {
      hide Receive, NextFrame, Replies, ReadAnswers, StoppedIn, CheckReset;
      ghost var cfg, r0, a, all := Cfg(), R(), S(stream), frame.Unconsumed();
      ghost var mode := frame.EffectiveMode(Mode());
      r, got := ReadMessageFrame(stream);
      FoundIsRead(all, Since(old(stream.delivered), stream.delivered), mode, Limit(config.maxFrameSize), got,
                  frame.Unconsumed());
      if !(got.Ok? && got.value.Some?) {
        StopsWithoutFrame(all + Since(old(stream.delivered), stream.delivered), mode, Limit(config.maxFrameSize), got,
                          frame.Unconsumed(), r0, r.error, R());
      }
      FrameReplies(cfg, r0, a, got, S(stream), R());
    }

    /** What the codec's answer comes to when there is no frame. */
    static lemma StopsWithoutFrame(all: bytes, mode: ReadMode, limit: nat, got: Result<Option<Frame>, Error>,
                                   left: bytes, r: ReadState, e: Error, r': ReadState)
      requires ReadAnswers(all, mode, limit, got, left) && !(got.Ok? && got.value.Some?)
      requires got == Ok(None) ==>
        && r' == r.(state := Terminated)
        && e == if r.state.ClosedByPeer? || r.state.CloseAcknowledged? then ConnectionClosed
                else Protocol(ResetWithoutClosingHandshake)
      requires got.Err? ==>
        && e == CheckReset(got.error, r.state)
        && r' == if got.error == Protocol(UnmaskedFrameFromClient) && r.decoder.Some?
                 then Receiving.FailCompression(r) else r
      ensures StoppedIn(r, e, r') && (e != Protocol(UnmaskedFrameFromClient) ==> left == all)
      ensures e == Protocol(ResetWithoutClosingHandshake) ==> got == Ok(None)
    {
      hide NextFrame;
    }

    /** A frame that is there already is the next one read. */
    static lemma FoundIsRead(all: bytes, more: bytes, mode: ReadMode, limit: nat, got: Result<Option<Frame>, Error>,
                             left: bytes)
      requires ReadAnswers(all + more, mode, limit, got, left)
      ensures NextFrame(all, mode).Found? ==> got == Ok(Some(NextFrame(all, mode).frame))
    {
      NextFrameIsStable(all, more, mode);
      hide NextFrame;
    }

    lemma RepliesArePlain(cfg: ReadConfig, r: ReadState, f: Frame)
      ensures var reply := Receive(cfg, r, f).reply;
              reply.Some? ==> IsPlainControl(reply.value) && reply.value.header.mask.None?
    {
    }

    /** One handled frame, or the end of the stream, keeps the order. */
    lemma FrameReplies(cfg: ReadConfig, r: ReadState, a: Side, got: Result<Option<Frame>, Error>, b: Side,
                       r': ReadState)
      requires a.state == r.state && b.state == r'.state
      requires a.log == b.log && a.buffer == b.buffer && a.sent == b.sent
      requires got.Ok? && got.value.Some? ==>
        var s := Receive(cfg, r, got.value.value);
        r' == s.next && b.waiting == if s.reply.None? then a.waiting else Queued(a.waiting, s.reply.value)
      requires !(got.Ok? && got.value.Some?) ==>
        b.waiting == a.waiting && (r'.state == r.state || r'.state.Terminated?)
      ensures Replies(role, MaxBuffer(), a, b)
    {
      hide Receive, Keeps, Sound;
      if got.Ok? && got.value.Some? {
        RepliesArePlain(cfg, r, got.value.value);
        ReceiveKeepsOrder(role, MaxBuffer(), cfg, r, got.value.value, a, b);
      } else {
        NothingKeeps(role, MaxBuffer(), a);
        assert b == a || b == a.(state := Terminated);
      }
      assert b.log[|a.log|..] == [];
    }
  }
}
