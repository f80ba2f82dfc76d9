/**
 * What one incoming frame does to a connection: the specification of
 * `WebSocketContext::read_message_frame` behind the frame codec (src/protocol/mod.rs).
 */
module Receiving {
  import opened Bytes
  import opened Utf8
  import opened Frames
  import opened Assembly
  import opened Lz
  import opened Codec

  datatype WsState = Active | ClosedByUs | ClosedByPeer | CloseAcknowledged | Terminated {
    predicate CanRead() { Active? || ClosedByUs? }
  }

  /** The part of the configuration that reading depends on; fixed during a run. */
  datatype ReadConfig = ReadConfig(role: Role, maxMessageSize: Option<nat>, resetDecoder: bool)

  /** The part of the connection that reading depends on. */
  datatype ReadState = ReadState(
    state: WsState,
    incomplete: Option<Partial>,
    decoder: Option<Inflater>,
    compressedIncomplete: bool,
    unusable: bool)

  datatype Outcome = Deliver(message: Message) | Quiet | Fail(error: Error)

  /** The new state, what the caller sees, and an automatic reply to queue. */
  datatype Received = Received(next: ReadState, outcome: Outcome, reply: Option<Frame>)

  // ----- Taking the connection out of service -----

  /** A decoder of which nothing is known any more. */
  const DEAD: Inflater := Inflater(0, [], [])

  function FailCompression(r: ReadState): ReadState {
    r.(unusable := true, state := Terminated, decoder := if r.decoder.Some? then Some(DEAD) else None)
  }

  /** Does a frame that will not be decoded claim compressed bytes? */
  predicate Claims(r: ReadState, h: FrameHeader) {
    h.rsv1 || (h.opcode == DataOp(Continue) && (r.compressedIncomplete || r.incomplete.None?))
  }

  function Discard(r: ReadState, h: FrameHeader): ReadState {
    if Claims(r, h) && r.decoder.Some? then FailCompression(r) else r
  }

  predicate ReservedBitsSet(r: ReadState, h: FrameHeader) {
    || (h.rsv1 && (r.decoder.None? || (h.opcode != DataOp(Text) && h.opcode != DataOp(Binary))))
    || h.rsv2 || h.rsv3
  }

  // ----- Control frames -----

  /** "Protocol violation" */
  const VIOLATION_TEXT: bytes := [80, 114, 111, 116, 111, 99, 111, 108, 32, 118, 105, 111, 108, 97, 116, 105, 111, 110]

  /** The close frame handed to the user and echoed: a forbidden code is a protocol violation. */
  function Sanitized(close: Option<CloseFrame>): Option<CloseFrame> {
    match close
    case Some(c) => if IsAllowed(c.code) then close else Some(CloseFrame(PROTOCOL_VIOLATION, VIOLATION_TEXT))
    case None => None
  }

  function CloseReceived(r: ReadState, close: Option<CloseFrame>): Received {
    match r.state
    case Active =>
      Received(r.(state := ClosedByPeer), Deliver(CloseMessage(Sanitized(close))), Some(CloseFrameOf(Sanitized(close))))
    case ClosedByUs => Received(r.(state := CloseAcknowledged), Deliver(CloseMessage(close)), None)
    case _ => Received(r, Quiet, None)
  }

  function ControlReceived(r: ReadState, c: Control, f: Frame): Received {
    if !f.header.isFinal then Received(r, Fail(Protocol(FragmentedControlFrame)), None)
    else if |f.payload| > 125 then Received(r, Fail(Protocol(ControlFrameTooBig)), None)
    else match c
      case Close =>
        (match IntoClose(f.payload)
         case Err(e) => Received(r, Fail(e), None)
         case Ok(close) => CloseReceived(r, close))
      case ReservedControl(i) => Received(r, Fail(Protocol(UnknownControlFrameType(i))), None)
      case Ping =>
        Received(r, Deliver(PingMessage(f.payload)), if r.state.Active? then Some(PongFrame(f.payload)) else None)
      case Pong => Received(r, Deliver(PongMessage(f.payload)), None)
  }

  // ----- Data frames -----

  function KindOf(d: Data): MessageType
    requires d.Text? || d.Binary?
  {
    if d.Text? then TextType else BinaryType
  }

  /** A whole message in one frame. */
  function Whole(kind: MessageType, payload: bytes, maxSize: Option<nat>): Outcome {
    if maxSize.Some? && |payload| > maxSize.value then Fail(MessageTooLong(|payload|, maxSize.value))
    else if kind.BinaryType? then Deliver(BinaryMessage(payload))
    else if FromUtf8(payload).Valid? then Deliver(TextMessage(payload))
    else Fail(InvalidUtf8)
  }

  function Completion(p: Partial): Outcome {
    match CompletePartial(p) case Ok(m) => Deliver(m) case Err(e) => Fail(e)
  }

  /** Assembly of a frame's (decompressed) payload. */
  function Assemble(cfg: ReadConfig, r: ReadState, d: Data, isFinal: bool, payload: bytes): Received {
    match r.incomplete
    case Some(p) =>
      if !d.Continue? then Received(r, Fail(Protocol(ExpectedFragment(d))), None)
      else
        var (e, p') := ExtendPartial(p, payload, cfg.maxMessageSize);
        if e.Some? then Received(r.(incomplete := Some(p')), Fail(e.value), None)
        else if !isFinal then Received(r.(incomplete := Some(p')), Quiet, None)
        else Received(r.(incomplete := None), Completion(p'), None)
    case None =>
      match d
      case Continue => Received(r, Fail(Protocol(UnexpectedContinueFrame)), None)
      case ReservedData(i) => Received(r, Fail(Protocol(UnknownDataFrameType(i))), None)
      case _ =>
        if isFinal then Received(r, Whole(KindOf(d), payload, cfg.maxMessageSize), None)
        else
          var (e, p) := ExtendPartial(Partial(KindOf(d), []), payload, cfg.maxMessageSize);
          if e.Some? then Received(r, Fail(e.value), None)
          else Received(r.(incomplete := Some(p)), Quiet, None)
  }

  /** Does this frame own the message stream, that is, may it be decoded? */
  predicate OwnsStream(r: ReadState, d: Data) {
    d.Continue? == r.incomplete.Some?
  }

  predicate IsCompressedFrame(r: ReadState, f: Frame) {
    match f.header.opcode
    case DataOp(Continue) => r.compressedIncomplete
    case DataOp(Text) => f.header.rsv1
    case DataOp(Binary) => f.header.rsv1
    case _ => false
  }

  /** The saved mode of the open message. */
  function SavedMode(r: ReadState, d: Data, isFinal: bool, compressed: bool): bool {
    match d
    case Continue => if isFinal then false else r.compressedIncomplete
    case ReservedData(_) => r.compressedIncomplete
    case _ => if isFinal then r.compressedIncomplete else compressed
  }

  function HeldSize(r: ReadState): nat {
    match r.incomplete case Some(p) => |p.held| case None => 0
  }

  /** The payload to assemble: a frame out of turn is discarded, a compressed one goes through the decoder. */
  function DecodedPayload(cfg: ReadConfig, r: ReadState, d: Data, f: Frame): (ReadState, Result<bytes, Error>) {
    var isFinal := f.header.isFinal;
    if !OwnsStream(r, d) then (Discard(r, f.header), Ok(f.payload))
    else
      var compressed := IsCompressedFrame(r, f);
      if compressed && r.decoder.Some? then
        match DecompressSpec(r.decoder.value, cfg.resetDecoder, f.payload, isFinal, HeldSize(r), cfg.maxMessageSize)
        case Err(e) => (FailCompression(r), Err(e))
        case Ok((payload, decoder)) =>
          (r.(decoder := Some(decoder), compressedIncomplete := SavedMode(r, d, isFinal, true)), Ok(payload))
      else
        (r.(compressedIncomplete := SavedMode(r, d, isFinal, compressed)), Ok(f.payload))
  }

  function DataReceived(cfg: ReadConfig, r: ReadState, d: Data, f: Frame): Received {
    var (next, payload) := DecodedPayload(cfg, r, d, f);
    match payload
    case Err(e) => Received(next, Fail(e), None)
    case Ok(p) => Assemble(cfg, next, d, f.header.isFinal, p)
  }

  /** One frame, in the order of the checks. */
  function Receive(cfg: ReadConfig, r: ReadState, f: Frame): Received {
    if !r.state.CanRead() then Received(r, Fail(Protocol(ReceivedAfterClosing)), None)
    else if ReservedBitsSet(r, f.header) then
      Received(Discard(r, f.header), Fail(Protocol(NonZeroReservedBits)), None)
    else if cfg.role.Client? && f.IsMasked() then
      Received(Discard(r, f.header), Fail(Protocol(MaskedFrameFromServer)), None)
    else match f.header.opcode
      case DataOp(d) => DataReceived(cfg, r, d, f)
      case ControlOp(c) => ControlReceived(r, c, f)
  }

  /** A run over any frames; errors do not end it, since the caller may read on. */
  function Run(cfg: ReadConfig, r: ReadState, fs: seq<Frame>): (result: (ReadState, seq<Outcome>))
    ensures |result.1| == |fs|
    decreases |fs|
  {
    if fs == [] then (r, [])
    else
      var first := Receive(cfg, r, fs[0]);
      var (last, rest) := Run(cfg, first.next, fs[1..]);
      (last, [first.outcome] + rest)
  }

  lemma {:induction false} RunAppend(cfg: ReadConfig, r: ReadState, a: seq<Frame>, b: seq<Frame>)
    ensures var (mid, first) := Run(cfg, r, a);
            var (last, second) := Run(cfg, mid, b);
            Run(cfg, r, a + b) == (last, first + second)
    decreases |a|
  {
    if a == [] {
      assert a + b == b;
      assert [] + Run(cfg, r, b).1 == Run(cfg, r, b).1;
    } else {
      var step := Receive(cfg, r, a[0]);
      assert (a + b)[1..] == a[1..] + b;
      RunAppend(cfg, step.next, a[1..], b);
      Assoc([step.outcome], Run(cfg, step.next, a[1..]).1, Run(cfg, Run(cfg, step.next, a[1..]).0, b).1);
    }
  }

  /** The frames of a run in which nothing was delivered and nothing failed. */
  predicate AllQuiet(cfg: ReadConfig, r: ReadState, fs: seq<Frame>, last: ReadState) {
    && Run(cfg, r, fs).0 == last
    && forall o :: o in Run(cfg, r, fs).1 ==> o.Quiet?
  }

  /** The frames of a run that ends with its first answer. */
  predicate EndsWithAnswer(cfg: ReadConfig, r: ReadState, fs: seq<Frame>, last: ReadState, answer: Outcome) {
    && fs != [] && !answer.Quiet?
    && Run(cfg, r, fs).0 == last && Run(cfg, r, fs).1[|fs| - 1] == answer
    && forall i :: 0 <= i < |fs| - 1 ==> Run(cfg, r, fs).1[i].Quiet?
  }

  lemma QuietThen(cfg: ReadConfig, r: ReadState, fs: seq<Frame>, mid: ReadState, f: Frame)
    requires AllQuiet(cfg, r, fs, mid)
    ensures var s := Receive(cfg, mid, f);
            if s.outcome.Quiet? then AllQuiet(cfg, r, fs + [f], s.next) && s.next.state == mid.state
            else EndsWithAnswer(cfg, r, fs + [f], s.next, s.outcome)
  {
    var s := Receive(cfg, mid, f);
    RunAppend(cfg, r, fs, [f]);
    assert Run(cfg, mid, [f]) == (s.next, [s.outcome]) by { assert [s.outcome] + [] == [s.outcome]; }
  }

  // ----- What every step keeps -----

  /** The open message is within the limit, the decoder is one, and only a codec decompresses. */
  ghost predicate Sound(cfg: ReadConfig, r: ReadState) {
    && (r.incomplete.Some? ==> |r.incomplete.value.held| <= Limit(cfg.maxMessageSize))
    && (r.incomplete.Some? && r.incomplete.value.kind.TextType? ==> Viable(r.incomplete.value.held))
    && (r.compressedIncomplete ==> r.decoder.Some?)
    && (r.decoder.Some? ==> IsInflater(r.decoder.value))
    && (r.unusable ==> r.state.Terminated?)
  }

  lemma {:induction false} FeedKeepsWindow(d: Inflater, input: bytes)
    requires IsInflater(d) && Feed(d, input).next.Some?
    ensures var d' := Feed(d, input).next.value; IsInflater(d') && d'.size == d.size
    decreases |input|
  {
    if input != [] {
      FeedKeepsWindow(FeedByte(d, input[0]).next.value, input[1..]);
    }
  }

  lemma HeldIsValid(s: bytes)
    ensures FromUtf8(s[..ValidUpTo(s)]).Valid?
  {
    PrefixIsValid(s);
  }

  lemma ExtendKeeps(p: Partial, tail: bytes, maxSize: Option<nat>)
    requires |p.held| <= Limit(maxSize) && (p.kind.TextType? ==> Viable(p.held))
    ensures var p' := ExtendPartial(p, tail, maxSize).1;
            |p'.held| <= Limit(maxSize) && p'.kind == p.kind && (p.kind.TextType? ==> Viable(p'.held))
  {
    if p.kind.TextType? { HeldIsValid(p.held + tail); }
  }

  lemma AssembleKeeps(cfg: ReadConfig, r: ReadState, d: Data, isFinal: bool, payload: bytes)
    requires Sound(cfg, r)
    ensures Sound(cfg, Assemble(cfg, r, d, isFinal, payload).next)
  {
    if r.incomplete.Some? { ExtendKeeps(r.incomplete.value, payload, cfg.maxMessageSize); }
    if d.Text? || d.Binary? { ExtendKeeps(Partial(KindOf(d), []), payload, cfg.maxMessageSize); }
  }

  lemma DecompressKeepsWindow(d: Inflater, reset: bool, input: bytes, isFinal: bool, held: nat, maxSize: Option<nat>)
    requires IsInflater(d)
    ensures var r := DecompressSpec(d, reset, input, isFinal, held, maxSize);
            r.Ok? ==> IsInflater(r.value.1) && r.value.1.size == d.size
  {
    var fed := if isFinal then input + TRAILER else input;
    if Feed(d, fed).next.Some? { FeedKeepsWindow(d, fed); }
    hide Feed, Lex;
  }

  lemma DecodedKeeps(cfg: ReadConfig, r: ReadState, d: Data, f: Frame)
    requires Sound(cfg, r) && f.header.opcode == DataOp(d)
    requires f.header.rsv1 ==> r.decoder.Some?
    ensures Sound(cfg, DecodedPayload(cfg, r, d, f).0)
  {
    if OwnsStream(r, d) && IsCompressedFrame(r, f) {
      DecompressKeepsWindow(r.decoder.value, cfg.resetDecoder, f.payload, f.header.isFinal, HeldSize(r),
                            cfg.maxMessageSize);
    }
  }

  lemma DataKeeps(cfg: ReadConfig, r: ReadState, d: Data, f: Frame)
    requires Sound(cfg, r) && f.header.opcode == DataOp(d)
    requires f.header.rsv1 ==> r.decoder.Some?
    ensures Sound(cfg, DataReceived(cfg, r, d, f).next)
  {
    hide Sound, DecodedPayload, Assemble;
    DecodedKeeps(cfg, r, d, f);
    var (next, payload) := DecodedPayload(cfg, r, d, f);
    if payload.Ok? { AssembleKeeps(cfg, next, d, f.header.isFinal, payload.value); }
  }

  lemma ReceiveKeeps(cfg: ReadConfig, r: ReadState, f: Frame)
    requires Sound(cfg, r)
    ensures Sound(cfg, Receive(cfg, r, f).next)
  {
    if f.header.opcode.DataOp? && r.state.CanRead() && !ReservedBitsSet(r, f.header) {
      DataKeeps(cfg, r, f.header.opcode.data, f);
    }
  }

  /** Connection states only move forward. */
  predicate Forward(a: WsState, b: WsState) {
    match a
    case Active => true
    case ClosedByUs => b.ClosedByUs? || b.CloseAcknowledged? || b.Terminated?
    case ClosedByPeer => b.ClosedByPeer? || b.Terminated?
    case CloseAcknowledged => b.CloseAcknowledged? || b.Terminated?
    case Terminated => b.Terminated?
  }

  lemma ReceiveMovesForward(cfg: ReadConfig, r: ReadState, f: Frame)
    ensures Forward(r.state, Receive(cfg, r, f).next.state)
    ensures r.unusable ==> Receive(cfg, r, f).next.unusable || r.state.CanRead()
    ensures !r.state.CanRead() ==> Receive(cfg, r, f).next == r
  {
    hide DecompressSpec, ExtendPartial, IntoClose, Completion, Whole, Sanitized, IsCompressedFrame;
  }

  // ----- No compressed byte is skipped -----

  /** What the peer's compressor is known to have produced, by the code's own classification. */
  predicate CarriesCompressed(r: ReadState, f: Frame) {
    r.state.CanRead() && r.decoder.Some? && Claims(r, f.header)
  }

  /** The decoder after a claimed frame is fed to it whole, with the trailer if it is the last. */
  function FedWhole(d: Inflater, reset: bool, f: Frame): Option<Inflater> {
    match Feed(d, if f.header.isFinal then f.payload + TRAILER else f.payload).next
    case None => None
    case Some(d') => Some(if f.header.isFinal && reset then Inflater(d.size, [], []) else d')
  }

  /**
   * Each frame split off while reading is allowed that claims compression is fed to the decoder
   * whole or ends the connection; any other frame leaves the decoder alone.
   */
  lemma FedOrLatched(cfg: ReadConfig, r: ReadState, f: Frame)
    requires Sound(cfg, r) && !r.unusable
    ensures var n := Receive(cfg, r, f).next;
            if CarriesCompressed(r, f) then
              n.unusable || n.decoder == FedWhole(r.decoder.value, cfg.resetDecoder, f)
            else
              !n.unusable && n.decoder == r.decoder
  {
  }

  /**
   * What happens to the reading side: a frame; the news that one was thrown away unread for being
   * unmasked; or, between frames, a call of its own that moves the state, or the end of the stream.
   */
  datatype Arrival = Arrived(frame: Frame) | ThrownAway | Moved(to: WsState)

  function AfterArrival(cfg: ReadConfig, r: ReadState, a: Arrival): ReadState {
    match a
    case Arrived(f) => Receive(cfg, r, f).next
    case ThrownAway => if r.decoder.Some? then FailCompression(r) else r
    case Moved(to) => if Forward(r.state, to) then r.(state := to) else r
  }

  function AfterArrivals(cfg: ReadConfig, r: ReadState, arrivals: seq<Arrival>): ReadState
    decreases |arrivals|
  {
    if arrivals == [] then r else AfterArrivals(cfg, AfterArrival(cfg, r, arrivals[0]), arrivals[1..])
  }

  /** The claimed frames of a run, in order. */
  function Claimed(cfg: ReadConfig, r: ReadState, arrivals: seq<Arrival>): seq<Frame>
    decreases |arrivals|
  {
    if arrivals == [] then []
    else
      (if arrivals[0].Arrived? && CarriesCompressed(r, arrivals[0].frame) then [arrivals[0].frame] else [])
      + Claimed(cfg, AfterArrival(cfg, r, arrivals[0]), arrivals[1..])
  }

  function FeedAllWhole(d: Inflater, reset: bool, fs: seq<Frame>): Option<Inflater>
    decreases |fs|
  {
    if fs == [] then Some(d)
    else match FedWhole(d, reset, fs[0])
      case None => None
      case Some(d') => FeedAllWhole(d', reset, fs[1..])
  }

  lemma ArrivalKeeps(cfg: ReadConfig, r: ReadState, a: Arrival)
    requires Sound(cfg, r)
    ensures Sound(cfg, AfterArrival(cfg, r, a)) && (r.decoder.Some? ==> AfterArrival(cfg, r, a).decoder.Some?)
    ensures r.unusable ==> AfterArrival(cfg, r, a).unusable
  {
    if a.Arrived? {
      ReceiveKeeps(cfg, r, a.frame);
      ReceiveMovesForward(cfg, r, a.frame);
      if !r.unusable { FedOrLatched(cfg, r, a.frame); }
    }
  }

  lemma {:induction false} UnusableStays(cfg: ReadConfig, r: ReadState, arrivals: seq<Arrival>)
    requires Sound(cfg, r) && r.unusable
    ensures AfterArrivals(cfg, r, arrivals).unusable
    decreases |arrivals|
  {
    if arrivals != [] {
      ArrivalKeeps(cfg, r, arrivals[0]);
      UnusableStays(cfg, AfterArrival(cfg, r, arrivals[0]), arrivals[1..]);
    }
  }

  /**
   * In every run over arbitrary frames, with calls of its own in between, that leaves the connection
   * usable, no frame was thrown away
   * unread, and the decoder has been fed exactly the claimed frames, each of them whole, in order
   * and nothing else.
   */
  lemma {:induction false} NoCompressedByteIsSkipped(cfg: ReadConfig, r: ReadState, arrivals: seq<Arrival>)
    requires Sound(cfg, r) && r.decoder.Some? && !AfterArrivals(cfg, r, arrivals).unusable
    ensures !r.unusable && ThrownAway !in arrivals
    ensures AfterArrivals(cfg, r, arrivals).decoder
         == FeedAllWhole(r.decoder.value, cfg.resetDecoder, Claimed(cfg, r, arrivals))
    decreases |arrivals|
  {
    if r.unusable { UnusableStays(cfg, r, arrivals); }
    if arrivals != [] {
      var a, n := arrivals[0], AfterArrival(cfg, r, arrivals[0]);
      ArrivalKeeps(cfg, r, a);
      if n.unusable { UnusableStays(cfg, n, arrivals[1..]); }
      if a.Arrived? { FedOrLatched(cfg, r, a.frame); }
      hide Receive, CarriesCompressed, Sound, Forward;
      NoCompressedByteIsSkipped(cfg, n, arrivals[1..]);
      FeedFirst(cfg, r, arrivals);
    }
  }

  lemma FeedFirst(cfg: ReadConfig, r: ReadState, arrivals: seq<Arrival>)
    requires arrivals != []
    ensures var first := arrivals[0];
            var rest := Claimed(cfg, AfterArrival(cfg, r, first), arrivals[1..]);
            Claimed(cfg, r, arrivals)
              == if first.Arrived? && CarriesCompressed(r, first.frame) then [first.frame] + rest else rest
  {
  }

  /** Once out of service, no frame changes anything, and every frame is refused. */
  lemma {:induction false} LatchIsFinal(cfg: ReadConfig, r: ReadState, fs: seq<Frame>)
    requires Sound(cfg, r) && r.unusable
    ensures Run(cfg, r, fs).0 == r
    ensures forall o :: o in Run(cfg, r, fs).1 ==> o == Fail(Protocol(ReceivedAfterClosing))
    decreases |fs|
  {
    if fs != [] { LatchIsFinal(cfg, r, fs[1..]); }
  }

  // ----- The inflate budget covers the message -----

  /**
   * Whatever the decoder lets through fits: behind a successful decompression, assembly never
   * refuses a frame for its size, and the decoder's own refusal names exactly one byte too many.
   */
  lemma NoSecondSizeCheck(cfg: ReadConfig, r: ReadState, d: Data, f: Frame)
    requires Sound(cfg, r) && f.header.opcode == DataOp(d) && Limit(cfg.maxMessageSize) < USIZE_MAX
    requires OwnsStream(r, d) && IsCompressedFrame(r, f) && r.decoder.Some?
    ensures var (next, payload) := DecodedPayload(cfg, r, d, f);
            && (payload.Ok? ==>
                  && HeldSize(r) + |payload.value| <= cfg.maxMessageSize.value
                  && var outcome := DataReceived(cfg, r, d, f).outcome;
                     !(outcome.Fail? && outcome.error.MessageTooLong?))
            && (payload.Err? && payload.error.MessageTooLong? ==>
                  payload.error == MessageTooLong(cfg.maxMessageSize.value + 1, cfg.maxMessageSize.value))
  {
    hide Feed, FromUtf8, Collect;
  }

  // ----- The saved mode is the open message's first RSV1 bit -----

  /** Is this frame decoded and assembled at all? */
  predicate IsDecoded(cfg: ReadConfig, r: ReadState, f: Frame) {
    && r.state.CanRead() && !ReservedBitsSet(r, f.header) && !(cfg.role.Client? && f.IsMasked())
    && f.header.opcode.DataOp? && !f.header.opcode.data.ReservedData? && OwnsStream(r, f.header.opcode.data)
    && DecodedPayload(cfg, r, f.header.opcode.data, f).1.Ok?
  }

  /** The guards of `extend`: the size, and for text the bytes. */
  predicate ExtendRefuses(p: Partial, payload: bytes, maxSize: Option<nat>) {
    |p.held| + |payload| > Limit(maxSize) || (p.kind.TextType? && !Viable(p.held + payload))
  }

  /** What a decoded frame extends. */
  function Extended(r: ReadState, d: Data): Partial
    requires OwnsStream(r, d) && !d.ReservedData?
  {
    if r.incomplete.Some? then r.incomplete.value else Partial(KindOf(d), [])
  }

  predicate RefusedByExtend(cfg: ReadConfig, r: ReadState, f: Frame) {
    && IsDecoded(cfg, r, f)
    && ExtendRefuses(Extended(r, f.header.opcode.data), DecodedPayload(cfg, r, f.header.opcode.data, f).1.value,
                     cfg.maxMessageSize)
  }

  /** The refused frames behind which the saved mode is stale. */
  predicate LeavesTheMode(cfg: ReadConfig, r: ReadState, f: Frame) {
    && RefusedByExtend(cfg, r, f)
    && if r.incomplete.None? then !f.header.isFinal && f.header.rsv1
       else f.header.isFinal && r.compressedIncomplete
  }

  /** RSV1 of the first frame of the message that is open after `f`; `was` is that of the one open before. */
  function OpenedWith(was: Option<bool>, f: Frame, isOpen: bool): Option<bool> {
    if !isOpen then None else if was.Some? then was else Some(f.header.rsv1)
  }

  predicate ModeMatches(r: ReadState, open: Option<bool>) {
    r.incomplete.Some? == open.Some? && r.compressedIncomplete == (open == Some(true))
  }

  /** One frame, whatever becomes of it: the mode goes on matching unless the frame is one of those. */
  lemma ModeStaysMatched(cfg: ReadConfig, r: ReadState, open: Option<bool>, f: Frame)
    requires ModeMatches(r, open) && Sound(cfg, r)
    ensures var n := Receive(cfg, r, f).next;
            ModeMatches(n, OpenedWith(open, f, n.incomplete.Some?)) <==> !LeavesTheMode(cfg, r, f)
  {
    hide DecompressSpec, Sanitized, FromUtf8, IntoClose, HeldSize, Viable, ValidUpTo;
    if f.header.opcode.ControlOp? {
      ControlKeepsMessage(cfg, r, f);
    } else if r.state.CanRead() && !ReservedBitsSet(r, f.header) && !(cfg.role.Client? && f.IsMasked()) {
      DataMode(cfg, r, open, f.header.opcode.data, f);
    }
  }

  lemma ControlKeepsMessage(cfg: ReadConfig, r: ReadState, f: Frame)
    requires f.header.opcode.ControlOp?
    ensures var n := Receive(cfg, r, f).next;
            n.incomplete == r.incomplete && n.compressedIncomplete == r.compressedIncomplete
  {
    hide Sanitized, IntoClose;
  }

  lemma DataMode(cfg: ReadConfig, r: ReadState, open: Option<bool>, d: Data, f: Frame)
    requires ModeMatches(r, open) && f.header.opcode == DataOp(d)
    requires r.state.CanRead() && !ReservedBitsSet(r, f.header) && !(cfg.role.Client? && f.IsMasked())
    ensures var n := DataReceived(cfg, r, d, f).next;
            ModeMatches(n, OpenedWith(open, f, n.incomplete.Some?)) <==> !LeavesTheMode(cfg, r, f)
  {
    hide DecompressSpec, FromUtf8, HeldSize, Viable, ValidUpTo;
  }

  ghost predicate AlwaysMatches(cfg: ReadConfig, r: ReadState, open: Option<bool>, fs: seq<Frame>)
    decreases |fs|
  {
    ModeMatches(r, open)
    && (fs != [] ==>
          var n := Receive(cfg, r, fs[0]).next;
          AlwaysMatches(cfg, n, OpenedWith(open, fs[0], n.incomplete.Some?), fs[1..]))
  }

  ghost predicate NoneLeavesTheMode(cfg: ReadConfig, r: ReadState, fs: seq<Frame>)
    decreases |fs|
  {
    fs != [] ==>
      !LeavesTheMode(cfg, r, fs[0]) && NoneLeavesTheMode(cfg, Receive(cfg, r, fs[0]).next, fs[1..])
  }

  /** Over any run: the mode is the open message's first RSV1 bit throughout, if and only if no frame leaves it. */
  lemma {:induction false} ModeIsFirstRsv1(cfg: ReadConfig, r: ReadState, open: Option<bool>, fs: seq<Frame>)
    requires ModeMatches(r, open) && Sound(cfg, r)
    ensures AlwaysMatches(cfg, r, open, fs) <==> NoneLeavesTheMode(cfg, r, fs)
    decreases |fs|
  {
    if fs != [] {
      hide Receive, Sound, ModeMatches, LeavesTheMode;
      var n := Receive(cfg, r, fs[0]).next;
      ModeStaysMatched(cfg, r, open, fs[0]);
      ReceiveKeeps(cfg, r, fs[0]);
      if !LeavesTheMode(cfg, r, fs[0]) {
        ModeIsFirstRsv1(cfg, n, OpenedWith(open, fs[0], n.incomplete.Some?), fs[1..]);
      } else if fs[1..] == [] {
      }
    }
  }

  predicate IsAssemblyError(o: Outcome) {
    o.Fail? && (o.error == InvalidUtf8 || o.error.MessageTooLong?)
  }

  /** In particular on every run without an assembly error. */
  lemma {:induction false} WithoutAssemblyErrors(cfg: ReadConfig, r: ReadState, fs: seq<Frame>)
    requires forall o :: o in Run(cfg, r, fs).1 ==> !IsAssemblyError(o)
    ensures NoneLeavesTheMode(cfg, r, fs)
    decreases |fs|
  {
    if fs != [] {
      var s, outcomes := Receive(cfg, r, fs[0]), Run(cfg, r, fs).1;
      assert outcomes[0] == s.outcome && outcomes[1..] == Run(cfg, s.next, fs[1..]).1;
      assert outcomes[0] in outcomes && forall o :: o in outcomes[1..] ==> o in outcomes;
      RefusalIsAnError(cfg, r, fs[0]);
      WithoutAssemblyErrors(cfg, s.next, fs[1..]);
    }
  }

  lemma RefusalIsAnError(cfg: ReadConfig, r: ReadState, f: Frame)
    ensures LeavesTheMode(cfg, r, f) ==> IsAssemblyError(Receive(cfg, r, f).outcome)
  {
    hide DecompressSpec, FromUtf8, HeldSize, Viable, ValidUpTo;
  }

  /** Equal, or with no message open and different saved modes. */
  predicate Alike(r: ReadState, s: ReadState) {
    r == s || (r.incomplete.None? && s == r.(compressedIncomplete := s.compressedIncomplete))
  }

  lemma StaleModeStep(cfg: ReadConfig, r: ReadState, s: ReadState, f: Frame)
    requires Alike(r, s) && Sound(cfg, r) && Sound(cfg, s)
    ensures var a, b := Receive(cfg, r, f), Receive(cfg, s, f);
            a.outcome == b.outcome && a.reply == b.reply && Alike(a.next, b.next)
  {
    if r != s && f.header.opcode.DataOp? && r.state.CanRead() && !ReservedBitsSet(r, f.header) {
      StaleModeData(cfg, r, s, f.header.opcode.data, f);
    }
    hide DataReceived, Sanitized, IntoClose;
  }

  lemma StaleModeData(cfg: ReadConfig, r: ReadState, s: ReadState, d: Data, f: Frame)
    requires r.incomplete.None? && s == r.(compressedIncomplete := s.compressedIncomplete)
    requires f.header.opcode == DataOp(d) && (f.header.rsv1 ==> r.decoder.Some?)
    ensures var a, b := DataReceived(cfg, r, d, f), DataReceived(cfg, s, d, f);
            a.outcome == b.outcome && a.reply == b.reply && Alike(a.next, b.next)
  {
    hide DecompressSpec, FromUtf8, ExtendPartial, Whole;
  }

  /** A mode left behind while no message is open changes no outcome of any run. */
  lemma {:induction false} StaleModeIsHarmless(cfg: ReadConfig, r: ReadState, s: ReadState, fs: seq<Frame>)
    requires Alike(r, s) && Sound(cfg, r) && Sound(cfg, s)
    ensures Run(cfg, r, fs).1 == Run(cfg, s, fs).1 && Alike(Run(cfg, r, fs).0, Run(cfg, s, fs).0)
    decreases |fs|
  {
    if fs != [] {
      StaleModeStep(cfg, r, s, fs[0]);
      ReceiveKeeps(cfg, r, fs[0]);
      ReceiveKeeps(cfg, s, fs[0]);
      hide Receive, Sound, Alike;
      StaleModeIsHarmless(cfg, Receive(cfg, r, fs[0]).next, Receive(cfg, s, fs[0]).next, fs[1..]);
    }
  }

  /** Such a frame: compressed Text that goes on and is not text. */
  lemma AssemblyErrorLeavesTheMode(cfg: ReadConfig)
    requires cfg.role.Server? && cfg.maxMessageSize.None? && !cfg.resetDecoder
    ensures var r := ReadState(Active, None, Some(Inflater(512, [], [])), false, false);
            var f := Frame(FrameHeader(false, true, false, false, DataOp(Text), None), [1, 0xff]);
            var s := Receive(cfg, r, f);
            && ModeMatches(r, None) && LeavesTheMode(cfg, r, f)
            && s.outcome == Fail(InvalidUtf8) && s.next.incomplete.None? && s.next.compressedIncomplete
  {
    var d := Inflater(512, [], []);
    var literal: bytes := [1, 0xff];
    assert Feed(d, literal) == Fed([0xff], Some(Inflater(512, [0xff], []))) by { FeedLiteral(); }
    var bad: bytes := [0xff];
    assert FromUtf8(bad) == Invalid(0, Some(1));
    var none: bytes := [];
    assert none + bad == bad;
  }

  lemma FeedLiteral()
    ensures Feed(Inflater(512, [], []), [1, 0xff]) == Fed([0xff], Some(Inflater(512, [0xff], [])))
  {
    var d := Inflater(512, [], []);
    var t := Lit(0xff);
    assert Resolve(t, d.hist) == Some([0xff]);
    assert Slide(d.hist, [0xff], 512) == [0xff];
    FeedToken(d, t);
  }
}
