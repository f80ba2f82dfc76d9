/**
 * The writing side of a connection, as values: what a write, a flush and a close may do, and what
 * every run of them keeps (src/protocol/mod.rs; section 5.5.1 of RFC 6455).
 */
module Writing {
  import opened Bytes
  import opened Frames
  import opened Assembly
  import opened Codec
  import opened Receiving
  import opened Sending

  // ----- Closing in order: section 5.5.1 of RFC 6455 -----

  predicate IsClose(f: Frame) { f.header.opcode == ControlOp(Close) }
  predicate IsPong(f: Frame) { f.header.opcode == ControlOp(Pong) }

  /** What was accepted after the first Close frame. */
  function AfterClose(log: seq<Frame>): Option<seq<Frame>> {
    if log == [] then None
    else if IsClose(log[0]) then Some(log[1..])
    else AfterClose(log[1..])
  }

  lemma {:induction false} AfterCloseAppend(log: seq<Frame>, f: Frame)
    ensures AfterClose(log + [f]) ==
      match AfterClose(log)
      case Some(tail) => Some(tail + [f])
      case None => if IsClose(f) then Some([]) else None
  {
    if log == [] {
      assert log + [f] == [f];
    } else {
      assert (log + [f])[1..] == log[1..] + [f];
      if !IsClose(log[0]) { AfterCloseAppend(log[1..], f); }
    }
  }

  /**
   * At most one Close frame is ever accepted for sending; after it at most one pong that was
   * already waiting; while the connection is active there is none, and a reply is waiting only
   * while there is none.
   */
  predicate Orderly(state: WsState, waiting: Option<Frame>, log: seq<Frame>) {
    && (waiting.Some? ==> IsClose(waiting.value) || IsPong(waiting.value))
    && (state.Active? ==> AfterClose(log).None? && (waiting.Some? ==> IsPong(waiting.value)))
    && (AfterClose(log).Some? ==>
          var tail := AfterClose(log).value;
          && (waiting.Some? ==> IsPong(waiting.value) && tail == [])
          && |tail| <= 1 && (|tail| == 1 ==> IsPong(tail[0])))
  }

  /** `set_additional`: only a waiting pong is replaced. */
  function Queued(waiting: Option<Frame>, add: Frame): Option<Frame> {
    if waiting.None? || IsPong(waiting.value) then Some(add) else waiting
  }

  /** A reply put back by a client carries the mask of the failed attempt. */
  predicate SameButMask(role: Role, a: Option<Frame>, b: Option<Frame>) {
    match a
    case None => b.None?
    case Some(f) => b == a || (b.Some? && OnWire(role, f, b.value))
  }

  // ----- The writing side, as values -----

  /** What writing depends on and changes. */
  datatype Side = Side(state: WsState, waiting: Option<Frame>, log: seq<Frame>, buffer: bytes, sent: bytes)

  predicate Fits(max: nat, s: Side, size: nat) {
    SaturatingAdd(size, |s.buffer|) <= max
  }

  /** Exactly `fs` were accepted: every byte is in the stream or still buffered, none twice. */
  predicate Accepts(a: Side, b: Side, fs: seq<Frame>) {
    b.log == a.log + fs && a.sent <= b.sent && b.sent + b.buffer == a.sent + a.buffer + EncodeAll(fs)
  }

  lemma AcceptsNothing(a: Side, b: Side)
    requires a.log == b.log && a.sent <= b.sent && a.sent + a.buffer == b.sent + b.buffer
    ensures Accepts(a, b, [])
  {
  }

  lemma AcceptsThen(a: Side, b: Side, c: Side, fs: seq<Frame>, gs: seq<Frame>)
    requires Accepts(a, b, fs) && Accepts(b, c, gs)
    ensures Accepts(a, c, fs + gs)
  {
    EncodeAllAppend(fs, gs);
    Assoc(a.log, fs, gs);
    Assoc(a.sent + a.buffer, EncodeAll(fs), EncodeAll(gs));
  }

  /** Refused whole and nothing changed, or accepted whole, whatever the stream then does. */
  predicate Buffered(role: Role, max: nat, a: Side, f: Frame, w: Frame, r: Result<(), Error>, b: Side) {
    && OnWire(role, f, w) && b.state == a.state && b.waiting == a.waiting
    && if !Fits(max, a, w.Len()) then r == Err(WriteBufferFull(w)) && b == a
       else Accepts(a, b, [w]) && (r.Err? ==> r.error.Io? || (r.error == ConnectionClosed && !a.state.CanRead()))
  }

  predicate IsFull(e: Error) { e.WriteBufferFull? }

  /** What became of the waiting reply: it was accepted, or it still waits, perhaps under another mask. */
  predicate ReplyWent(role: Role, waiting: Option<Frame>, now: Option<Frame>, accepted: seq<Frame>) {
    if accepted == [] then SameButMask(role, waiting, now)
    else waiting.Some? && |accepted| == 1 && OnWire(role, waiting.value, accepted[0]) && now.None?
  }

  /** The server's own end of the connection: everything accepted has reached the stream. */
  predicate Ended(role: Role, max: nat, b: Side) {
    role.Server? && b.state.Terminated? && b.buffer == [] && (max == USIZE_MAX ==> b.waiting.None?)
  }

  /**
   * What `_write` may do. Nothing, if `data` does not fit; otherwise `data` is accepted, then
   * perhaps the waiting reply, and nothing else; a server that may no longer read then drains
   * its buffer and terminates.
   */
  ghost predicate Wrote(role: Role, max: nat, a: Side, data: Option<Frame>, e: Option<Error>, b: Side) {
    if e.Some? && IsFull(e.value) then
      data.Some? && OnWire(role, data.value, e.value.frame) && !Fits(max, a, e.value.frame.Len()) && b == a
    else exists first: seq<Frame>, reply: seq<Frame> :: WroteFrames(role, max, a, data, e, b, first, reply)
  }

  predicate WroteFrames(role: Role, max: nat, a: Side, data: Option<Frame>, e: Option<Error>, b: Side,
                        first: seq<Frame>, reply: seq<Frame>) {
    && Accepts(a, b, first + reply)
    && (if data.None? then first == []
        else |first| == 1 && OnWire(role, data.value, first[0]) && Fits(max, a, first[0].Len()))
    && ReplyWent(role, a.waiting, b.waiting, reply)
    && (max == USIZE_MAX && data.None? ==> b.waiting.None?)
    && WroteState(role, max, a, e, b)
  }

  /** An unmasked frame is refused exactly when its wire size does not fit. */
  lemma AdmissionIsExact(role: Role, max: nat, a: Side, f: Frame)
    requires f.header.mask.None?
    ensures forall e, b :: Wrote(role, max, a, Some(f), e, b) ==>
      ((e.Some? && IsFull(e.value)) <==> !Fits(max, a, WireSize(role, f)))
  {
    forall w | OnWire(role, f, w) ensures w.Len() == WireSize(role, f) { WireSizeIsExact(role, f, w); }
    forall e, b | Wrote(role, max, a, Some(f), e, b)
      ensures (e.Some? && IsFull(e.value)) <==> !Fits(max, a, WireSize(role, f))
    {
      if !(e.Some? && IsFull(e.value)) {
        var first: seq<Frame>, reply: seq<Frame> :| WroteFrames(role, max, a, Some(f), e, b, first, reply);
        assert OnWire(role, f, first[0]);
      }
    }
  }

  /** States and errors: only the server's own end changes the state. */
  predicate WroteState(role: Role, max: nat, a: Side, e: Option<Error>, b: Side) {
    && (b.state != a.state ==> e == Some(ConnectionClosed) && !a.state.CanRead() && Ended(role, max, b))
    && (e.None? ==> !(role.Server? && !b.state.CanRead()))
    && (e.Some? ==> e.value.Io? || (e.value == ConnectionClosed && !a.state.CanRead()))
  }

  lemma ReplyWentThen(role: Role, a: Option<Frame>, b: Option<Frame>, c: Option<Frame>, r: seq<Frame>, r': seq<Frame>)
    requires ReplyWent(role, a, b, r) && ReplyWent(role, b, c, r')
    ensures ReplyWent(role, a, c, r + r')
  {
    if r == [] { assert r + r' == r'; } else { assert r' == [] && r + r' == r; }
  }

  /** What `flush` may do: the reply goes out, and on success the buffer is empty. */
  ghost predicate Flushed(role: Role, max: nat, a: Side, e: Option<Error>, b: Side) {
    && (exists reply: seq<Frame> :: WroteFrames(role, max, a, None, e, b, [], reply))
    && (e.None? ==> b.buffer == [])
  }

  /** A write and the flush behind it are together still one write. */
  lemma WroteThenFlushed(role: Role, max: nat, a: Side, data: Option<Frame>, b: Side, e: Option<Error>, c: Side)
    requires Wrote(role, max, a, data, None, b) && Flushed(role, max, b, e, c)
    ensures Wrote(role, max, a, data, e, c) && (e.None? || !IsFull(e.value))
  {
    var first: seq<Frame>, reply: seq<Frame> :| WroteFrames(role, max, a, data, None, b, first, reply);
    var later: seq<Frame> :| WroteFrames(role, max, b, None, e, c, [], later);
    assert [] + later == later;
    AcceptsThen(a, b, c, first + reply, later);
    Assoc(first, reply, later);
    ReplyWentThen(role, a.waiting, b.waiting, c.waiting, reply, later);
    assert WroteFrames(role, max, a, data, e, c, first, reply + later);
  }

  lemma OnWireKeepsKind(role: Role, f: Frame, w: Frame)
    requires OnWire(role, f, w)
    ensures IsClose(w) == IsClose(f) && IsPong(w) == IsPong(f)
  {
  }

  lemma ReplyKeepsOrder(role: Role, state: WsState, a: Option<Frame>, b: Option<Frame>, log: seq<Frame>,
                        reply: seq<Frame>)
    requires Orderly(state, a, log) && ReplyWent(role, a, b, reply)
    ensures Orderly(state, b, log + reply)
  {
    if reply == [] {
      assert log + reply == log;
    } else {
      assert reply == [reply[0]];
      AfterCloseAppend(log, reply[0]);
    }
  }

  /**
   * What closing has come to: a peer that closed is owed a Close, or was sent one; without a limit
   * on the buffer the own Close never waits.
   */
  predicate SaysClose(max: nat, s: Side) {
    && (s.state.ClosedByPeer? ==> AfterClose(s.log).Some? || (s.waiting.Some? && IsClose(s.waiting.value)))
    && (max == USIZE_MAX && (s.state.ClosedByUs? || s.state.CloseAcknowledged?) ==> AfterClose(s.log).Some?)
  }

  predicate InOrder(max: nat, s: Side) {
    Orderly(s.state, s.waiting, s.log) && SaysClose(max, s)
  }

  /**
   * What every operation keeps on the writing side: every byte of what was accepted, and the order of
   * closing. Once the connection is no longer active nothing is accepted but the reply that was
   * waiting, and nothing is queued: so a waiting Close is sent or goes on waiting.
   */
  predicate Keeps(role: Role, max: nat, a: Side, b: Side) {
    && Forward(a.state, b.state)
    && a.log <= b.log && Accepts(a, b, b.log[|a.log|..])
    && (InOrder(max, a) ==> InOrder(max, b))
    && (!a.state.Active? ==> ReplyWent(role, a.waiting, b.waiting, b.log[|a.log|..]))
  }

  lemma KeepsThrough(role: Role, max: nat, a: Side, b: Side, c: Side)
    requires Keeps(role, max, a, b) && Keeps(role, max, b, c)
    ensures Keeps(role, max, a, c)
  {
    hide InOrder, EncodeAll, ReplyWent;
    AcceptsThen(a, b, c, b.log[|a.log|..], c.log[|b.log|..]);
    assert c.log[|a.log|..] == b.log[|a.log|..] + c.log[|b.log|..];
    if !a.state.Active? {
      ReplyWentThen(role, a.waiting, b.waiting, c.waiting, b.log[|a.log|..], c.log[|b.log|..]);
    }
  }

  lemma NothingKeeps(role: Role, max: nat, a: Side)
    ensures Keeps(role, max, a, a) && Keeps(role, max, a, a.(state := Terminated))
  {
    assert a.log[|a.log|..] == [];
    AcceptsNothing(a, a);
  }

  lemma KeepsOrder(role: Role, max: nat, a: Side, b: Side)
    requires Keeps(role, max, a, b) && InOrder(max, a)
    ensures InOrder(max, b)
  {
  }

  lemma AcceptedSince(a: Side, b: Side, fs: seq<Frame>)
    requires Accepts(a, b, fs)
    ensures a.log <= b.log && b.log[|a.log|..] == fs
  {
  }

  lemma StatesAndReplies(cfg: ReadConfig, r: ReadState, f: Frame)
    ensures var s := Receive(cfg, r, f);
            if s.reply.Some? then
              r.state.Active? && if IsClose(s.reply.value) then s.next.state.ClosedByPeer?
                                 else IsPong(s.reply.value) && s.next.state.Active?
            else
              || s.next.state == r.state || s.next.state.Terminated?
              || (r.state.ClosedByUs? && s.next.state.CloseAcknowledged?)
  {
    hide DecompressSpec, IntoClose, Sanitized, ExtendPartial;
  }

  /**
   * Receiving keeps the order: a reply is queued only while the connection is active, a peer's Close
   * queues the answer, and a waiting Close is never overwritten.
   */
  lemma ReceiveKeepsOrder(role: Role, max: nat, cfg: ReadConfig, r: ReadState, f: Frame, a: Side, b: Side)
    requires a.state == r.state
    requires var s := Receive(cfg, r, f);
      b == a.(state := s.next.state, waiting := if s.reply.None? then a.waiting else Queued(a.waiting, s.reply.value))
    ensures Keeps(role, max, a, b)
    ensures a.waiting.Some? && IsClose(a.waiting.value) && InOrder(max, a) ==> b.waiting == a.waiting
  {
    StatesAndReplies(cfg, r, f);
    hide Receive;
    assert b.log[|a.log|..] == [];
    AcceptsNothing(a, b);
  }

  /** How a connection's own writes, flushes and closes move its state. */
  predicate OwnMove(a: WsState, b: WsState) {
    b == a || (a.Active? && b.ClosedByUs?) || (!a.CanRead() && b.Terminated?)
  }

  /** A Close accepted as a reply is the last frame. */
  predicate NothingBehindReply(max: nat, a: Side, b: Side) {
    InOrder(max, a) && AfterClose(a.log).None? && AfterClose(b.log).Some? ==>
      AfterClose(b.log) == Some([]) && b.waiting.None?
  }

  /** Behind an accepted Close comes nothing, or the pong that was waiting before the call. */
  predicate OnlyPongBehind(role: Role, max: nat, a: Side, b: Side) {
    InOrder(max, a) && AfterClose(a.log).None? && AfterClose(b.log).Some? ==>
      || (AfterClose(b.log) == Some([]) && b.waiting.None?)
      || ReplyWent(role, a.waiting, b.waiting, AfterClose(b.log).value)
  }

  /** One public operation. */
  predicate Step(role: Role, max: nat, a: Side, b: Side) {
    Keeps(role, max, a, b) && OnlyPongBehind(role, max, a, b)
  }

  lemma {:induction false} AfterCloseBehind(log: seq<Frame>, more: seq<Frame>)
    requires AfterClose(log).Some?
    ensures AfterClose(log + more) == Some(AfterClose(log).value + more)
    decreases |log|
  {
    if IsClose(log[0]) {
      assert (log + more)[1..] == log[1..] + more;
    } else {
      assert (log + more)[1..] == log[1..] + more;
      AfterCloseBehind(log[1..], more);
    }
  }

  lemma SaysCloseStill(role: Role, max: nat, a: Side, b: Side, reply: seq<Frame>)
    requires InOrder(max, a) && b.log == a.log + reply && ReplyWent(role, a.waiting, b.waiting, reply)
    requires b.state == a.state || b.state.Terminated?
    ensures SaysClose(max, b)
    ensures NothingBehindReply(max, a, b)
  {
    if AfterClose(a.log).Some? { AfterCloseBehind(a.log, reply); }
    if reply == [] {
      assert b.log == a.log;
    } else {
      assert reply == [reply[0]];
      AfterCloseAppend(a.log, reply[0]);
    }
  }

  /** Writing on behalf of replies, and writing anything but a Close frame. */
  lemma WroteKeeps(role: Role, max: nat, a: Side, data: Option<Frame>, e: Option<Error>, b: Side)
    requires Wrote(role, max, a, data, e, b) && (data.Some? ==> a.state.Active? && !IsClose(data.value))
    ensures Keeps(role, max, a, b) && NothingBehindReply(max, a, b) && OwnMove(a.state, b.state)
  {
    if e.Some? && IsFull(e.value) {
      NothingKeeps(role, max, a);
    } else {
      hide InOrder, EncodeAll, ReplyWent, NothingBehindReply;
      var first: seq<Frame>, reply: seq<Frame> :| WroteFrames(role, max, a, data, e, b, first, reply);
      AcceptedSince(a, b, first + reply);
      assert first == [] ==> first + reply == reply;
      WroteMovesForward(role, max, a, e, b);
      WroteInOrder(role, max, a, data, e, b, first, reply);
    }
  }

  lemma WroteInOrder(role: Role, max: nat, a: Side, data: Option<Frame>, e: Option<Error>, b: Side,
                     first: seq<Frame>, reply: seq<Frame>)
    requires WroteFrames(role, max, a, data, e, b, first, reply)
    requires data.Some? ==> a.state.Active? && !IsClose(data.value)
    ensures (InOrder(max, a) ==> InOrder(max, b)) && NothingBehindReply(max, a, b)
  {
    if InOrder(max, a) {
      if data.Some? {
        assert first == [first[0]];
        OnWireKeepsKind(role, data.value, first[0]);
        AfterCloseAppend(a.log, first[0]);
      } else {
        assert a.log + first == a.log;
      }
      hide AfterClose, Accepts, ReplyWent;
      var c := a.(log := a.log + first);
      Assoc(a.log, first, reply);
      assert InOrder(max, c);
      ReplyKeepsOrder(role, a.state, a.waiting, b.waiting, c.log, reply);
      assert b.log == c.log + reply;
      SaysCloseStill(role, max, c, b, reply);
    }
  }

  lemma WroteMovesForward(role: Role, max: nat, a: Side, e: Option<Error>, b: Side)
    requires WroteState(role, max, a, e, b)
    ensures Forward(a.state, b.state) && (b.state == a.state || b.state.Terminated?) && OwnMove(a.state, b.state)
  {
  }

  // ----- Control frames -----

  /** A control frame as this end makes them. */
  predicate IsPlainControl(f: Frame) {
    && (IsClose(f) || IsPong(f) || f.header.opcode == ControlOp(Ping))
    && f.header.isFinal && !f.header.rsv1 && !f.header.rsv2 && !f.header.rsv3
  }

  predicate AllControl(role: Role, fs: seq<Frame>) {
    forall i :: 0 <= i < |fs| ==> IsPlainControl(fs[i]) && (role.Client? <==> fs[i].header.mask.Some?)
  }

  predicate WaitsPlain(role: Role, waiting: Option<Frame>) {
    waiting.Some? ==> IsPlainControl(waiting.value) && (role.Server? ==> waiting.value.header.mask.None?)
  }

  /** What every operation but a data write keeps: it sends only control frames. */
  predicate SendsControl(role: Role, a: Side, b: Side) {
    WaitsPlain(role, a.waiting) ==>
      a.log <= b.log && WaitsPlain(role, b.waiting) && AllControl(role, b.log[|a.log|..])
  }

  /** An operation that writes only what is waiting, and a ping or pong. */
  predicate Replies(role: Role, max: nat, a: Side, b: Side) {
    Keeps(role, max, a, b) && SendsControl(role, a, b) && NothingBehindReply(max, a, b)
  }

  lemma RepliesAreSteps(role: Role, max: nat, a: Side, b: Side)
    requires Replies(role, max, a, b)
    ensures Step(role, max, a, b) && SendsControl(role, a, b)
  {
  }

  /** A data write that was refused, or that was accepted while no Close was. */
  lemma DataSteps(role: Role, max: nat, a: Side, b: Side)
    requires b == a || (Keeps(role, max, a, b) && NothingBehindReply(max, a, b))
    ensures Step(role, max, a, b)
  {
    NothingKeeps(role, max, a);
  }

  lemma RepliesThrough(role: Role, max: nat, a: Side, b: Side, c: Side)
    requires Replies(role, max, a, b) && Replies(role, max, b, c)
    ensures Replies(role, max, a, c)
  {
    assert b.log == a.log + b.log[|a.log|..] && c.log == b.log + c.log[|b.log|..];
    assert c.log[|a.log|..] == b.log[|a.log|..] + c.log[|b.log|..];
    if WaitsPlain(role, a.waiting) { ControlsJoin(role, b.log[|a.log|..], c.log[|b.log|..]); }
    if InOrder(max, a) && AfterClose(a.log).None? && AfterClose(b.log).Some? {
      NothingMoreReplies(role, max, b, c);
    }
    hide Keeps, AfterClose, AllControl, InOrder;
    KeepsThrough(role, max, a, b, c);
    if InOrder(max, a) { KeepsOrder(role, max, a, b); }
  }

  lemma NothingMoreReplies(role: Role, max: nat, a: Side, b: Side)
    requires Keeps(role, max, a, b) && InOrder(max, a) && AfterClose(a.log) == Some([]) && a.waiting.None?
    ensures AfterClose(b.log) == Some([]) && b.waiting.None?
  {
    hide EncodeAll;
    assert b.log == a.log + b.log[|a.log|..];
    AfterCloseBehind(a.log, b.log[|a.log|..]);
  }

  lemma NothingReplies(role: Role, max: nat, a: Side)
    ensures Replies(role, max, a, a) && Replies(role, max, a, a.(state := Terminated))
  {
    NothingKeeps(role, max, a);
  }

  lemma WroteControls(role: Role, max: nat, a: Side, data: Option<Frame>, e: Option<Error>, b: Side)
    requires Wrote(role, max, a, data, e, b)
    requires data.Some? ==> IsPlainControl(data.value) && data.value.header.mask.None?
    ensures SendsControl(role, a, b)
  {
    if WaitsPlain(role, a.waiting) && !(e.Some? && IsFull(e.value)) {
      var first: seq<Frame>, reply: seq<Frame> :| WroteFrames(role, max, a, data, e, b, first, reply);
      AcceptedSince(a, b, first + reply);
      hide Accepts, AllControl;
      ReplyIsControl(role, a.waiting, b.waiting, reply);
      if data.Some? { ReplyIsControl(role, data, None, first); }
      ControlsJoin(role, first, reply);
    }
  }

  lemma ReplyIsControl(role: Role, waiting: Option<Frame>, now: Option<Frame>, reply: seq<Frame>)
    requires ReplyWent(role, waiting, now, reply) && WaitsPlain(role, waiting)
    ensures AllControl(role, reply) && WaitsPlain(role, now)
  {
  }

  lemma ControlsJoin(role: Role, a: seq<Frame>, b: seq<Frame>)
    requires a == [] || AllControl(role, a)
    requires AllControl(role, b)
    ensures AllControl(role, a + b)
  {
  }

  // ----- The operations -----

  lemma FlushedReplies(role: Role, max: nat, a: Side, e: Option<Error>, b: Side)
    requires Flushed(role, max, a, e, b)
    ensures Replies(role, max, a, b) && OwnMove(a.state, b.state)
    ensures b.state != a.state ==> e == Some(ConnectionClosed) && b.state.Terminated? && b.buffer == []
    ensures e.Some? ==> e.value.Io? || (e.value == ConnectionClosed && !a.state.CanRead())
  {
    var reply: seq<Frame> :| WroteFrames(role, max, a, None, e, b, [], reply);
    assert Wrote(role, max, a, None, e, b);
    WroteKeeps(role, max, a, None, e, b);
    WroteControls(role, max, a, None, e, b);
  }

  lemma PingReplies(role: Role, max: nat, a: Side, payload: bytes, e: Option<Error>, b: Side)
    requires a.state.Active? && Wrote(role, max, a, Some(PingFrame(payload)), e, b)
    ensures Replies(role, max, a, b) && OwnMove(a.state, b.state)
  {
    WroteKeeps(role, max, a, Some(PingFrame(payload)), e, b);
    WroteControls(role, max, a, Some(PingFrame(payload)), e, b);
  }

  lemma AnsweringReplies(role: Role, max: nat, a: Side, payload: bytes, e: Option<Error>, b: Side)
    requires a.state.Active? && Wrote(role, max, a.(waiting := Queued(a.waiting, PongFrame(payload))), None, e, b)
    ensures Replies(role, max, a, b) && OwnMove(a.state, b.state)
  {
    var c := a.(waiting := Queued(a.waiting, PongFrame(payload)));
    WroteKeeps(role, max, c, None, e, b);
    WroteControls(role, max, c, None, e, b);
    assert InOrder(max, a) ==> InOrder(max, c);
  }

  /** A close: the state moves first, then the Close frame is written, if it fits, and then what was waiting. */
  lemma ClosingSteps(role: Role, max: nat, a: Side, code: Option<CloseFrame>, e: Option<Error>, b: Side)
    requires a.state.Active? && Wrote(role, max, a.(state := ClosedByUs), Some(CloseFrameOf(code)), e, b)
    ensures Step(role, max, a, b) && SendsControl(role, a, b) && OwnMove(a.state, b.state)
    ensures InOrder(max, a) ==> (AfterClose(b.log).Some? <==> Fits(max, a, WireSize(role, CloseFrameOf(code))))
  {
    var c, close := a.(state := ClosedByUs), CloseFrameOf(code);
    WroteControls(role, max, c, Some(close), e, b);
    AdmissionIsExact(role, max, c, close);
    if e.Some? && IsFull(e.value) {
      NothingKeeps(role, max, a);
    } else {
      var first: seq<Frame>, reply: seq<Frame> :| WroteFrames(role, max, c, Some(close), e, b, first, reply);
      CloseIsWritten(role, max, a, close, e, b, first, reply);
      hide WroteFrames, InOrder, AfterClose, ReplyWent, Fits, OnWire, Accepts;
    }
  }

  lemma CloseIsWritten(role: Role, max: nat, a: Side, close: Frame, e: Option<Error>, b: Side,
                       first: seq<Frame>, reply: seq<Frame>)
    requires a.state.Active? && IsClose(close)
    requires WroteFrames(role, max, a.(state := ClosedByUs), Some(close), e, b, first, reply)
    ensures Step(role, max, a, b) && OwnMove(a.state, b.state)
    ensures InOrder(max, a) ==> AfterClose(b.log).Some?
  {
    AcceptedSince(a.(state := ClosedByUs), b, first + reply);
    WroteMovesForward(role, max, a.(state := ClosedByUs), e, b);
    if InOrder(max, a) { CloseThenReply(role, a.waiting, b.waiting, a.log, close, first, reply); }
    hide EncodeAll, AfterClose, ReplyWent, Fits, OnWire;
    assert Accepts(a, b, first + reply);
  }

  lemma CloseThenReply(role: Role, waiting: Option<Frame>, now: Option<Frame>, log: seq<Frame>, close: Frame,
                       first: seq<Frame>, reply: seq<Frame>)
    requires AfterClose(log).None? && IsClose(close) && |first| == 1 && OnWire(role, close, first[0])
    requires ReplyWent(role, waiting, now, reply) && (waiting.Some? ==> IsPong(waiting.value))
    ensures AfterClose(log + (first + reply)) == Some(reply)
    ensures |reply| <= 1 && (|reply| == 1 ==> IsPong(reply[0]) && now.None?)
    ensures now.Some? ==> IsPong(now.value) && reply == []
  {
    assert first == [first[0]];
    OnWireKeepsKind(role, close, first[0]);
    AfterCloseAppend(log, first[0]);
    AfterCloseBehind(log + first, reply);
    Assoc(log, first, reply);
    assert [] + reply == reply;
  }

  /** The Close frame of a `close` that does not fit is lost: the state has moved, and no later call queues it. */
  lemma CloseAtAFullBuffer(role: Role, max: nat, a: Side, code: Option<CloseFrame>, e: Option<Error>, b: Side)
    requires InOrder(max, a) && a.state.Active? && !Fits(max, a, WireSize(role, CloseFrameOf(code)))
    requires Wrote(role, max, a.(state := ClosedByUs), Some(CloseFrameOf(code)), e, b)
    ensures e.Some? && IsFull(e.value) && b == a.(state := ClosedByUs)
    ensures forall later :: Keeps(role, max, b, later) ==> AfterClose(later.log).None?
  {
    AdmissionIsExact(role, max, a.(state := ClosedByUs), CloseFrameOf(code));
    forall later | Keeps(role, max, b, later) ensures AfterClose(later.log).None? {
      OnlyPongLater(role, max, b, later);
    }
  }

  lemma OnlyPongLater(role: Role, max: nat, a: Side, b: Side)
    requires Keeps(role, max, a, b) && !a.state.Active? && AfterClose(a.log).None?
    requires a.waiting.Some? ==> IsPong(a.waiting.value)
    ensures AfterClose(b.log).None?
  {
    var reply := b.log[|a.log|..];
    assert b.log == a.log + reply;
    if reply != [] {
      assert reply == [reply[0]];
      OnWireKeepsKind(role, a.waiting.value, reply[0]);
      AfterCloseAppend(a.log, reply[0]);
    } else {
      assert b.log == a.log;
    }
  }

  // ----- Whole runs -----

  ghost predicate IsRunOf(role: Role, max: nat, run: seq<Side>) {
    run != [] && InOrder(max, run[0]) && forall i :: 0 <= i < |run| - 1 ==> Step(role, max, run[i], run[i + 1])
  }

  /**
   * Over a whole run, of any operations in any order: no byte is lost or sent twice, closing is
   * orderly, and once the connection is not active only the waiting reply is ever accepted.
   */
  lemma {:induction false} EveryRunIsOrderly(role: Role, max: nat, run: seq<Side>)
    requires IsRunOf(role, max, run)
    ensures forall i :: 0 <= i < |run| ==> InOrder(max, run[i]) && Keeps(role, max, run[i], run[|run| - 1])
  {
    ShorterRun(role, max, run);
    hide IsRunOf, InOrder, Keeps, OnlyPongBehind;
    var last := |run| - 1;
    NothingKeeps(role, max, run[last]);
    if |run| > 1 {
      var head := run[..last];
      EveryRunIsOrderly(role, max, head);
      assert head[last - 1] == run[last - 1];
      KeepsOrder(role, max, run[last - 1], run[last]);
      forall i | 0 <= i < |run| ensures InOrder(max, run[i]) && Keeps(role, max, run[i], run[last]) {
        if i < last {
          assert head[i] == run[i];
          KeepsThrough(role, max, run[i], run[last - 1], run[last]);
        }
      }
    }
  }

  lemma ShorterRun(role: Role, max: nat, run: seq<Side>)
    requires IsRunOf(role, max, run)
    ensures run != [] && InOrder(max, run[0])
    ensures |run| > 1 ==> IsRunOf(role, max, run[..|run| - 1]) && Step(role, max, run[|run| - 2], run[|run| - 1])
  {
    hide Step, InOrder;
    if |run| > 1 {
      var head := run[..|run| - 1];
      forall i | 0 <= i < |head| - 1 ensures Step(role, max, head[i], head[i + 1]) {
        assert Step(role, max, run[i], run[i + 1]);
      }
      assert Step(role, max, run[|run| - 2], run[|run| - 1]);
    }
  }

  /**
   * Behind the one Close of a run comes at most one frame, for ever: the pong that was waiting when
   * the call that sent the Close was made.
   */
  lemma OnlyTheWaitingPongFollows(role: Role, max: nat, run: seq<Side>, k: nat)
    requires IsRunOf(role, max, run) && k < |run| - 1
    requires AfterClose(run[k].log).None? && AfterClose(run[k + 1].log).Some?
    ensures var waiting, end := run[k].waiting, run[|run| - 1];
            && AfterClose(end.log).Some?
            && var tail := AfterClose(end.log).value;
               || (tail == [] && end.waiting.None?)
               || (ReplyWent(role, waiting, end.waiting, tail) && |tail| <= 1 && (tail != [] ==> IsPong(waiting.value)))
  {
    EveryRunIsOrderly(role, max, run);
    var a, b, end := run[k], run[k + 1], run[|run| - 1];
    assert Step(role, max, a, b) && Keeps(role, max, b, end) && InOrder(max, a) && InOrder(max, b) && InOrder(max, end);
    var more := end.log[|b.log|..];
    assert end.log == b.log + more;
    AfterCloseBehind(b.log, more);
    var tail := AfterClose(b.log).value;
    if ReplyWent(role, a.waiting, b.waiting, tail) {
      ReplyWentThen(role, a.waiting, b.waiting, end.waiting, tail, more);
      PongOnWire(role, a.waiting, end.waiting, tail + more);
    } else {
      assert more == [];
    }
  }

  lemma PongOnWire(role: Role, waiting: Option<Frame>, now: Option<Frame>, reply: seq<Frame>)
    requires ReplyWent(role, waiting, now, reply)
    ensures reply != [] && IsPong(reply[0]) ==> waiting.Some? && IsPong(waiting.value)
  {
  }

  /**
   * A server that ends the connection itself has sent everything. From the first state on, the
   * stream has received what was buffered and the encodings of all frames accepted since, in
   * order; without a limit on the buffer that is the Close, and no reply is left behind.
   */
  lemma ShutdownIsComplete(run: seq<Side>, role: Role, max: nat, e: Option<Error>, end: Side)
    requires IsRunOf(role, max, run)
    requires var a := run[|run| - 1];
      Wrote(role, max, a, None, e, end) && !a.state.Terminated? && end.state.Terminated?
    ensures role.Server? && e == Some(ConnectionClosed)
    ensures run[0].log <= end.log
    ensures end.sent == run[0].sent + run[0].buffer + EncodeAll(end.log[|run[0].log|..]) && end.buffer == []
    ensures max == USIZE_MAX ==> end.waiting.None? && AfterClose(end.log).Some?
    ensures InOrder(max, end)
  {
    var a := run[|run| - 1];
    EveryRunIsOrderly(role, max, run);
    WroteKeeps(role, max, a, None, e, end);
    KeepsThrough(role, max, run[0], a, end);
    assert end.sent + [] == end.sent;
    assert end.log == a.log + end.log[|a.log|..];
    if AfterClose(a.log).Some? {
      AfterCloseBehind(a.log, end.log[|a.log|..]);
    } else if max == USIZE_MAX {
      TheCloseWent(role, a.waiting, end.waiting, a.log, end.log[|a.log|..]);
    }
  }

  lemma TheCloseWent(role: Role, waiting: Option<Frame>, now: Option<Frame>, log: seq<Frame>, reply: seq<Frame>)
    requires waiting.Some? && IsClose(waiting.value) && now.None? && ReplyWent(role, waiting, now, reply)
    ensures AfterClose(log + reply).Some?
  {
    if reply != [] {
      assert reply == [reply[0]];
      AfterCloseAppend(log, reply[0]);
    }
  }

  /**
   * The transaction of one Text or Binary write. Refused: nothing has changed, and with compression
   * it is the plain frame that comes back. Failed compression: only the history is gone. Otherwise
   * the frame was accepted, so a compressor that moved has its output in the buffer or the stream,
   * whatever I/O did.
   */
  ghost predicate DataSent(role: Role, max: nat, deflating: bool, e: Option<Encoder>, e': Option<Encoder>,
                           a: Side, b: Side, d: Data, data: bytes, accepted: Option<Frame>, error: Option<Error>)
  {
    var plain := MessageFrame(data, d, true);
    if accepted.Some? then
      && DataWrite(e, e', d, data, accepted) && Wrote(role, max, a, accepted, error, b)
      && accepted.value.header.mask.None? && !(error.Some? && IsFull(error.value))
      && Fits(max, a, WireSize(role, plain))
    else
      && b == a && error.Some?
      && (if IsFull(error.value) then
            && !Fits(max, a, WireSize(role, plain)) && e' == e
            && (if deflating then error.value.frame == plain else OnWire(role, plain, error.value.frame))
          else
            && error.value == Protocol(Compression) && e.Some? && e' == ResetEncoder(e)
            && Fits(max, a, WireSize(role, plain)))
  }
}
