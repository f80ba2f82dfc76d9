/**
 * A whole connection: whatever is called on the sending end, in whatever order and however its
 * stream behaves, the reading end delivers the accepted messages, in order and unchanged.
 */
module EndToEnd {
  import opened Bytes
  import Assembly
  import Codec
  import opened Utf8
  import opened Frames
  import opened FrameCodecs
  import opened DeflateSettings
  import opened Fragmentation
  import opened Receiving
  import opened Sending
  import opened Writing
  import opened CutMessages

  /** The sending end between two calls. */
  datatype Point = Point(side: Side, encoder: Option<Encoder>)

  /**
   * A Text or Binary write with what became of it, another try of a frame that a refused write handed
   * back, or any other call.
   */
  datatype Act =
    | SendMessage(data: Data, message: bytes, accepted: Option<Frame>, error: Option<Error>)
    | SendAgain(data: Data, message: bytes, frame: Frame, error: Option<Error>)
    | OtherCall
  {
    predicate IsAccepted() {
      match this
      case SendMessage(_, _, accepted, _) => accepted.Some?
      case SendAgain(_, _, _, error) => !(error.Some? && IsFull(error.value))
      case OtherCall => false
    }
  }

  function Bare(f: Frame): Frame { f.(header := f.header.(mask := None)) }

  /** The plain frame of a message; a client's may carry the mask of a failed attempt. */
  predicate IsReturned(role: Role, d: Data, message: bytes, f: Frame) {
    Bare(f) == MessageFrame(message, d, true) && (role.Server? ==> f.header.mask.None?)
  }

  /** What the contracts of `Write`, and of `Read`, `Flush` and `Close`, promise of one call. */
  ghost predicate IsCall(role: Role, max: nat, deflating: bool, p: Point, act: Act, q: Point) {
    match act
    case SendMessage(d, message, accepted, error) =>
      && p.side.state.Active? && (d.Text? || d.Binary?)
      && DataSent(role, max, deflating, p.encoder, q.encoder, p.side, q.side, d, message, accepted, error)
    case SendAgain(d, message, f, error) =>
      && p.side.state.Active? && (d.Text? || d.Binary?) && IsReturned(role, d, message, f)
      && q.encoder == p.encoder && Wrote(role, max, p.side, Some(f), error, q.side)
    case OtherCall => q.encoder == p.encoder && Step(role, max, p.side, q.side) && SendsControl(role, p.side, q.side)
  }

  /** A refused write hands back a frame that can be sent again, and so does a refused second try. */
  lemma RefusedIsReturned(role: Role, max: nat, deflating: bool, p: Point, act: Act, q: Point)
    requires IsCall(role, max, deflating, p, act, q) && !act.OtherCall?
    requires act.error.Some? && IsFull(act.error.value)
    ensures IsReturned(role, act.data, act.message, act.error.value.frame) && q == p
  {
  }

  ghost predicate AreCalls(role: Role, max: nat, deflating: bool, run: seq<Point>, acts: seq<Act>) {
    && |run| == |acts| + 1
    && forall i :: 0 <= i < |acts| ==> IsCall(role, max, deflating, run[i], acts[i], run[i + 1])
  }

  /** The messages a run accepted. */
  function AcceptedMessages(acts: seq<Act>): seq<Outcome> {
    if acts == [] then [] else AcceptedMessage(acts[0]) + AcceptedMessages(acts[1..])
  }

  function AcceptedMessage(act: Act): seq<Outcome> {
    if act.IsAccepted() then [Deliver(DataMessage(act.data, act.message))] else []
  }

  /** The data messages among the outcomes. */
  function Messages(outcomes: seq<Outcome>): seq<Outcome> {
    if outcomes == [] then []
    else
      (if IsDataDelivery(outcomes[0]) then [outcomes[0]] else [])
      + Messages(outcomes[1..])
  }

  lemma {:induction false} MessagesAppend(a: seq<Outcome>, b: seq<Outcome>)
    ensures Messages(a + b) == Messages(a) + Messages(b)
  {
    if a == [] {
      assert a + b == b;
    } else {
      hide IsDataDelivery;
      assert (a + b)[1..] == a[1..] + b;
      MessagesAppend(a[1..], b);
      Assoc(if IsDataDelivery(a[0]) then [a[0]] else [], Messages(a[1..]), Messages(b));
    }
  }

  // ----- From calls to events -----

  function Controls(fs: seq<Frame>): (events: seq<Event>)
    ensures |events| == |fs|
    ensures forall i :: 0 <= i < |fs| ==> events[i] == ControlEvent(Bare(fs[i]))
  {
    seq(|fs|, i requires 0 <= i < |fs| => ControlEvent(Bare(fs[i])))
  }

  /** Pings and pongs that a peer does not refuse for their size. */
  predicate ShortControl(f: Frame) { f.header.opcode.ControlOp? ==> |f.payload| <= 125 }

  predicate OpenAndShort(fs: seq<Frame>) {
    forall f :: f in fs ==> !IsClose(f) && ShortControl(f)
  }

  lemma OneOnWire(role: Role, f: Frame)
    requires AllControl(role, [f]) && OpenAndShort([f])
    ensures AllOnWire(role, [Bare(f)], [f])
  {
    assert [f][0] == f;
  }

  lemma {:induction false} ControlsOnWire(role: Role, fs: seq<Frame>)
    requires AllControl(role, fs) && OpenAndShort(fs)
    ensures AllOnWire(role, AllFrames(Controls(fs)), fs)
    ensures Messages(AllDeliveries(Controls(fs))) == []
    decreases |fs|
  {
    if fs != [] {
      FirstIsControl(role, fs);
      OneOnWire(role, fs[0]);
      hide AllFrames, AllDeliveries, Messages, AllOnWire, Controls, AllControl, OpenAndShort;
      ControlsOnWire(role, fs[1..]);
      FirstControl(fs);
      OnWireAppend(role, [Bare(fs[0])], [fs[0]], AllFrames(Controls(fs[1..])), fs[1..]);
      assert [fs[0]] + fs[1..] == fs;
    }
  }

  lemma FirstIsControl(role: Role, fs: seq<Frame>)
    requires fs != [] && AllControl(role, fs) && OpenAndShort(fs)
    ensures AllControl(role, fs[1..]) && OpenAndShort(fs[1..]) && AllControl(role, [fs[0]]) && OpenAndShort([fs[0]])
  {
    assert fs[0] in fs && (forall f :: f in fs[1..] ==> f in fs);
  }

  lemma ControlsPass(role: Role, fs: seq<Frame>)
    requires AllControl(role, fs) && OpenAndShort(fs)
    ensures forall x :: x in Controls(fs) ==> x.ControlEvent? && IsPingOrPong(x.frame)
  {
    forall x | x in Controls(fs) ensures x.ControlEvent? && IsPingOrPong(x.frame) {
      var i :| 0 <= i < |fs| && Controls(fs)[i] == x;
      assert fs[i] in fs;
    }
  }

  lemma FirstControl(fs: seq<Frame>)
    requires fs != []
    ensures Controls(fs) == [ControlEvent(Bare(fs[0]))] + Controls(fs[1..])
    ensures AllFrames(Controls(fs)) == [Bare(fs[0])] + AllFrames(Controls(fs[1..]))
    ensures Messages(AllDeliveries(Controls(fs))) == Messages(AllDeliveries(Controls(fs[1..])))
  {
    var events := Controls(fs);
    assert events[1..] == Controls(fs[1..]);
    var all := AllDeliveries(events);
    assert all == [Deliver(ControlMessage(Bare(fs[0])))] + AllDeliveries(events[1..]);
    assert all[1..] == AllDeliveries(events[1..]);
  }

  /** The compressor rests while control frames are sent. */
  lemma ControlsAreARun(e: Option<Encoder>, events: seq<Event>)
    requires forall x :: x in events ==> x.ControlEvent? && IsPingOrPong(x.frame)
    ensures IsRun(seq(|events| + 1, _ => e), events)
  {
    forall i | 0 <= i < |events| ensures IsStep(e, events[i], e) { assert events[i] in events; }
  }

  lemma RunShape(es: seq<Option<Encoder>>, events: seq<Event>)
    requires IsRun(es, events)
    ensures |es| == |events| + 1
  {
  }

  lemma RunsJoin(xs: seq<Option<Encoder>>, a: seq<Event>, ys: seq<Option<Encoder>>, b: seq<Event>)
    requires IsRun(xs, a) && IsRun(ys, b) && xs[|a|] == ys[0]
    ensures IsRun(xs + ys[1..], a + b) && (xs + ys[1..])[0] == xs[0] && (xs + ys[1..])[|a| + |b|] == ys[|b|]
  {
    var zs, c := xs + ys[1..], a + b;
    forall i | 0 <= i < |c| ensures IsStep(zs[i], c[i], zs[i + 1]) {
      if i < |a| { assert IsStep(xs[i], a[i], xs[i + 1]); }
      else { assert IsStep(ys[i - |a|], b[i - |a|], ys[i - |a| + 1]); }
    }
  }

  lemma {:induction false} FramesAppend(a: seq<Event>, b: seq<Event>)
    ensures AllFrames(a + b) == AllFrames(a) + AllFrames(b)
    ensures AllDeliveries(a + b) == AllDeliveries(a) + AllDeliveries(b)
  {
    if a == [] {
      assert a + b == b;
    } else {
      hide FramesOf, DeliveriesOf;
      assert (a + b)[1..] == a[1..] + b;
      FramesAppend(a[1..], b);
      Assoc(FramesOf(a[0]), AllFrames(a[1..]), AllFrames(b));
      Assoc(DeliveriesOf(a[0]), AllDeliveries(a[1..]), AllDeliveries(b));
    }
  }

  lemma OnWireAppend(role: Role, fs: seq<Frame>, ws: seq<Frame>, gs: seq<Frame>, vs: seq<Frame>)
    requires AllOnWire(role, fs, ws) && AllOnWire(role, gs, vs)
    ensures AllOnWire(role, fs + gs, ws + vs)
  {
  }

  /** Part of a run, explained: which compressor states and events it went through. */
  ghost predicate Explained(role: Role, p: Point, q: Point, es: seq<Option<Encoder>>, events: seq<Event>,
                            accepted: seq<Outcome>)
  {
    && IsRun(es, events) && es[0] == p.encoder && es[|events|] == q.encoder
    && p.side.log <= q.side.log && AllOnWire(role, AllFrames(events), q.side.log[|p.side.log|..])
    && Messages(AllDeliveries(events)) == accepted
  }

  lemma ExplainedThrough(role: Role, p: Point, q: Point, r: Point, xs: seq<Option<Encoder>>, a: seq<Event>,
                         ys: seq<Option<Encoder>>, b: seq<Event>, first: seq<Outcome>, second: seq<Outcome>)
    requires Explained(role, p, q, xs, a, first) && Explained(role, q, r, ys, b, second)
    ensures Explained(role, p, r, xs + ys[1..], a + b, first + second)
  {
    hide IsRun, Messages, AllFrames, AllDeliveries, AllOnWire;
    assert |xs| == |a| + 1 && |ys| == |b| + 1 by { RunShape(xs, a); RunShape(ys, b); }
    RunsJoin(xs, a, ys, b);
    FramesAppend(a, b);
    MessagesAppend(AllDeliveries(a), AllDeliveries(b));
    var mine, rest := q.side.log[|p.side.log|..], r.side.log[|q.side.log|..];
    OnWireAppend(role, AllFrames(a), mine, AllFrames(b), rest);
    assert r.side.log[|p.side.log|..] == mine + rest;
  }

  /** The state a call may be made in. */
  predicate Running(role: Role, max: nat, p: Point) {
    InOrder(max, p.side) && WaitsPlain(role, p.side.waiting)
  }

  lemma OtherCallExplained(role: Role, max: nat, p: Point, q: Point)
    returns (es: seq<Option<Encoder>>, events: seq<Event>)
    requires Running(role, max, p) && q.encoder == p.encoder
    requires Keeps(role, max, p.side, q.side) && SendsControl(role, p.side, q.side) && OpenAndShort(q.side.log)
    ensures Explained(role, p, q, es, events, []) && |es| == |events| + 1
    ensures forall x :: x in events ==> x.ControlEvent?
  {
    var added := q.side.log[|p.side.log|..];
    assert forall f :: f in added ==> f in q.side.log;
    ControlsOnWire(role, added);
    ControlsPass(role, added);
    events := Controls(added);
    es := seq(|events| + 1, _ => p.encoder);
    ControlsAreARun(p.encoder, events);
  }

  /** The accepted frame, and the reply that may have gone with it. */
  lemma AddedFrames(role: Role, max: nat, a: Side, f: Frame, e: Option<Error>, b: Side)
    returns (first: seq<Frame>, reply: seq<Frame>)
    requires WaitsPlain(role, a.waiting) && Wrote(role, max, a, Some(f), e, b) && !(e.Some? && IsFull(e.value))
    requires OpenAndShort(b.log) && (role.Server? ==> f.header.mask.None?)
    ensures a.log <= b.log && b.log[|a.log|..] == first + reply
    ensures |first| == 1 && OnWire(role, Bare(f), first[0]) && AllControl(role, reply) && OpenAndShort(reply)
    ensures WaitsPlain(role, b.waiting)
  {
    first, reply :| WroteFrames(role, max, a, Some(f), e, b, first, reply);
    AcceptedSince(a, b, first + reply);
    ReplyIsControl(role, a.waiting, b.waiting, reply);
    assert OnWire(role, Bare(f), first[0]);
    hide OnWire, AllControl, EncodeAll;
    assert b.log == a.log + (first + reply);
    assert forall g :: g in reply ==> g in b.log;
  }

  lemma OneStepRun(e: Option<Encoder>, x: Event, e': Option<Encoder>)
    requires IsStep(e, x, e')
    ensures IsRun([e, e'], [x])
  {
  }

  /** An accepted frame and the control frames behind it. */
  lemma AcceptedExplained(role: Role, max: nat, p: Point, x: Event, f: Frame, e: Option<Error>, q: Point)
    returns (es: seq<Option<Encoder>>, events: seq<Event>)
    requires Running(role, max, p) && IsStep(p.encoder, x, q.encoder)
    requires FramesOf(x) == [Bare(f)] && (x.RetryEvent? || (x.DataEvent? && x.accepted.Some?))
    requires Wrote(role, max, p.side, Some(f), e, q.side) && (role.Server? ==> f.header.mask.None?)
    requires !(e.Some? && IsFull(e.value)) && OpenAndShort(q.side.log)
    ensures Explained(role, p, q, es, events, [Deliver(DataMessage(x.data, x.message))]) && |es| == |events| + 1
    ensures WaitsPlain(role, q.side.waiting)
    ensures forall y :: y in events && !y.ControlEvent? ==> y == x
  {
    hide Wrote, IsStep, AllControl, IsRun, AllFrames, AllDeliveries, Messages, AllOnWire, OpenAndShort, IsPingOrPong;
    var first, reply := AddedFrames(role, max, p.side, f, e, q.side);
    hide OnWire;
    OneStepRun(p.encoder, x, q.encoder);
    ControlsOnWire(role, reply);
    ControlsPass(role, reply);
    ControlsAreARun(q.encoder, Controls(reply));
    var rests := seq(|reply| + 1, _ => q.encoder);
    RunsJoin([p.encoder, q.encoder], [x], rests, Controls(reply));
    events, es := [x] + Controls(reply), [p.encoder, q.encoder] + rests[1..];
    HeadOnWire(role, x, Bare(f), first);
    FramesAppend([x], Controls(reply));
    OnWireAppend(role, AllFrames([x]), first, AllFrames(Controls(reply)), reply);
    MessagesAppend(AllDeliveries([x]), AllDeliveries(Controls(reply)));
  }

  lemma HeadOnWire(role: Role, x: Event, f: Frame, first: seq<Frame>)
    requires FramesOf(x) == [f] && (x.RetryEvent? || (x.DataEvent? && x.accepted.Some?))
    requires |first| == 1 && OnWire(role, f, first[0]) && f.header.mask.None?
    ensures AllOnWire(role, AllFrames([x]), first)
    ensures Messages(AllDeliveries([x])) == [Deliver(DataMessage(x.data, x.message))]
  {
    assert AllFrames([x]) == [f];
    assert AllDeliveries([x]) == [Deliver(DataMessage(x.data, x.message))];
  }

  lemma RefusedExplained(role: Role, p: Point, act: Act, q: Point)
    returns (es: seq<Option<Encoder>>, events: seq<Event>)
    requires act.SendMessage? && (act.data.Text? || act.data.Binary?) && act.accepted.None?
    requires q.side == p.side && (q.encoder == p.encoder || q.encoder == ResetEncoder(p.encoder))
    ensures Explained(role, p, q, es, events, []) && |es| == |events| + 1
    ensures forall x :: x in events ==> x.DataEvent? && x.accepted.None?
  {
    events, es := [DataEvent(act.data, act.message, None)], [p.encoder, q.encoder];
    assert IsStep(p.encoder, events[0], q.encoder);
    assert AllFrames(events) == [] && AllDeliveries(events) == [];
    assert q.side.log[|p.side.log|..] == [];
  }

  lemma SentExplained(role: Role, max: nat, p: Point, d: Data, message: bytes, f: Frame, e: Option<Error>, q: Point)
    returns (es: seq<Option<Encoder>>, events: seq<Event>)
    requires Running(role, max, p) && (d.Text? || d.Binary?) && f.header.mask.None?
    requires DataWrite(p.encoder, q.encoder, d, message, Some(f)) && Wrote(role, max, p.side, Some(f), e, q.side)
    requires !(e.Some? && IsFull(e.value)) && OpenAndShort(q.side.log)
    ensures Explained(role, p, q, es, events, [Deliver(DataMessage(d, message))]) && |es| == |events| + 1
    ensures forall y :: y in events && !y.ControlEvent? ==> y == DataEvent(d, message, Some(f))
  {
    hide Explained, Running, Wrote, OpenAndShort, DataWrite;
    assert Bare(f) == f;
    es, events := AcceptedExplained(role, max, p, DataEvent(d, message, Some(f)), f, e, q);
  }

  lemma SentAgainExplained(role: Role, max: nat, p: Point, d: Data, message: bytes, f: Frame, e: Option<Error>,
                           q: Point)
    returns (es: seq<Option<Encoder>>, events: seq<Event>)
    requires Running(role, max, p) && q.encoder == p.encoder
    requires (d.Text? || d.Binary?) && IsReturned(role, d, message, f)
    requires Wrote(role, max, p.side, Some(f), e, q.side)
    requires !(e.Some? && IsFull(e.value)) && OpenAndShort(q.side.log)
    ensures Explained(role, p, q, es, events, [Deliver(DataMessage(d, message))]) && |es| == |events| + 1
    ensures forall y :: y in events && !y.ControlEvent? ==> y == RetryEvent(d, message)
  {
    hide Explained, Running, Wrote, OpenAndShort;
    es, events := AcceptedExplained(role, max, p, RetryEvent(d, message), f, e, q);
  }

  predicate WithinLimit(cfg: ReadConfig, act: Act) {
    act.IsAccepted() ==>
      |act.message| <= Limit(cfg.maxMessageSize) && (act.data.Text? ==> FromUtf8(act.message).Valid?)
  }

  lemma CallExplained(role: Role, max: nat, deflating: bool, p: Point, act: Act, q: Point, cfg: ReadConfig)
    returns (es: seq<Option<Encoder>>, events: seq<Event>)
    requires Running(role, max, p) && IsCall(role, max, deflating, p, act, q) && OpenAndShort(q.side.log)
    requires WithinLimit(cfg, act)
    ensures Explained(role, p, q, es, events, AcceptedMessages([act])) && |es| == |events| + 1
    ensures Running(role, max, q) && WithinLimits(cfg, events)
  {
    CallKeeps(role, max, deflating, p, act, q);
    OneAct(act);
    hide IsCall, Explained, Keeps, OpenAndShort, AcceptedMessages, AcceptedMessage, Running, AllFrom, WithinLimit,
      WithinLimits;
    match act
    case OtherCall => es, events := QuietlyExplained(role, max, deflating, p, act, q);
    case SendMessage(_, _, _, _) => es, events := MessageExplained(role, max, deflating, p, act, q);
    case SendAgain(_, _, _, _) => es, events := AgainExplained(role, max, deflating, p, act, q);
    FromWithin(cfg, act, events);
  }

  /** Every message among the events is the one of the call. */
  predicate AllFrom(act: Act, events: seq<Event>) {
    forall y :: y in events && (y.RetryEvent? || (y.DataEvent? && y.accepted.Some?)) ==>
      act.IsAccepted() && y.data == act.data && y.message == act.message
  }

  lemma FromWithin(cfg: ReadConfig, act: Act, events: seq<Event>)
    requires WithinLimit(cfg, act) && AllFrom(act, events)
    ensures WithinLimits(cfg, events)
  {
  }

  lemma QuietlyExplained(role: Role, max: nat, deflating: bool, p: Point, act: Act, q: Point)
    returns (es: seq<Option<Encoder>>, events: seq<Event>)
    requires Running(role, max, p) && IsCall(role, max, deflating, p, act, q) && OpenAndShort(q.side.log)
    requires act.OtherCall?
    ensures Explained(role, p, q, es, events, AcceptedMessage(act)) && |es| == |events| + 1 && AllFrom(act, events)
  {
    hide Explained, Keeps, OpenAndShort, Running, SendsControl, OnlyPongBehind;
    es, events := OtherCallExplained(role, max, p, q);
  }

  lemma MessageExplained(role: Role, max: nat, deflating: bool, p: Point, act: Act, q: Point)
    returns (es: seq<Option<Encoder>>, events: seq<Event>)
    requires Running(role, max, p) && IsCall(role, max, deflating, p, act, q) && OpenAndShort(q.side.log)
    requires act.SendMessage?
    ensures Explained(role, p, q, es, events, AcceptedMessage(act)) && |es| == |events| + 1 && AllFrom(act, events)
  {
    hide Explained, Wrote, OpenAndShort, Running, DataWrite, Fits, WireSize;
    match act
    case SendMessage(d, message, None, error) => es, events := RefusedExplained(role, p, act, q);
    case SendMessage(d, message, Some(f), error) => es, events := SentExplained(role, max, p, d, message, f, error, q);
  }

  lemma AgainExplained(role: Role, max: nat, deflating: bool, p: Point, act: Act, q: Point)
    returns (es: seq<Option<Encoder>>, events: seq<Event>)
    requires Running(role, max, p) && IsCall(role, max, deflating, p, act, q) && OpenAndShort(q.side.log)
    requires act.SendAgain?
    ensures Explained(role, p, q, es, events, AcceptedMessage(act)) && |es| == |events| + 1 && AllFrom(act, events)
  {
    hide Explained, Wrote, OpenAndShort, Running, IsReturned;
    if act.IsAccepted() {
      es, events := SentAgainExplained(role, max, p, act.data, act.message, act.frame, act.error, q);
    } else {
      RefusedIsReturned(role, max, deflating, p, act, q);
      es, events := [p.encoder], [];
      NothingExplained(role, p);
    }
  }

  lemma OneAct(act: Act)
    ensures AcceptedMessages([act]) == AcceptedMessage(act)
  {
    assert AcceptedMessages([act]) == AcceptedMessage(act) + [];
  }

  lemma DataIsNotClose(p: Point, q: Point, d: Data, message: bytes, f: Frame)
    requires DataWrite(p.encoder, q.encoder, d, message, Some(f))
    ensures !IsClose(f)
  {
  }

  /** Every call keeps what operations keep, and what is waiting stays a plain control frame. */
  lemma CallKeeps(role: Role, max: nat, deflating: bool, p: Point, act: Act, q: Point)
    requires IsCall(role, max, deflating, p, act, q)
    ensures Keeps(role, max, p.side, q.side) && (Running(role, max, p) ==> Running(role, max, q))
  {
    hide InOrder, OnlyPongBehind;
    match act
    case OtherCall =>
    case SendMessage(d, message, accepted, error) =>
      if accepted.Some? {
        DataIsNotClose(p, q, d, message, accepted.value);
        DataKeeps(role, max, p.side, accepted.value, error, q.side);
      } else {
        NothingKeeps(role, max, p.side);
      }
    case SendAgain(d, message, f, error) =>
      DataKeeps(role, max, p.side, f, error, q.side);
  }

  lemma DataKeeps(role: Role, max: nat, a: Side, f: Frame, e: Option<Error>, b: Side)
    requires a.state.Active? && !IsClose(f) && Wrote(role, max, a, Some(f), e, b)
    ensures Keeps(role, max, a, b) && (WaitsPlain(role, a.waiting) ==> WaitsPlain(role, b.waiting))
    ensures InOrder(max, a) ==> InOrder(max, b)
    ensures InOrder(max, a) ==> AfterClose(b.log).None?
  {
    WroteKeeps(role, max, a, Some(f), e, b);
    if !(e.Some? && IsFull(e.value)) {
      var first: seq<Frame>, reply: seq<Frame> :| WroteFrames(role, max, a, Some(f), e, b, first, reply);
      if WaitsPlain(role, a.waiting) { ReplyIsControl(role, a.waiting, b.waiting, reply); }
    }
  }

  /** Every run without a Close is explained, from its first call to its last. */
  lemma {:induction false} RunExplained(role: Role, max: nat, deflating: bool, run: seq<Point>, acts: seq<Act>,
                                        cfg: ReadConfig)
    returns (es: seq<Option<Encoder>>, events: seq<Event>)
    requires AreCalls(role, max, deflating, run, acts) && Running(role, max, run[0])
    requires OpenAndShort(run[|acts|].side.log)
    requires forall act :: act in acts ==> WithinLimit(cfg, act)
    ensures Explained(role, run[0], run[|acts|], es, events, AcceptedMessages(acts))
    ensures Running(role, max, run[|acts|]) && WithinLimits(cfg, events)
    ensures |es| == |events| + 1
    decreases |acts|
  {
    hide Explained, Keeps, InOrder, OpenAndShort, IsCall, WithinLimit, Running;
    if acts == [] {
      es, events := [run[0].encoder], [];
      NothingExplained(role, run[0]);
    } else {
      var n := |acts| - 1;
      var last := run[n];
      assert IsCall(role, max, deflating, run[n], acts[n], run[n + 1]);
      GrowingLog(role, max, deflating, run[n], acts[n], run[n + 1]);
      FirstCalls(role, max, deflating, run, acts, n);
      var xs, a := RunExplained(role, max, deflating, run[..n + 1], acts[..n], cfg);
      assert acts[n] in acts;
      var ys, b := CallExplained(role, max, deflating, last, acts[n], run[n + 1], cfg);
      es, events := xs + ys[1..], a + b;
      ExplainedThrough(role, run[0], last, run[n + 1], xs, a, ys, b,
                       AcceptedMessages(acts[..n]), AcceptedMessages([acts[n]]));
      AcceptedAppend(acts[..n], [acts[n]]);
      assert acts == acts[..n] + [acts[n]];
    }
  }

  lemma FirstCalls(role: Role, max: nat, deflating: bool, run: seq<Point>, acts: seq<Act>, n: nat)
    requires AreCalls(role, max, deflating, run, acts) && n <= |acts|
    ensures AreCalls(role, max, deflating, run[..n + 1], acts[..n])
    ensures run[..n + 1][n] == run[n] && run[..n + 1][0] == run[0]
  {
    hide IsCall;
  }

  lemma NothingExplained(role: Role, p: Point)
    ensures Explained(role, p, p, [p.encoder], [], [])
  {
    assert p.side.log[|p.side.log|..] == [];
  }

  lemma {:induction false} AcceptedAppend(a: seq<Act>, b: seq<Act>)
    ensures AcceptedMessages(a + b) == AcceptedMessages(a) + AcceptedMessages(b)
  {
    if a == [] {
      assert a + b == b;
    } else {
      hide AcceptedMessage;
      assert (a + b)[1..] == a[1..] + b;
      AcceptedAppend(a[1..], b);
      Assoc(AcceptedMessage(a[0]), AcceptedMessages(a[1..]), AcceptedMessages(b));
    }
  }

  lemma GrowingLog(role: Role, max: nat, deflating: bool, p: Point, act: Act, q: Point)
    requires IsCall(role, max, deflating, p, act, q) && OpenAndShort(q.side.log)
    ensures OpenAndShort(p.side.log)
  {
    CallKeeps(role, max, deflating, p, act, q);
    forall f | f in p.side.log ensures f in q.side.log {
      var i :| 0 <= i < |p.side.log| && p.side.log[i] == f;
      assert q.side.log[i] == f;
    }
  }

  // ----- The Close, and what comes behind it -----

  function CloseIndex(fs: seq<Frame>): (i: nat)
    ensures i <= |fs|
  {
    if fs == [] || IsClose(fs[0]) then 0 else 1 + CloseIndex(fs[1..])
  }

  lemma {:induction false} NoCloseBefore(fs: seq<Frame>)
    requires AfterClose(fs).None?
    ensures CloseIndex(fs) == |fs| && forall f :: f in fs ==> !IsClose(f)
    decreases |fs|
  {
    if fs != [] { NoCloseBefore(fs[1..]); }
  }

  lemma {:induction false} CloseIndexBehind(fs: seq<Frame>, gs: seq<Frame>)
    requires CloseIndex(fs) == |fs|
    ensures CloseIndex(fs + gs) == |fs| + CloseIndex(gs)
    decreases |fs|
  {
    if fs == [] {
      assert fs + gs == gs;
    } else {
      assert (fs + gs)[1..] == fs[1..] + gs;
      CloseIndexBehind(fs[1..], gs);
    }
  }

  /** Everything before the Close is delivered, then the Close, and nothing behind it is read. */
  predicate DeliversUpToClose(log: seq<Frame>, outcomes: seq<Outcome>)
    requires |outcomes| <= |log|
  {
    var i := CloseIndex(log);
    && (forall j :: 0 <= j < |outcomes| && j < i ==> outcomes[j].Deliver?)
    && (i < |outcomes| && IntoClose(log[i].payload).Ok? ==>
          && outcomes[i].Deliver? && outcomes[i].message.CloseMessage?
          && forall j :: i < j < |outcomes| ==> outcomes[j] == Fail(Protocol(ReceivedAfterClosing)))
  }

  function BareAll(fs: seq<Frame>): (r: seq<Frame>)
    ensures |r| == |fs| && forall i :: 0 <= i < |fs| ==> r[i] == Bare(fs[i])
  {
    seq(|fs|, i requires 0 <= i < |fs| => Bare(fs[i]))
  }

  predicate AllShort(fs: seq<Frame>) { forall f :: f in fs ==> ShortControl(f) }

  lemma {:induction false} NothingIsRead(cfg: ReadConfig, r: ReadState, fs: seq<Frame>)
    requires !r.state.CanRead()
    ensures forall o :: o in Run(cfg, r, fs).1 ==> o == Fail(Protocol(ReceivedAfterClosing))
    ensures Messages(Run(cfg, r, fs).1) == []
    decreases |fs|
  {
    if fs != [] {
      assert Run(cfg, r, fs).1[1..] == Run(cfg, r, fs[1..]).1;
      NothingIsRead(cfg, r, fs[1..]);
    }
  }

  lemma CloseIsHeard(cfg: ReadConfig, r: ReadState, f: Frame)
    requires r.state.CanRead() && IsPlainControl(f) && IsClose(f) && f.header.mask.None? && |f.payload| <= 125
    ensures var s := Receive(cfg, r, f);
            && !IsDataDelivery(s.outcome)
            && (IntoClose(f.payload).Ok? ==>
                  s.outcome.Deliver? && s.outcome.message.CloseMessage? && !s.next.state.CanRead())
            && (IntoClose(f.payload).Err? ==> s.next == r)
  {
    hide IntoClose;
  }

  /** Control frames deliver no message; the Close is the last that is read. */
  lemma {:induction false} ControlTail(cfg: ReadConfig, r: ReadState, role: Role, fs: seq<Frame>)
    requires r.state.CanRead() && AllControl(role, fs) && AllShort(fs)
    ensures var outcomes := Run(cfg, r, BareAll(fs)).1;
            Messages(outcomes) == [] && DeliversUpToClose(fs, outcomes)
    decreases |fs|
  {
    if fs != [] {
      var f, rest := Bare(fs[0]), BareAll(fs[1..]);
      FirstOfTail(role, fs);
      var s := Receive(cfg, r, f);
      var outcomes := Run(cfg, r, BareAll(fs)).1;
      assert outcomes == [s.outcome] + Run(cfg, s.next, rest).1;
      assert outcomes[1..] == Run(cfg, s.next, rest).1;
      hide Run;
      if IsClose(fs[0]) {
        CloseIsHeard(cfg, r, f);
        hide Receive, IntoClose, AllControl, AllShort, BareAll;
        if IntoClose(f.payload).Ok? {
          NothingIsRead(cfg, s.next, rest);
          assert forall j :: 0 < j < |outcomes| ==> outcomes[j] in outcomes[1..];
        } else {
          ControlTail(cfg, r, role, fs[1..]);
        }
      } else {
        ControlPasses(cfg, r, f);
        hide Receive, AllControl, AllShort, BareAll, DeliversUpToClose;
        ControlTail(cfg, r, role, fs[1..]);
        FirstPasses(fs, s.outcome, outcomes[1..]);
      }
    }
  }

  lemma FirstOfTail(role: Role, fs: seq<Frame>)
    requires fs != [] && AllControl(role, fs) && AllShort(fs)
    ensures AllControl(role, fs[1..]) && AllShort(fs[1..]) && IsPlainControl(Bare(fs[0])) && |fs[0].payload| <= 125
    ensures !IsClose(fs[0]) ==> IsPingOrPong(Bare(fs[0]))
    ensures BareAll(fs) == [Bare(fs[0])] + BareAll(fs[1..])
  {
    assert fs[0] in fs && forall f :: f in fs[1..] ==> f in fs;
  }

  lemma FirstPasses(fs: seq<Frame>, first: Outcome, rest: seq<Outcome>)
    requires fs != [] && !IsClose(fs[0]) && first.Deliver? && |rest| <= |fs[1..]| && DeliversUpToClose(fs[1..], rest)
    ensures DeliversUpToClose(fs, [first] + rest)
  {
    var outcomes, i := [first] + rest, CloseIndex(fs[1..]);
    assert CloseIndex(fs) == 1 + i;
    forall j | 0 <= j < |outcomes| && j < 1 + i ensures outcomes[j].Deliver? {
      if j > 0 { assert outcomes[j] == rest[j - 1]; }
    }
    if 1 + i < |outcomes| && IntoClose(fs[1 + i].payload).Ok? {
      assert outcomes[1 + i] == rest[i] && fs[1..][i] == fs[1 + i];
      forall j | 1 + i < j < |outcomes| ensures outcomes[j] == Fail(Protocol(ReceivedAfterClosing)) {
        assert outcomes[j] == rest[j - 1];
      }
    }
  }

  lemma {:induction false} AllPass(fs: seq<Frame>, head: seq<Outcome>, gs: seq<Frame>, tail: seq<Outcome>)
    requires CloseIndex(fs) == |fs| == |head| && (forall o :: o in head ==> o.Deliver?)
    requires |tail| <= |gs| && DeliversUpToClose(gs, tail)
    ensures DeliversUpToClose(fs + gs, head + tail)
    decreases |fs|
  {
    if fs == [] {
      assert fs + gs == gs && head + tail == tail;
    } else {
      assert (fs + gs)[1..] == fs[1..] + gs && head[1..] + tail == (head + tail)[1..];
      assert head[0] in head && forall o :: o in head[1..] ==> o in head;
      AllPass(fs[1..], head[1..], gs, tail);
      FirstPasses(fs + gs, head[0], head[1..] + tail);
      assert [head[0]] + (head[1..] + tail) == head + tail;
    }
  }

  lemma PrefixDelivers(log: seq<Frame>, whole: seq<Outcome>, outcomes: seq<Outcome>)
    requires |whole| <= |log| && DeliversUpToClose(log, whole) && outcomes <= whole
    ensures DeliversUpToClose(log, outcomes)
  {
  }

  /** Where a run sends its Close, if it does. */
  lemma LastOpenPoint(run: seq<Point>, n: nat) returns (m: nat)
    requires n < |run| && AfterClose(run[0].side.log).None?
    ensures m <= n && AfterClose(run[m].side.log).None?
    ensures m < n ==> AfterClose(run[m + 1].side.log).Some?
  {
    m := 0;
    while m < n && AfterClose(run[m + 1].side.log).None?
      invariant m <= n && AfterClose(run[m].side.log).None?
    {
      m := m + 1;
    }
  }

  lemma CallsAfterCloseSendControl(role: Role, max: nat, deflating: bool, p: Point, act: Act, q: Point)
    requires IsCall(role, max, deflating, p, act, q) && Running(role, max, p) && AfterClose(q.side.log).Some?
    ensures act.OtherCall?
  {
    if !act.OtherCall? {
      if act.SendMessage? {
        if act.accepted.Some? {
          DataIsNotClose(p, q, act.data, act.message, act.accepted.value);
          DataKeeps(role, max, p.side, act.accepted.value, act.error, q.side);
        }
      } else {
        DataKeeps(role, max, p.side, act.frame, act.error, q.side);
      }
    }
  }

  lemma {:induction false} RunningStays(role: Role, max: nat, deflating: bool, run: seq<Point>, acts: seq<Act>, n: nat)
    requires AreCalls(role, max, deflating, run, acts) && Running(role, max, run[0]) && n <= |acts| == |run| - 1
    ensures Running(role, max, run[n]) && Keeps(role, max, run[0].side, run[n].side)
    decreases n
  {
    hide Keeps, Running, AreCalls;
    if n == 0 {
      NothingControls(role, max, run[0].side);
    } else {
      RunningStays(role, max, deflating, run, acts, n - 1);
      OneCall(role, max, deflating, run, acts, n - 1);
      KeepsThrough(role, max, run[0].side, run[n - 1].side, run[n].side);
    }
  }

  /** From the point where the Close is sent, only control frames are accepted, and no message. */
  lemma {:induction false} TheRestIsControl(role: Role, max: nat, deflating: bool, run: seq<Point>, acts: seq<Act>,
                                            m: nat, n: nat)
    requires AreCalls(role, max, deflating, run, acts) && Running(role, max, run[0]) && m <= n <= |acts|
    requires |run| == |acts| + 1 && (m < n ==> AfterClose(run[m + 1].side.log).Some?)
    ensures Keeps(role, max, run[m].side, run[n].side) && SendsControl(role, run[m].side, run[n].side)
    ensures forall i :: m <= i < n ==> acts[i].OtherCall?
    ensures m < n ==> AfterClose(run[n].side.log).Some?
    decreases n
  {
    hide Keeps, SendsControl, Running, AreCalls, AfterClose;
    if m == n {
      NothingControls(role, max, run[m].side);
    } else {
      TheRestIsControl(role, max, deflating, run, acts, m, n - 1);
      RunningStays(role, max, deflating, run, acts, n - 1);
      OneCall(role, max, deflating, run, acts, n - 1);
      var p, q := run[n - 1], run[n];
      if m < n - 1 { AfterCloseStays(role, max, p.side, q.side); }
      ControlThrough(role, max, run[m].side, p.side, q.side);
      KeepsThrough(role, max, run[m].side, p.side, q.side);
    }
  }

  lemma NothingControls(role: Role, max: nat, a: Side)
    ensures SendsControl(role, a, a) && Keeps(role, max, a, a)
  {
    NothingReplies(role, max, a);
  }

  lemma OneCall(role: Role, max: nat, deflating: bool, run: seq<Point>, acts: seq<Act>, i: nat)
    requires AreCalls(role, max, deflating, run, acts) && i < |acts|
    ensures var p, act, q := run[i], acts[i], run[i + 1];
            && Keeps(role, max, p.side, q.side) && (Running(role, max, p) ==> Running(role, max, q))
            && (Running(role, max, p) && AfterClose(q.side.log).Some? ==>
                  act.OtherCall? && SendsControl(role, p.side, q.side))
  {
    var p, act, q := run[i], acts[i], run[i + 1];
    assert IsCall(role, max, deflating, p, act, q);
    CallKeeps(role, max, deflating, p, act, q);
    hide Running, InOrder, OnlyPongBehind;
    if Running(role, max, p) && AfterClose(q.side.log).Some? {
      CallsAfterCloseSendControl(role, max, deflating, p, act, q);
    }
  }

  lemma AfterCloseStays(role: Role, max: nat, a: Side, b: Side)
    requires Keeps(role, max, a, b) && AfterClose(a.log).Some?
    ensures AfterClose(b.log).Some?
  {
    assert b.log == a.log + b.log[|a.log|..];
    AfterCloseBehind(a.log, b.log[|a.log|..]);
  }

  lemma ControlThrough(role: Role, max: nat, a: Side, b: Side, c: Side)
    requires Keeps(role, max, a, b) && Keeps(role, max, b, c)
    requires SendsControl(role, a, b) && SendsControl(role, b, c)
    ensures SendsControl(role, a, c)
  {
    assert c.log[|a.log|..] == b.log[|a.log|..] + c.log[|b.log|..];
    if WaitsPlain(role, a.waiting) { ControlsJoin(role, b.log[|a.log|..], c.log[|b.log|..]); }
  }

  // ----- The theorem -----

  /** The outcomes of a reader that took `fs` off `seen` one after the other. */
  lemma StepwiseOutcomes(cfg: ReadConfig, r: ReadState, seen: bytes, mode: ReadMode, fs: seq<Frame>, rest: bytes)
    requires FramesRead(seen, mode, fs, rest)
    ensures Run(cfg, r, fs).1 <= Run(cfg, r, ReadAll(seen, mode).0).1
    ensures !NextFrame(rest, mode).Found? ==> ReadAll(seen, mode).0 == fs
  {
    StepwiseIsWhole(seen, mode, fs, rest);
    RunAppend(cfg, r, fs, ReadAll(rest, mode).0);
  }

  lemma PrefixOfMessages(a: seq<Outcome>, b: seq<Outcome>)
    requires a <= b
    ensures Messages(a) <= Messages(b)
  {
    assert b == a + b[|a|..];
    MessagesAppend(a, b[|a|..]);
  }

  /** Everything accepted was sent and seen, and no frame is left to be read. */
  predicate CaughtUp(start: Side, end: Side, seen: bytes, rest: bytes, mode: ReadMode) {
    start.sent + seen == end.sent && end.buffer == [] && !NextFrame(rest, mode).Found?
  }

  lemma BareOnWire(role: Role, fs: seq<Frame>)
    requires AllControl(role, fs)
    ensures AllOnWire(role, BareAll(fs), fs)
  {
  }

  lemma {:induction false} AsManyDeliveries(es: seq<Option<Encoder>>, events: seq<Event>)
    requires IsRun(es, events)
    ensures |AllDeliveries(events)| == |AllFrames(events)|
    ensures forall o :: o in AllDeliveries(events) ==> o.Deliver?
    decreases |events|
  {
    if events != [] {
      assert IsStep(es[0], events[0], es[1]);
      forall i | 0 <= i < |events[1..]|
        ensures IsStep(es[1..][i], events[1..][i], es[1..][i + 1])
      {
        assert IsStep(es[i + 1], events[i + 1], es[i + 2]);
      }
      AsManyDeliveries(es[1..], events[1..]);
    }
  }

  /** What the reader makes of the whole log: the messages, the Close, and nothing behind it. */
  lemma WholeLog(cfg: ReadConfig, last: ReadState, role: Role, es: seq<Option<Encoder>>, events: seq<Event>,
                 front: seq<Frame>, back: seq<Frame>)
    requires last.state.CanRead() && IsRun(es, events)
    requires AllOnWire(role, AllFrames(events), front) && CloseIndex(front) == |front|
    requires AllControl(role, back) && AllShort(back)
    ensures var whole := AllDeliveries(events) + Run(cfg, last, BareAll(back)).1;
            && |whole| == |front + back| && DeliversUpToClose(front + back, whole)
            && Messages(whole) == Messages(AllDeliveries(events))
  {
    AsManyDeliveries(es, events);
    ControlTail(cfg, last, role, back);
    var tail := Run(cfg, last, BareAll(back)).1;
    AllPass(front, AllDeliveries(events), back, tail);
    MessagesAppend(AllDeliveries(events), tail);
  }

  lemma {:induction false} OtherCallsAcceptNothing(acts: seq<Act>)
    requires forall i :: 0 <= i < |acts| ==> acts[i].OtherCall?
    ensures AcceptedMessages(acts) == []
  {
    if acts != [] { OtherCallsAcceptNothing(acts[1..]); }
  }

  /** The log of a run, cut at its Close. */
  lemma LogExplained(role: Role, max: nat, deflating: bool, run: seq<Point>, acts: seq<Act>, cfg: ReadConfig)
    returns (es: seq<Option<Encoder>>, events: seq<Event>, front: seq<Frame>, back: seq<Frame>)
    requires AreCalls(role, max, deflating, run, acts) && Running(role, max, run[0]) && run[0].side.log == []
    requires AllShort(run[|acts|].side.log)
    requires forall act :: act in acts ==> WithinLimit(cfg, act)
    ensures run[|acts|].side.log == front + back && CloseIndex(front) == |front|
    ensures IsRun(es, events) && es[0] == run[0].encoder && WithinLimits(cfg, events)
    ensures AllOnWire(role, AllFrames(events), front) && AllControl(role, back) && AllShort(back)
    ensures Messages(AllDeliveries(events)) == AcceptedMessages(acts)
    ensures Keeps(role, max, run[0].side, run[|acts|].side)
  {
    var n := |acts|;
    var m := LastOpenPoint(run, n);
    TheRestIsControl(role, max, deflating, run, acts, m, n);
    RunningStays(role, max, deflating, run, acts, m);
    FirstCalls(role, max, deflating, run, acts, m);
    front := run[m].side.log;
    NoCloseBefore(front);
    BackOf(role, max, run[m].side, run[n].side);
    hide IsCall, Keeps, Explained, WithinLimit, SendsControl, CloseIndex, AfterClose, AllShort, OpenAndShort,
      AcceptedMessages;
    back := run[n].side.log[|front|..];
    ShortParts(front, back);
    KeepsThrough(role, max, run[0].side, run[m].side, run[n].side);
    es, events := FrontOf(role, max, deflating, run, acts, m, cfg);
    SplitActs(acts, m);
  }

  lemma BackOf(role: Role, max: nat, a: Side, b: Side)
    requires Keeps(role, max, a, b) && SendsControl(role, a, b) && WaitsPlain(role, a.waiting)
    ensures a.log <= b.log && b.log == a.log + b.log[|a.log|..] && AllControl(role, b.log[|a.log|..])
  {
  }

  lemma FrontOf(role: Role, max: nat, deflating: bool, run: seq<Point>, acts: seq<Act>, m: nat, cfg: ReadConfig)
    returns (es: seq<Option<Encoder>>, events: seq<Event>)
    requires AreCalls(role, max, deflating, run, acts) && Running(role, max, run[0]) && run[0].side.log == []
    requires m <= |acts| && OpenAndShort(run[m].side.log)
    requires forall act :: act in acts ==> WithinLimit(cfg, act)
    ensures IsRun(es, events) && es[0] == run[0].encoder && WithinLimits(cfg, events)
    ensures AllOnWire(role, AllFrames(events), run[m].side.log)
    ensures Messages(AllDeliveries(events)) == AcceptedMessages(acts[..m])
  {
    hide IsCall, Explained, WithinLimit, Running, OpenAndShort, AcceptedMessages;
    FirstCalls(role, max, deflating, run, acts, m);
    assert forall act :: act in acts[..m] ==> act in acts;
    es, events := RunExplained(role, max, deflating, run[..m + 1], acts[..m], cfg);
    FrontExplained(role, run[0], run[m], es, events, AcceptedMessages(acts[..m]));
  }

  lemma SplitActs(acts: seq<Act>, m: nat)
    requires m <= |acts| && forall i :: m <= i < |acts| ==> acts[i].OtherCall?
    ensures AcceptedMessages(acts) == AcceptedMessages(acts[..m])
  {
    hide AcceptedMessages;
    assert acts == acts[..m] + acts[m..];
    AcceptedAppend(acts[..m], acts[m..]);
    OtherCallsAcceptNothing(acts[m..]);
    assert AcceptedMessages(acts[..m]) + [] == AcceptedMessages(acts[..m]);
  }

  lemma ShortParts(front: seq<Frame>, back: seq<Frame>)
    requires AllShort(front + back) && (forall f :: f in front ==> !IsClose(f))
    ensures OpenAndShort(front) && AllShort(back)
  {
    assert forall f :: f in front ==> f in front + back;
    assert forall f :: f in back ==> f in front + back;
  }

  lemma FrontExplained(role: Role, p: Point, q: Point, es: seq<Option<Encoder>>, events: seq<Event>,
                       accepted: seq<Outcome>)
    requires Explained(role, p, q, es, events, accepted) && p.side.log == []
    ensures IsRun(es, events) && es[0] == p.encoder && AllOnWire(role, AllFrames(events), q.side.log)
    ensures Messages(AllDeliveries(events)) == accepted
  {
    assert q.side.log[0..] == q.side.log;
  }

  // ----- A reader that makes calls of its own -----

  /** The reader's own calls move its state before each frame, if that is a move they can make. */
  function MovedBy(r: ReadState, to: WsState): ReadState {
    if OwnMove(r.state, to) then r.(state := to) else r
  }

  function MovedRun(cfg: ReadConfig, r: ReadState, fs: seq<Frame>, moves: seq<WsState>): (outcomes: seq<Outcome>)
    requires |moves| == |fs|
    ensures |outcomes| == |fs|
    decreases |fs|
  {
    if fs == [] then []
    else
      var s := Receive(cfg, MovedBy(r, moves[0]), fs[0]);
      [s.outcome] + MovedRun(cfg, s.next, fs[1..], moves[1..])
  }

  /** Both may read, or neither, and nothing else differs. */
  predicate Abreast(r: ReadState, s: ReadState) {
    s == r.(state := s.state) && r.state.CanRead() == s.state.CanRead()
  }

  /** Equal, or the same Close as an end that has closed and one that has not hand it over. */
  predicate AlikeOutcome(a: Outcome, b: Outcome) {
    a == b || (a.Deliver? && b.Deliver? && a.message.CloseMessage? && b.message.CloseMessage?)
  }

  lemma AbreastStep(cfg: ReadConfig, r: ReadState, s: ReadState, f: Frame)
    requires Abreast(r, s)
    ensures var a, b := Receive(cfg, r, f), Receive(cfg, s, f);
            AlikeOutcome(a.outcome, b.outcome) && Abreast(a.next, b.next)
  {
    hide DataReceived, ControlReceived;
    match f.header.opcode
    case DataOp(d) => AbreastData(cfg, r, s, d, f);
    case ControlOp(c) => if r.state.CanRead() { AbreastControl(r, s, c, f); }
  }

  lemma AbreastData(cfg: ReadConfig, r: ReadState, s: ReadState, d: Data, f: Frame)
    requires Abreast(r, s)
    ensures var a, b := DataReceived(cfg, r, d, f), DataReceived(cfg, s, d, f);
            a.outcome == b.outcome && Abreast(a.next, b.next)
  {
    hide Codec.DecompressSpec, Assemble, Discard;
    DiscardAbreast(r, s, f.header);
    var (a, x) := DecodedPayload(cfg, r, d, f);
    var (b, y) := DecodedPayload(cfg, s, d, f);
    assert x == y && Abreast(a, b);
    if x.Ok? { AssembleAbreast(cfg, a, b, d, f.header.isFinal, x.value); }
  }

  lemma DiscardAbreast(r: ReadState, s: ReadState, h: FrameHeader)
    requires Abreast(r, s)
    ensures Abreast(Discard(r, h), Discard(s, h))
  {
  }

  lemma AssembleAbreast(cfg: ReadConfig, r: ReadState, s: ReadState, d: Data, isFinal: bool, payload: bytes)
    requires Abreast(r, s)
    ensures var a, b := Assemble(cfg, r, d, isFinal, payload), Assemble(cfg, s, d, isFinal, payload);
            a.outcome == b.outcome && Abreast(a.next, b.next)
  {
    hide Assembly.ExtendPartial, FromUtf8, Whole;
  }

  lemma AbreastControl(r: ReadState, s: ReadState, c: Control, f: Frame)
    requires Abreast(r, s) && r.state.CanRead()
    ensures var a, b := ControlReceived(r, c, f), ControlReceived(s, c, f);
            AlikeOutcome(a.outcome, b.outcome) && Abreast(a.next, b.next)
  {
    hide IntoClose, Sanitized;
  }

  predicate AllAlike(a: seq<Outcome>, b: seq<Outcome>) {
    |a| == |b| && forall i :: 0 <= i < |a| ==> AlikeOutcome(a[i], b[i])
  }

  lemma FirstAlike(x: Outcome, a: seq<Outcome>, y: Outcome, b: seq<Outcome>)
    requires AlikeOutcome(x, y) && AllAlike(a, b)
    ensures AllAlike([x] + a, [y] + b)
  {
    hide AlikeOutcome;
  }

  lemma {:induction false} MovedRunIsAlike(cfg: ReadConfig, r: ReadState, s: ReadState, fs: seq<Frame>,
                                           moves: seq<WsState>)
    requires |moves| == |fs| && Abreast(r, s)
    ensures AllAlike(Run(cfg, r, fs).1, MovedRun(cfg, s, fs, moves))
    decreases |fs|
  {
    if fs != [] {
      var s' := MovedBy(s, moves[0]);
      AbreastStep(cfg, r, s', fs[0]);
      hide Receive, AlikeOutcome, Abreast, AllAlike;
      var a, b := Receive(cfg, r, fs[0]), Receive(cfg, s', fs[0]);
      MovedRunIsAlike(cfg, a.next, b.next, fs[1..], moves[1..]);
      FirstAlike(a.outcome, Run(cfg, a.next, fs[1..]).1, b.outcome, MovedRun(cfg, b.next, fs[1..], moves[1..]));
    }
  }

  lemma {:induction false} AlikeMessages(a: seq<Outcome>, b: seq<Outcome>)
    requires AllAlike(a, b)
    ensures Messages(a) == Messages(b)
    decreases |a|
  {
    if a != [] {
      assert AlikeOutcome(a[0], b[0]);
      AlikeMessages(a[1..], b[1..]);
    }
  }

  lemma AlikeDelivers(log: seq<Frame>, a: seq<Outcome>, b: seq<Outcome>)
    requires |a| <= |log| && AllAlike(a, b) && DeliversUpToClose(log, a)
    ensures DeliversUpToClose(log, b)
  {
    assert forall i :: 0 <= i < |a| ==> AlikeOutcome(a[i], b[i]) && (a[i].Deliver? == b[i].Deliver?);
  }

  /**
   * Between two ends in step. The sender's calls are any, in any order, with refusals, returned frames
   * dropped or sent again, failed compressions, closes and I/O errors anywhere; only the user's own raw
   * frames are left out. The reader has seen any prefix of what reached the stream and has taken any
   * number of frames off it, with any calls of its own in between, a close among them. What it delivers
   * before the Close are exactly the first messages accepted, in order, among the pings and pongs; then
   * it delivers the Close.
   */
  lemma ConnectionIsLossless(cfg: ReadConfig, r: ReadState, role: Role, mode: ReadMode, max: nat, deflating: bool,
                             run: seq<Point>, acts: seq<Act>, seen: bytes, fs: seq<Frame>, rest: bytes,
                             moves: seq<WsState>)
    requires AreCalls(role, max, deflating, run, acts) && Running(role, max, run[0])
    requires run[0].side.log == [] && run[0].side.buffer == []
    requires ReadyToRead(cfg, r) && InStep(cfg, run[0].encoder, r)
    requires var log := run[|acts|].side.log; AllShort(log) && AllAcceptable(log, mode) && mode.unmask == role.Client?
    requires forall act :: act in acts ==> WithinLimit(cfg, act)
    requires run[0].side.sent + seen <= run[|acts|].side.sent && FramesRead(seen, mode, fs, rest) && |moves| == |fs|
    ensures var outcomes, log := MovedRun(cfg, r, fs, moves), run[|acts|].side.log;
            && |outcomes| <= |log| && DeliversUpToClose(log, outcomes)
            && Messages(outcomes) <= AcceptedMessages(acts)
            && (CaughtUp(run[0].side, run[|acts|].side, seen, rest, mode) ==>
                  Messages(outcomes) == AcceptedMessages(acts))
  {
    hide Run, ReadAll, FramesRead, Messages, AcceptedMessages, Running, AllShort, AllAcceptable, InStep,
      NextFrame, DeliversUpToClose, IsCall, MovedRun, AlikeOutcome, AllAlike, ReadyToRead;
    QuietReaderIsLossless(cfg, r, role, mode, max, deflating, run, acts, seen, fs, rest);
    MovedRunIsAlike(cfg, r, r, fs, moves);
    AlikeMessages(Run(cfg, r, fs).1, MovedRun(cfg, r, fs, moves));
    AlikeDelivers(run[|acts|].side.log, Run(cfg, r, fs).1, MovedRun(cfg, r, fs, moves));
  }

  /** The same for a reader that only reads. */
  lemma QuietReaderIsLossless(cfg: ReadConfig, r: ReadState, role: Role, mode: ReadMode, max: nat, deflating: bool,
                             run: seq<Point>, acts: seq<Act>, seen: bytes, fs: seq<Frame>, rest: bytes)
    requires AreCalls(role, max, deflating, run, acts) && Running(role, max, run[0])
    requires run[0].side.log == [] && run[0].side.buffer == []
    requires ReadyToRead(cfg, r) && InStep(cfg, run[0].encoder, r)
    requires var log := run[|acts|].side.log; AllShort(log) && AllAcceptable(log, mode) && mode.unmask == role.Client?
    requires forall act :: act in acts ==> WithinLimit(cfg, act)
    requires run[0].side.sent + seen <= run[|acts|].side.sent && FramesRead(seen, mode, fs, rest)
    ensures var outcomes, log := Run(cfg, r, fs).1, run[|acts|].side.log;
            && |outcomes| <= |log| && DeliversUpToClose(log, outcomes)
            && Messages(outcomes) <= AcceptedMessages(acts)
            && (CaughtUp(run[0].side, run[|acts|].side, seen, rest, mode) ==>
                  Messages(outcomes) == AcceptedMessages(acts))
  {
    hide Run, ReadAll, FramesRead, Messages, AcceptedMessages, Keeps, Running, AllShort, AllAcceptable, InStep,
      IsRun, AllFrames, AllDeliveries, AllOnWire, NextFrame, DeliversUpToClose, AllControl, CloseIndex, IsCall, BareAll;
    var p, q := run[0], run[|acts|];
    var es, events, front, back := LogExplained(role, max, deflating, run, acts, cfg);
    BareOnWire(role, back);
    OnWireAppend(role, AllFrames(events), front, BareAll(back), back);
    SeenIsAPrefix(role, max, p.side, q.side, seen);
    LosslessOnTheWire(cfg, r, role, mode, es, events, BareAll(back), q.side.log, |seen|);
    StepwiseOutcomes(cfg, r, seen, mode, fs, rest);
    var last := Run(cfg, r, AllFrames(events)).0;
    WholeLog(cfg, last, role, es, events, front, back);
    var whole := AllDeliveries(events) + Run(cfg, last, BareAll(back)).1;
    PrefixDelivers(q.side.log, whole, Run(cfg, r, fs).1);
    PrefixOfMessages(Run(cfg, r, fs).1, whole);
  }

  /** What reached the stream is the front of what was accepted. */
  lemma SeenIsAPrefix(role: Role, max: nat, a: Side, b: Side, seen: bytes)
    requires Keeps(role, max, a, b) && a.log == [] && a.buffer == [] && a.sent + seen <= b.sent
    ensures |seen| <= |EncodeAll(b.log)| && EncodeAll(b.log)[..|seen|] == seen && b.log[|a.log|..] == b.log
    ensures a.sent + seen == b.sent && b.buffer == [] ==> |seen| == |EncodeAll(b.log)|
  {
    hide InOrder, EncodeAll;
    assert b.log[0..] == b.log;
    assert a.sent + [] == a.sent;
    assert b.sent + b.buffer == a.sent + EncodeAll(b.log);
    assert seen == b.sent[|a.sent|..|a.sent| + |seen|];
    assert (a.sent + EncodeAll(b.log))[|a.sent|..|a.sent| + |seen|] == seen;
  }

  /** An end as it is created, on a stream that may have carried the handshake. */
  predicate Starting(p: Point) {
    p.side == Side(Active, None, [], [], p.side.sent)
  }

  lemma RunsHavePoints(role: Role, max: nat, run: seq<Point>, acts: seq<Act>)
    requires AreCalls(role, max, true, run, acts)
    ensures |run| == |acts| + 1
  {
  }

  /** The same for any two ends that negotiated compression with each other, in either direction. */
  lemma NegotiatedConnectionIsLossless(client: Settings, server: Settings, role: Role, maxMessageSize: Option<nat>,
                                       mode: ReadMode, max: nat, run: seq<Point>, acts: seq<Act>,
                                       seen: bytes, fs: seq<Frame>, rest: bytes, moves: seq<WsState>)
    requires client.BuilderValid() && server.BuilderValid() && Limit(maxMessageSize) <= USIZE_MAX
    requires AreCalls(role, max, true, run, acts) && Starting(run[0])
    requires var log := run[|acts|].side.log; AllShort(log) && AllAcceptable(log, mode) && mode.unmask == role.Client?
    requires forall act :: act in acts ==> WithinLimit(ReadConfig(Peer(role), maxMessageSize, false), act)
    requires run[0].side.sent + seen <= run[|acts|].side.sent && FramesRead(seen, mode, fs, rest) && |moves| == |fs|
    ensures run[0].encoder == Some(InitialEncoder(role, Negotiated(client, server, role))) ==>
              var theirs := Negotiated(client, server, Peer(role));
              var cfg := ReadConfig(Peer(role), maxMessageSize, theirs.PeerNoContextTakeover(Peer(role)));
              var outcomes := MovedRun(cfg, Fresh(Some(InitialDecoder(Peer(role), theirs))), fs, moves);
              && |outcomes| <= |run[|acts|].side.log| && DeliversUpToClose(run[|acts|].side.log, outcomes)
              && Messages(outcomes) <= AcceptedMessages(acts)
              && (CaughtUp(run[0].side, run[|acts|].side, seen, rest, mode) ==>
                    Messages(outcomes) == AcceptedMessages(acts))
  {
    hide AreCalls, AllShort, AllAcceptable, CaughtUp, Negotiated, MovedRun, NextFrame, FramesRead, Messages,
      AcceptedMessages, DeliversUpToClose, InStep;
    var theirs := Negotiated(client, server, Peer(role));
    var cfg := ReadConfig(Peer(role), maxMessageSize, theirs.PeerNoContextTakeover(Peer(role)));
    NegotiationPutsInStep(client, server, role, maxMessageSize);
    RunsHavePoints(role, max, run, acts);
    assert forall act :: WithinLimit(ReadConfig(Peer(role), maxMessageSize, false), act) ==> WithinLimit(cfg, act);
    if run[0].encoder == Some(InitialEncoder(role, Negotiated(client, server, role))) {
      var r := Fresh(Some(InitialDecoder(Peer(role), theirs)));
      ConnectionIsLossless(cfg, r, role, mode, max, true, run, acts, seen, fs, rest, moves);
    }
  }
}
