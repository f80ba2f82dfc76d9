/**
 * What one write does to the compressor and the frame log: the specification of the writing half
 * (src/protocol/mod.rs), and the theorem that nothing sent compressed is ever misread.
 */
module Sending {
  import opened Bytes
  import opened Utf8
  import opened Frames
  import opened Mask
  import opened Streams
  import opened FrameCodecs
  import opened Assembly
  import opened Lz
  import opened Codec
  import opened Receiving
  import opened Fragmentation
  import opened DeflateSettings
  import opened ExtensionHeaders
  import opened Negotiate

  // ----- Frames on the wire -----

  /** `w` is `f` as it goes out: a client puts a mask of its own on every frame. */
  predicate OnWire(role: Role, f: Frame, w: Frame) {
    match role
    case Server => w == f
    case Client => w.header.mask.Some? && w == f.(header := f.header.(mask := w.header.mask))
  }

  /** `wire_size`: the length of a frame that is still to be masked. */
  function WireSize(role: Role, f: Frame): nat {
    f.Len() + if role.Client? then 4 else 0
  }

  /** The size admission is decided on is exactly the bytes the frame then takes. */
  lemma WireSizeIsExact(role: Role, f: Frame, w: Frame)
    requires f.header.mask.None? && OnWire(role, f, w)
    ensures |Encode(w)| == WireSize(role, f) == w.Len()
  {
    EncodeLength(w);
  }

  /** The peer of `role` gets the frame back bare. */
  lemma ArrivesBare(role: Role, f: Frame, w: Frame)
    requires f.header.mask.None? && OnWire(role, f, w)
    ensures Arrives(w, role.Client?) == f
  {
  }

  // ----- One write -----

  /** A compressor between messages. */
  datatype Encoder = Encoder(size: nat, hist: bytes, reset: bool)

  function CompressedFrame(payload: bytes, d: Data): Frame {
    Frame(FrameHeader(true, true, false, false, DataOp(d), None), payload)
  }

  function ResetEncoder(e: Option<Encoder>): Option<Encoder> {
    match e case None => None case Some(x) => Some(x.(hist := []))
  }

  function Advance(e: Encoder, message: bytes): Encoder {
    e.(hist := if e.reset then [] else Slide(e.hist, message, e.size))
  }

  /**
   * A write of one message: nothing is accepted and the history is kept, or a compressor failure
   * emptied it; or the plain frame is accepted and the history emptied; or a compressed frame is
   * accepted and the history advanced.
   */
  ghost predicate DataWrite(e: Option<Encoder>, e': Option<Encoder>, d: Data, message: bytes, accepted: Option<Frame>) {
    match accepted
    case None => e' == e || e' == ResetEncoder(e)
    case Some(f) =>
      || (f == MessageFrame(message, d, true) && e' == ResetEncoder(e))
      || (e.Some? && f == CompressedFrame(f.payload, d)
          && IsCompressed(e.value.hist, e.value.size, message, f.payload)
          && e' == Some(Advance(e.value, message)))
  }

  // ----- A run of writes -----

  /** A write of a message, a frame that an earlier write returned, accepted at last, or a ping or pong. */
  datatype Event =
    | DataEvent(data: Data, message: bytes, accepted: Option<Frame>)
    | RetryEvent(data: Data, message: bytes)
    | ControlEvent(frame: Frame)

  /** `es` are the compressor's states before, between and after the events. */
  ghost predicate IsRun(es: seq<Option<Encoder>>, events: seq<Event>) {
    && |es| == |events| + 1
    && forall i :: 0 <= i < |events| ==> IsStep(es[i], events[i], es[i + 1])
  }

  ghost predicate IsStep(e: Option<Encoder>, event: Event, e': Option<Encoder>) {
    match event
    case DataEvent(d, message, accepted) =>
      (d.Text? || d.Binary?) && DataWrite(e, e', d, message, accepted)
    case RetryEvent(d, _) => (d.Text? || d.Binary?) && e' == e
    case ControlEvent(f) => e' == e && IsPingOrPong(f)
  }

  function FramesOf(event: Event): seq<Frame> {
    match event
    case DataEvent(_, _, None) => []
    case DataEvent(_, _, Some(f)) => [f]
    case RetryEvent(d, message) => [MessageFrame(message, d, true)]
    case ControlEvent(f) => [f]
  }

  function AllFrames(events: seq<Event>): seq<Frame> {
    if events == [] then [] else FramesOf(events[0]) + AllFrames(events[1..])
  }

  /** What the peer should see of an event: an accepted message, or a ping or pong. */
  function DeliveriesOf(event: Event): seq<Outcome> {
    match event
    case DataEvent(_, _, None) => []
    case DataEvent(d, message, Some(_)) => [Deliver(DataMessage(d, message))]
    case RetryEvent(d, message) => [Deliver(DataMessage(d, message))]
    case ControlEvent(f) => [Deliver(ControlMessage(f))]
  }

  function AllDeliveries(events: seq<Event>): seq<Outcome> {
    if events == [] then [] else DeliveriesOf(events[0]) + AllDeliveries(events[1..])
  }

  /** The receiver's limits are not hit, and text is text. */
  predicate WithinLimits(cfg: ReadConfig, events: seq<Event>) {
    forall x :: x in events && (x.RetryEvent? || (x.DataEvent? && x.accepted.Some?)) ==>
      |x.message| <= Limit(cfg.maxMessageSize) && (x.data.Text? ==> FromUtf8(x.message).Valid?)
  }

  /**
   * The reader is in step: its decoder is between elements, remembers at least what the writer
   * may refer to, and forgets between messages only if the writer does.
   */
  ghost predicate InStep(cfg: ReadConfig, e: Option<Encoder>, r: ReadState) {
    e.Some? ==>
      && r.decoder.Some? && r.decoder.value.pend == []
      && e.value.size <= r.decoder.value.size
      && IsSuffix(e.value.hist, r.decoder.value.hist)
      && (cfg.resetDecoder ==> e.value.reset)
      && (e.value.reset ==> e.value.hist == [])
  }

  ghost predicate ReadyToRead(cfg: ReadConfig, r: ReadState) {
    Sound(cfg, r) && r.state.CanRead() && r.incomplete.None? && Limit(cfg.maxMessageSize) <= USIZE_MAX
  }

  lemma EmptyIsSuffix(s: bytes)
    ensures IsSuffix([], s)
  {
    assert s[|s| - 0..] == [];
  }

  lemma PlainIsDelivered(cfg: ReadConfig, r: ReadState, d: Data, message: bytes)
    requires ReadyToRead(cfg, r) && (d.Text? || d.Binary?)
    requires |message| <= Limit(cfg.maxMessageSize) && (d.Text? ==> FromUtf8(message).Valid?)
    ensures Receive(cfg, r, MessageFrame(message, d, true))
         == Received(r, Deliver(DataMessage(d, message)), None)
  {
    WholeMessage(cfg, r, Sent(d, false), message);
    assert MessageFrame(message, d, true) == Fragment(Sent(d, false), message, true, true);
    if d.Text? { assert Viable(message); }
  }

  lemma CompressedIsDelivered(cfg: ReadConfig, e: Encoder, r: ReadState, d: Data, message: bytes, f: Frame)
    requires ReadyToRead(cfg, r) && (d.Text? || d.Binary?) && InStep(cfg, Some(e), r)
    requires |message| <= Limit(cfg.maxMessageSize) && (d.Text? ==> FromUtf8(message).Valid?)
    requires f == CompressedFrame(f.payload, d) && IsCompressed(e.hist, e.size, message, f.payload)
    ensures var got := Receive(cfg, r, f);
            && got.outcome == Deliver(DataMessage(d, message))
            && ReadyToRead(cfg, got.next) && InStep(cfg, Some(Advance(e, message)), got.next)
  {
    var m := Sent(d, true);
    DecodesTheSame(e.hist, e.size, message, f.payload, r.decoder.value);
    assert Content(r, m, AllWire(m, f.payload)).out == message;
    WholeMessage(cfg, r, m, f.payload);
    assert f == Fragment(m, f.payload, true, true);
    ReceiveKeeps(cfg, r, f);
    EmptyIsSuffix(Receive(cfg, r, f).next.decoder.value.hist);
  }

  lemma StepIsDelivered(cfg: ReadConfig, e: Option<Encoder>, event: Event, e': Option<Encoder>, r: ReadState)
    requires ReadyToRead(cfg, r) && InStep(cfg, e, r) && IsStep(e, event, e') && WithinLimits(cfg, [event])
    ensures var (next, outcomes) := Run(cfg, r, FramesOf(event));
            outcomes == DeliveriesOf(event) && ReadyToRead(cfg, next) && InStep(cfg, e', next)
  {
    assert event in [event];
    if r.decoder.Some? { EmptyIsSuffix(r.decoder.value.hist); }
    match event
    case ControlEvent(f) => ControlPasses(cfg, r, f);
    case RetryEvent(d, message) => PlainIsDelivered(cfg, r, d, message);
    case DataEvent(d, message, None) =>
    case DataEvent(d, message, Some(f)) =>
      if f == MessageFrame(message, d, true) && e' == ResetEncoder(e) {
        PlainIsDelivered(cfg, r, d, message);
      } else {
        CompressedIsDelivered(cfg, e.value, r, d, message, f);
      }
  }

  /**
   * Lossless: over any run of writes, with rejections, compressor failures and fallbacks
   * anywhere, the peer that decodes the accepted frames in order delivers exactly the accepted
   * messages in order, and stays in step.
   */
  lemma {:induction false} RunIsLossless(cfg: ReadConfig, es: seq<Option<Encoder>>, events: seq<Event>, r: ReadState)
    requires IsRun(es, events) && WithinLimits(cfg, events)
    requires ReadyToRead(cfg, r) && InStep(cfg, es[0], r)
    ensures var (last, outcomes) := Run(cfg, r, AllFrames(events));
            outcomes == AllDeliveries(events) && ReadyToRead(cfg, last) && InStep(cfg, es[|events|], last)
    decreases |events|
  {
    hide IsRun, WithinLimits, Receive, IsStep, InStep, ReadyToRead, FramesOf, DeliveriesOf;
    RunLength(es, events);
    if events != [] {
      RestOfRun(es, events);
      RestWithin(cfg, events);
      StepIsDelivered(cfg, es[0], events[0], es[1], r);
      RunIsLossless(cfg, es[1..], events[1..], Run(cfg, r, FramesOf(events[0])).0);
      RunAppend(cfg, r, FramesOf(events[0]), AllFrames(events[1..]));
    }
  }

  lemma RunLength(es: seq<Option<Encoder>>, events: seq<Event>)
    requires IsRun(es, events)
    ensures |es| == |events| + 1
  {
  }

  lemma RestWithin(cfg: ReadConfig, events: seq<Event>)
    requires WithinLimits(cfg, events) && events != []
    ensures WithinLimits(cfg, [events[0]]) && WithinLimits(cfg, events[1..])
  {
    assert events[0] in events;
    assert forall x :: x in events[1..] ==> x in events;
  }

  lemma RestOfRun(es: seq<Option<Encoder>>, events: seq<Event>)
    requires IsRun(es, events) && events != []
    ensures |es| >= 2 && IsStep(es[0], events[0], es[1]) && IsRun(es[1..], events[1..])
  {
    hide IsStep;
    assert IsStep(es[0], events[0], es[1]);
    forall i | 0 <= i < |events[1..]|
      ensures IsStep(es[1..][i], events[1..][i], es[1..][i + 1])
    {
      assert IsStep(es[i + 1], events[i + 1], es[i + 2]);
    }
  }

  // ----- From negotiation to the wire -----

  function InitialEncoder(role: Role, s: Settings): Encoder {
    Encoder(WindowSize(s.OwnWindow(role)), [], s.OwnNoContextTakeover(role))
  }

  function InitialDecoder(role: Role, s: Settings): Inflater {
    Inflater(WindowSize(Max(9, s.PeerWindow(role))), [], [])
  }

  function Peer(role: Role): Role { if role.Client? then Server else Client }

  /** A connection as it is created. */
  function Fresh(decoder: Option<Inflater>): ReadState {
    ReadState(Active, None, decoder, false, false)
  }

  /** The settings the two ends hold after the handshake. */
  function Negotiated(client: Settings, server: Settings, role: Role): Settings
    requires client.BuilderValid() && server.BuilderValid()
  {
    EndpointsAgree(client, server);
    var (s, response) := Answers(server, [Print(OfferParams(client))])[0];
    if role.Server? then s else Accepted(client, [response]).value.value
  }

  /** Whatever the two ends configured, each end's compressor starts in step with the other's decoder. */
  lemma NegotiationPutsInStep(client: Settings, server: Settings, role: Role, maxMessageSize: Option<nat>)
    requires client.BuilderValid() && server.BuilderValid()
    ensures var own, theirs := Negotiated(client, server, role), Negotiated(client, server, Peer(role));
            && own.BuilderValid() && theirs.BuilderValid()
            && InStep(ReadConfig(Peer(role), maxMessageSize, theirs.PeerNoContextTakeover(Peer(role))),
                      Some(InitialEncoder(role, own)), Fresh(Some(InitialDecoder(Peer(role), theirs))))
  {
    EndpointsAgree(client, server);
    var own, theirs := Negotiated(client, server, role), Negotiated(client, server, Peer(role));
    Pow2Monotone(own.OwnWindow(role), theirs.PeerWindow(Peer(role)));
    EmptyIsSuffix([]);
  }

  ghost predicate AllOnWire(role: Role, fs: seq<Frame>, ws: seq<Frame>) {
    |ws| == |fs| && forall i :: 0 <= i < |fs| ==> fs[i].header.mask.None? && OnWire(role, fs[i], ws[i])
  }

  lemma {:induction false} AllArriveBare(role: Role, fs: seq<Frame>, ws: seq<Frame>)
    requires AllOnWire(role, fs, ws)
    ensures ArriveAll(ws, role.Client?) == fs
  {
    forall i | 0 <= i < |fs| ensures ArriveAll(ws, role.Client?)[i] == fs[i] { ArrivesBare(role, fs[i], ws[i]); }
  }

  lemma ArriveStep(ws: seq<Frame>, i: nat, unmask: bool)
    requires i < |ws|
    ensures ArriveAll(ws[..i + 1], unmask) == [Arrives(ws[0], unmask)] + ArriveAll(ws[1..][..i], unmask)
  {
    assert ws[..i + 1][1..] == ws[1..][..i];
  }

  /** Every frame of a run fits a peer that reads in `mode`. */
  predicate AllAcceptable(ws: seq<Frame>, mode: ReadMode) {
    forall i :: 0 <= i < |ws| ==> Acceptable(ws[i], mode)
  }

  ghost predicate ReadsFirst(seen: bytes, ws: seq<Frame>, j: nat, mode: ReadMode) {
    j <= |ws| && ReadAll(seen, mode).0 == ArriveAll(ws[..j], mode.unmask)
  }

  lemma NothingRead(w: Frame, ws: seq<Frame>, tail: bytes, k: nat, mode: ReadMode)
    requires Acceptable(w, mode) && k < |Encode(w)|
    ensures ReadsFirst((Encode(w) + tail)[..k], ws, 0, mode)
  {
    TakeWithin(Encode(w), tail, k);
    StrictPrefixIsStarved(w, k, mode);
    assert ws[..0] == [];
  }

  lemma OneMoreRead(ws: seq<Frame>, rest: bytes, i: nat, mode: ReadMode)
    requires ws != [] && Acceptable(ws[0], mode) && ReadsFirst(rest, ws[1..], i, mode)
    ensures ReadsFirst(Encode(ws[0]) + rest, ws, i + 1, mode)
  {
    ReadAllStep(ws[0], rest, mode);
    ArriveStep(ws, i, mode.unmask);
  }

  lemma NothingReadOf(mode: ReadMode)
    ensures ReadsFirst([], [], 0, mode)
  {
  }

  /** A reader that has seen only part of the stream has read only whole frames of it, from the front. */
  lemma {:induction false} PrefixReadsPrefix(ws: seq<Frame>, k: nat, mode: ReadMode) returns (j: nat)
    requires k <= |EncodeAll(ws)| && AllAcceptable(ws, mode)
    ensures ReadsFirst(EncodeAll(ws)[..k], ws, j, mode)
    ensures k == |EncodeAll(ws)| ==> j == |ws|
    decreases |ws|
  {
    hide Encode, Acceptable, NextFrame, ReadAll;
    if ws == [] {
      j := 0;
      NothingReadOf(mode);
    } else {
      hide ReadsFirst;
      var n := |Encode(ws[0])|;
      if k < n {
        NothingRead(ws[0], ws, EncodeAll(ws[1..]), k, mode);
        j := 0;
      } else {
        var i := PrefixReadsPrefix(ws[1..], k - n, mode);
        TakeBehind(Encode(ws[0]), EncodeAll(ws[1..]), k);
        OneMoreRead(ws, EncodeAll(ws[1..])[..k - n], i, mode);
        j := i + 1;
      }
    }
  }

  lemma RunOfPrefix(cfg: ReadConfig, r: ReadState, fs: seq<Frame>, j: nat)
    requires j <= |fs|
    ensures Run(cfg, r, fs[..j]).1 <= Run(cfg, r, fs).1
  {
    assert fs == fs[..j] + fs[j..];
    RunAppend(cfg, r, fs[..j], fs[j..]);
  }

  /**
   * Between two ends in step, over any run of writes, any masks and any cut of the byte stream, with
   * any frames behind the run: what the reader sees is the first part of what the run delivers,
   * followed by what the frames behind it come to.
   */
  lemma LosslessOnTheWire(cfg: ReadConfig, r: ReadState, role: Role, mode: ReadMode,
                          es: seq<Option<Encoder>>, events: seq<Event>, behind: seq<Frame>, ws: seq<Frame>, k: nat)
    requires ReadyToRead(cfg, r) && IsRun(es, events) && InStep(cfg, es[0], r) && WithinLimits(cfg, events)
    requires AllOnWire(role, AllFrames(events) + behind, ws) && AllAcceptable(ws, mode) && mode.unmask == role.Client?
    requires k <= |EncodeAll(ws)|
    ensures var outcomes := Run(cfg, r, ReadAll(EncodeAll(ws)[..k], mode).0).1;
            var last := Run(cfg, r, AllFrames(events)).0;
            var all := AllDeliveries(events) + Run(cfg, last, behind).1;
            && ReadyToRead(cfg, last)
            && outcomes <= all
            && (k == |EncodeAll(ws)| ==> outcomes == all)
  {
    var fs := AllFrames(events) + behind;
    RunIsLossless(cfg, es, events, r);
    RunAppend(cfg, r, AllFrames(events), behind);
    var j := PrefixReadsPrefix(ws, k, mode);
    AllArriveBare(role, fs[..j], ws[..j]);
    RunOfPrefix(cfg, r, fs, j);
    if k == |EncodeAll(ws)| { assert fs[..j] == fs; }
  }

  /**
   * End to end. For any settings of the two ends, either direction, any run of writes and any
   * masks: cut off the sender's byte stream anywhere, and the peer that reads it delivers exactly
   * the first messages accepted, in order; read to the end, it delivers all of them.
   */
  lemma LosslessEndToEnd(client: Settings, server: Settings, role: Role, maxMessageSize: Option<nat>, mode: ReadMode,
                         es: seq<Option<Encoder>>, events: seq<Event>, ws: seq<Frame>, k: nat)
    requires client.BuilderValid() && server.BuilderValid() && Limit(maxMessageSize) <= USIZE_MAX
    requires IsRun(es, events) && WithinLimits(ReadConfig(Peer(role), maxMessageSize, false), events)
    requires AllOnWire(role, AllFrames(events), ws) && AllAcceptable(ws, mode) && mode.unmask == role.Client?
    requires k <= |EncodeAll(ws)|
    ensures es[0] == Some(InitialEncoder(role, Negotiated(client, server, role))) ==>
              var theirs := Negotiated(client, server, Peer(role));
              var cfg := ReadConfig(Peer(role), maxMessageSize, theirs.PeerNoContextTakeover(Peer(role)));
              var r := Fresh(Some(InitialDecoder(Peer(role), theirs)));
              var outcomes := Run(cfg, r, ReadAll(EncodeAll(ws)[..k], mode).0).1;
              && outcomes <= AllDeliveries(events)
              && (k == |EncodeAll(ws)| ==> outcomes == AllDeliveries(events))
  {
    var theirs := Negotiated(client, server, Peer(role));
    var cfg := ReadConfig(Peer(role), maxMessageSize, theirs.PeerNoContextTakeover(Peer(role)));
    var r := Fresh(Some(InitialDecoder(Peer(role), theirs)));
    NegotiationPutsInStep(client, server, role, maxMessageSize);
    hide Negotiated, Run, ReadAll;
    if es[0] == Some(InitialEncoder(role, Negotiated(client, server, role))) {
      assert AllFrames(events) + [] == AllFrames(events);
      assert AllDeliveries(events) + [] == AllDeliveries(events);
      LosslessOnTheWire(cfg, r, role, mode, es, events, [], ws, k);
    }
  }
}
