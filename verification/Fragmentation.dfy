/**
 * Fragmentation is transparent (section 5.4 of RFC 6455): however a message is cut into frames,
 * in the middle of a character or of a compressed element, and whatever pings and pongs come in
 * between, it is accepted or refused exactly as in one frame.
 */
module Fragmentation {
  import opened Bytes
  import opened Utf8
  import opened Frames
  import opened Assembly
  import opened Lz
  import opened Codec
  import opened Receiving

  // ----- Frames of one message -----

  datatype Sent = Sent(data: Data, compressed: bool)

  function Fragment(m: Sent, payload: bytes, first: bool, last: bool): Frame {
    Frame(FrameHeader(last, first && m.compressed, false, false, DataOp(if first then m.data else Continue), None),
          payload)
  }

  function Fragments(m: Sent, pieces: seq<bytes>, first: bool): seq<Frame>
    requires pieces != []
  {
    if |pieces| == 1 then [Fragment(m, pieces[0], first, true)]
    else [Fragment(m, pieces[0], first, false)] + Fragments(m, pieces[1..], false)
  }

  /** A ping or pong that may come between fragments. */
  predicate IsPingOrPong(f: Frame) {
    && (f.header.opcode == ControlOp(Ping) || f.header.opcode == ControlOp(Pong))
    && f.header.isFinal && !f.header.rsv1 && !f.header.rsv2 && !f.header.rsv3 && f.header.mask.None?
    && |f.payload| <= 125
  }

  function DataFrames(fs: seq<Frame>): seq<Frame> {
    if fs == [] then []
    else (if fs[0].header.opcode.DataOp? then [fs[0]] else []) + DataFrames(fs[1..])
  }

  /** `fs` is the message cut into `pieces`, with pings and pongs anywhere. */
  predicate IsFragmented(fs: seq<Frame>, m: Sent, pieces: seq<bytes>, first: bool)
    requires pieces != []
  {
    && DataFrames(fs) == Fragments(m, pieces, first)
    && forall f :: f in fs && !f.header.opcode.DataOp? ==> IsPingOrPong(f)
  }

  // ----- What should happen -----

  /** Until its last fragment a message is quiet; control frames are delivered where they stand. */
  function Meanwhile(f: Frame): Outcome {
    if f.header.opcode.DataOp? then Quiet else Deliver(ControlMessage(f))
  }

  /** The message is delivered at its last fragment. */
  function Expected(fs: seq<Frame>, message: Message): seq<Outcome> {
    if fs == [] then []
    else
      [if fs[0].header.opcode.DataOp? && fs[0].header.isFinal then Deliver(message) else Meanwhile(fs[0])]
      + Expected(fs[1..], message)
  }

  /** The first failure is a fragment's, and everything before it was as expected. */
  predicate RefusedAt(fs: seq<Frame>, outcomes: seq<Outcome>, i: nat) {
    && i < |fs| == |outcomes|
    && outcomes[i].Fail? && fs[i].header.opcode.DataOp?
    && forall j :: 0 <= j < i ==> outcomes[j] == Meanwhile(fs[j])
  }

  ghost predicate IsRefused(fs: seq<Frame>, outcomes: seq<Outcome>) {
    exists i: nat :: RefusedAt(fs, outcomes, i)
  }

  // ----- The message so far -----

  /** The content of the wire bytes, and the decoder after them. */
  function Content(r: ReadState, m: Sent, wire: bytes): Fed {
    if m.compressed && r.decoder.Some? then Feed(r.decoder.value, wire)
    else Fed(wire, r.decoder)
  }

  /** Nothing in the bytes so far is an error. */
  predicate GoodSoFar(cfg: ReadConfig, r: ReadState, m: Sent, wire: bytes) {
    var c := Content(r, m, wire);
    && (m.compressed ==> c.next.Some?)
    && |c.out| <= Limit(cfg.maxMessageSize)
    && (m.data.Text? ==> Viable(c.out))
  }

  /** All bytes of the message that reach the decoder: the removed trailer comes back at the end. */
  function AllWire(m: Sent, wire: bytes): bytes {
    if m.compressed then wire + TRAILER else wire
  }

  predicate IsAccepted(cfg: ReadConfig, r: ReadState, m: Sent, wire: bytes) {
    && GoodSoFar(cfg, r, m, AllWire(m, wire))
    && (m.data.Text? ==> FromUtf8(Content(r, m, AllWire(m, wire)).out).Valid?)
  }

  ghost predicate Starts(cfg: ReadConfig, r: ReadState, m: Sent) {
    && Sound(cfg, r) && r.state.CanRead() && r.incomplete.None?
    && (m.data.Text? || m.data.Binary?)
    && (m.compressed ==> r.decoder.Some?)
    && Limit(cfg.maxMessageSize) <= USIZE_MAX
  }

  /** The state after the fragments that carried `wire`. */
  function Opened(r: ReadState, m: Sent, wire: bytes): ReadState
    requires m.data.Text? || m.data.Binary?
  {
    var c := Content(r, m, wire);
    r.(incomplete := Some(Partial(KindOf(m.data), c.out)),
       compressedIncomplete := m.compressed,
       decoder := c.next)
  }

  lemma ContentAppend(r: ReadState, m: Sent, a: bytes, b: bytes)
    requires m.compressed ==> r.decoder.Some?
    ensures m.compressed && Content(r, m, a).next.Some? ==>
              var rest := Feed(Content(r, m, a).next.value, b);
              Content(r, m, a + b) == Fed(Content(r, m, a).out + rest.out, rest.next)
    ensures m.compressed && Content(r, m, a).next.None? ==> Content(r, m, a + b) == Content(r, m, a)
    ensures !m.compressed ==> Content(r, m, a + b) == Fed(Content(r, m, a).out + b, r.decoder)
  {
    if m.compressed { FeedAppend(r.decoder.value, a, b); }
  }

  lemma GoodPrefix(cfg: ReadConfig, r: ReadState, m: Sent, a: bytes, b: bytes)
    requires m.compressed ==> r.decoder.Some?
    requires GoodSoFar(cfg, r, m, a + b)
    ensures GoodSoFar(cfg, r, m, a)
  {
    ContentAppend(r, m, a, b);
    var rest := if m.compressed then Feed(Content(r, m, a).next.value, b).out else b;
    if m.data.Text? { ViablePrefix(Content(r, m, a).out, rest); }
  }

  /** The state after the last fragment; only a continuation clears the saved mode. */
  function Finished(cfg: ReadConfig, r: ReadState, m: Sent, wire: bytes, only: bool): ReadState
    requires m.compressed ==> r.decoder.Some?
  {
    r.(compressedIncomplete := only && r.compressedIncomplete,
       decoder := if m.compressed && cfg.resetDecoder then Some(Inflater(r.decoder.value.size, [], []))
                  else Content(r, m, AllWire(m, wire)).next)
  }

  lemma {:induction false} FeedKeepsSize(d: Inflater, input: bytes)
    requires Feed(d, input).next.Some?
    ensures Feed(d, input).next.value.size == d.size
    decreases |input|
  {
    if input != [] { FeedKeepsSize(FeedByte(d, input[0]).next.value, input[1..]); }
  }

  // ----- One fragment -----

  /** Extending the open message by what a fragment contributes. */
  lemma ExtendIsGood(kind: MessageType, held: bytes, more: bytes, maxSize: Option<nat>)
    requires |held| <= Limit(maxSize)
    ensures var (e, p) := ExtendPartial(Partial(kind, held), more, maxSize);
            if |held + more| <= Limit(maxSize) && (kind.TextType? ==> Viable(held + more)) then
              e.None? && p == Partial(kind, held + more)
            else e.Some?
  {
  }

  lemma FirstFragment(cfg: ReadConfig, r: ReadState, m: Sent, piece: bytes)
    requires Starts(cfg, r, m)
    ensures var got := Receive(cfg, r, Fragment(m, piece, true, false));
            if GoodSoFar(cfg, r, m, piece) then got == Received(Opened(r, m, piece), Quiet, None)
            else got.outcome.Fail?
  {
    var out := Content(r, m, piece).out;
    assert [] + out == out;
    ExtendIsGood(KindOf(m.data), [], out, cfg.maxMessageSize);
  }

  lemma MiddleFragment(cfg: ReadConfig, r: ReadState, m: Sent, wire: bytes, piece: bytes)
    requires Starts(cfg, r, m) && GoodSoFar(cfg, r, m, wire)
    ensures var got := Receive(cfg, Opened(r, m, wire), Fragment(m, piece, false, false));
            if GoodSoFar(cfg, r, m, wire + piece) then got == Received(Opened(r, m, wire + piece), Quiet, None)
            else got.outcome.Fail?
  {
    ContentAppend(r, m, wire, piece);
    var c := Content(r, m, wire);
    var more := if m.compressed then Feed(c.next.value, piece).out else piece;
    ExtendIsGood(KindOf(m.data), c.out, more, cfg.maxMessageSize);
  }

  lemma LastFragment(cfg: ReadConfig, r: ReadState, m: Sent, wire: bytes, piece: bytes)
    requires Starts(cfg, r, m) && GoodSoFar(cfg, r, m, wire)
    ensures var got := Receive(cfg, Opened(r, m, wire), Fragment(m, piece, false, true));
            if IsAccepted(cfg, r, m, wire + piece) then
              got == Received(Finished(cfg, r, m, wire + piece, false),
                              Deliver(DataMessage(m.data, Content(r, m, AllWire(m, wire + piece)).out)), None)
            else got.outcome.Fail?
  {
    var tail := if m.compressed then piece + TRAILER else piece;
    assert AllWire(m, wire + piece) == wire + tail;
    ContentAppend(r, m, wire, tail);
    var c := Content(r, m, wire);
    if m.compressed { FeedKeepsSize(r.decoder.value, wire); }
    var more := if m.compressed then Feed(c.next.value, tail).out else tail;
    ExtendIsGood(KindOf(m.data), c.out, more, cfg.maxMessageSize);
  }

  lemma WholeMessage(cfg: ReadConfig, r: ReadState, m: Sent, wire: bytes)
    requires Starts(cfg, r, m) && |Content(r, m, AllWire(m, wire)).out| <= USIZE_MAX
    ensures var got := Receive(cfg, r, Fragment(m, wire, true, true));
            if IsAccepted(cfg, r, m, wire) then
              got == Received(Finished(cfg, r, m, wire, true),
                              Deliver(DataMessage(m.data, Content(r, m, AllWire(m, wire)).out)), None)
            else got.outcome.Fail?
  {
  }

  lemma ControlPasses(cfg: ReadConfig, r: ReadState, f: Frame)
    requires r.state.CanRead() && IsPingOrPong(f)
    ensures Receive(cfg, r, f).next == r
    ensures Receive(cfg, r, f).outcome == Deliver(ControlMessage(f))
  {
  }

  // ----- Any cut, any interleaving -----

  /** Controls behind the message. */
  lemma {:induction false} ControlsOnly(cfg: ReadConfig, r: ReadState, fs: seq<Frame>, message: Message)
    requires r.state.CanRead() && DataFrames(fs) == []
    requires forall f :: f in fs && !f.header.opcode.DataOp? ==> IsPingOrPong(f)
    ensures Run(cfg, r, fs) == (r, Expected(fs, message))
    decreases |fs|
  {
    if fs != [] {
      assert fs[0] in fs;
      ControlPasses(cfg, r, fs[0]);
      ControlsOnly(cfg, r, fs[1..], message);
    }
  }

  lemma RefusalStays(fs: seq<Frame>, outcomes: seq<Outcome>)
    requires fs != [] && |fs| == |outcomes|
    requires
      || (outcomes[0].Fail? && fs[0].header.opcode.DataOp?)
      || (outcomes[0] == Meanwhile(fs[0]) && IsRefused(fs[1..], outcomes[1..]))
    ensures IsRefused(fs, outcomes)
  {
    if outcomes[0].Fail? && fs[0].header.opcode.DataOp? {
      assert RefusedAt(fs, outcomes, 0);
    } else {
      var i: nat :| RefusedAt(fs[1..], outcomes[1..], i);
      assert RefusedAt(fs, outcomes, i + 1);
    }
  }

  /** The state in which the fragments after `wire` find the connection. */
  function Before(r: ReadState, m: Sent, wire: bytes, first: bool): ReadState
    requires m.data.Text? || m.data.Binary?
  {
    if first then r else Opened(r, m, wire)
  }

  /** A fragmented run begins with a control frame or with its first fragment. */
  lemma RunBegins(fs: seq<Frame>, m: Sent, pieces: seq<bytes>, first: bool)
    requires pieces != [] && IsFragmented(fs, m, pieces, first)
    ensures fs != []
    ensures !fs[0].header.opcode.DataOp? ==> IsPingOrPong(fs[0]) && IsFragmented(fs[1..], m, pieces, first)
    ensures fs[0].header.opcode.DataOp? ==> fs[0] == Fragment(m, pieces[0], first, |pieces| == 1)
    ensures fs[0].header.opcode.DataOp? && |pieces| > 1 ==> IsFragmented(fs[1..], m, pieces[1..], false)
    ensures fs[0].header.opcode.DataOp? && |pieces| == 1 ==> DataFrames(fs[1..]) == []
    ensures forall f :: f in fs[1..] && !f.header.opcode.DataOp? ==> IsPingOrPong(f)
  {
    assert fs[0] in fs;
    assert forall g :: g in fs[1..] ==> g in fs;
    if fs[0].header.opcode.DataOp? {
      assert DataFrames(fs)[0] == fs[0] && DataFrames(fs)[1..] == DataFrames(fs[1..]);
    } else {
      assert DataFrames(fs) == DataFrames(fs[1..]);
    }
  }

  lemma RunLast(cfg: ReadConfig, r: ReadState, m: Sent, wire: bytes, first: bool, piece: bytes, fs: seq<Frame>)
    requires Starts(cfg, r, m)
    requires if first then wire == [] else GoodSoFar(cfg, r, m, wire)
    requires fs != [] && fs[0] == Fragment(m, piece, first, true) && DataFrames(fs[1..]) == []
    requires forall f :: f in fs[1..] && !f.header.opcode.DataOp? ==> IsPingOrPong(f)
    requires |Content(r, m, AllWire(m, wire + piece)).out| <= USIZE_MAX
    ensures var all := wire + piece;
            var (last, outcomes) := Run(cfg, Before(r, m, wire, first), fs);
            if IsAccepted(cfg, r, m, all) then
              && last == Finished(cfg, r, m, all, first)
              && outcomes == Expected(fs, DataMessage(m.data, Content(r, m, AllWire(m, all)).out))
            else IsRefused(fs, outcomes)
  {
    if first {
      assert [] + piece == piece;
      WholeMessage(cfg, r, m, piece);
    } else {
      LastFragment(cfg, r, m, wire, piece);
    }
    var got := Receive(cfg, Before(r, m, wire, first), fs[0]);
    if IsAccepted(cfg, r, m, wire + piece) {
      ControlsOnly(cfg, got.next, fs[1..], DataMessage(m.data, Content(r, m, AllWire(m, wire + piece)).out));
    } else {
      RefusalStays(fs, [got.outcome] + Run(cfg, got.next, fs[1..]).1);
    }
  }

  lemma RunStep(cfg: ReadConfig, r: ReadState, m: Sent, wire: bytes, first: bool, piece: bytes)
    requires Starts(cfg, r, m)
    requires if first then wire == [] else GoodSoFar(cfg, r, m, wire)
    ensures var got := Receive(cfg, Before(r, m, wire, first), Fragment(m, piece, first, false));
            if GoodSoFar(cfg, r, m, wire + piece) then got == Received(Opened(r, m, wire + piece), Quiet, None)
            else got.outcome.Fail?
  {
    if first {
      assert [] + piece == piece;
      FirstFragment(cfg, r, m, piece);
    } else {
      MiddleFragment(cfg, r, m, wire, piece);
    }
  }

  lemma {:induction false} RunFragments(cfg: ReadConfig, r: ReadState, m: Sent, wire: bytes, first: bool,
                                        pieces: seq<bytes>, fs: seq<Frame>)
    requires Starts(cfg, r, m) && pieces != [] && IsFragmented(fs, m, pieces, first)
    requires if first then wire == [] else GoodSoFar(cfg, r, m, wire)
    requires |Content(r, m, AllWire(m, wire + Concat(pieces))).out| <= USIZE_MAX
    ensures var all := wire + Concat(pieces);
            var (last, outcomes) := Run(cfg, Before(r, m, wire, first), fs);
            if IsAccepted(cfg, r, m, all) then
              && last == Finished(cfg, r, m, all, first && |pieces| == 1)
              && outcomes == Expected(fs, DataMessage(m.data, Content(r, m, AllWire(m, all)).out))
            else IsRefused(fs, outcomes)
    decreases |fs|
  {
    var all := wire + Concat(pieces);
    var accepted := IsAccepted(cfg, r, m, all);
    var before := Before(r, m, wire, first);
    RunBegins(fs, m, pieces, first);
    var got, rest := Receive(cfg, before, fs[0]), fs[1..];
    if !fs[0].header.opcode.DataOp? {
      ControlPasses(cfg, before, fs[0]);
      RunFragments(cfg, r, m, wire, first, pieces, rest);
      if !accepted { RefusalStays(fs, [got.outcome] + Run(cfg, before, rest).1); }
    } else if |pieces| == 1 {
      assert Concat(pieces) == pieces[0] + [] == pieces[0];
      RunLast(cfg, r, m, wire, first, pieces[0], fs);
    } else {
      var next := wire + pieces[0];
      RunStep(cfg, r, m, wire, first, pieces[0]);
      Assoc(wire, pieces[0], Concat(pieces[1..]));
      if GoodSoFar(cfg, r, m, next) {
        RunFragments(cfg, r, m, next, false, pieces[1..], rest);
        if !accepted { RefusalStays(fs, [got.outcome] + Run(cfg, got.next, rest).1); }
      } else {
        if accepted { AcceptedIsGood(cfg, r, m, next, Concat(pieces[1..])); }
        RefusalStays(fs, [got.outcome] + Run(cfg, got.next, rest).1);
      }
    }
  }

  lemma AcceptedIsGood(cfg: ReadConfig, r: ReadState, m: Sent, a: bytes, b: bytes)
    requires (m.compressed ==> r.decoder.Some?) && IsAccepted(cfg, r, m, a + b)
    ensures GoodSoFar(cfg, r, m, a)
  {
    var tail := if m.compressed then b + TRAILER else b;
    assert AllWire(m, a + b) == a + tail;
    GoodPrefix(cfg, r, m, a, tail);
  }

  /**
   * The theorem. For every message, plain or compressed, every way of cutting its wire bytes
   * into frames and every interleaving of pings and pongs: the fragments deliver the message the
   * single frame delivers, with every control frame delivered where it stands and the connection
   * left in the same state, or else both are refused, the fragments with nothing of the message
   * delivered before the first failure. A mode left behind by an earlier message makes no difference;
   * a message in more than one frame clears it.
   */
  lemma FragmentationIsTransparent(cfg: ReadConfig, r: ReadState, m: Sent, pieces: seq<bytes>, fs: seq<Frame>)
    requires Starts(cfg, r, m)
    requires pieces != [] && IsFragmented(fs, m, pieces, true)
    requires |Content(r, m, AllWire(m, Concat(pieces))).out| <= USIZE_MAX
    ensures var single := Receive(cfg, r, Fragment(m, Concat(pieces), true, true));
            var (last, outcomes) := Run(cfg, r, fs);
            && !single.outcome.Quiet?
            && (single.outcome.Deliver? ==>
                  && outcomes == Expected(fs, single.outcome.message)
                  && last == single.next.(compressedIncomplete := |pieces| == 1 && r.compressedIncomplete))
            && (single.outcome.Fail? ==> IsRefused(fs, outcomes))
  {
    var wire := Concat(pieces);
    assert [] + wire == wire;
    WholeMessage(cfg, r, m, wire);
    RunFragments(cfg, r, m, [], true, pieces, fs);
  }
}
