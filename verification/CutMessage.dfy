/**
 * Reading on after a refused fragment: the open message is kept when `extend` fails, so a reader
 * that goes on may be handed a message with a piece missing. This says exactly when.
 */
module CutMessages {
  import opened Bytes
  import opened Utf8
  import opened Frames
  import opened Assembly
  import opened Lz
  import opened Codec
  import opened Receiving
  import opened Fragmentation

  predicate IsDataDelivery(o: Outcome) {
    o.Deliver? && (o.message.TextMessage? || o.message.BinaryMessage?)
  }

  /** Frames that begin no message. */
  predicate Continues(fs: seq<Frame>) {
    forall f :: f in fs && f.header.opcode.DataOp? ==> f.header.opcode.data.Continue?
  }

  ghost predicate HandsOn(cfg: ReadConfig, r: ReadState, fs: seq<Frame>) {
    exists o :: o in Run(cfg, r, fs).1 && IsDataDelivery(o)
  }

  /** A message already open may still be delivered. */
  ghost predicate CanBeHandedOn(cfg: ReadConfig, r: ReadState) {
    exists fs :: Continues(fs) && HandsOn(cfg, r, fs)
  }

  /** The held bytes can be delivered, or one more byte fits to spoil the pending character. */
  predicate HasRoom(p: Partial, maxSize: Option<nat>) {
    p.kind.BinaryType? || FromUtf8(p.held).Valid? || |p.held| < Limit(maxSize)
  }

  /** A frame that takes its turn in a message, before its payload is looked at. */
  predicate TakesTurn(cfg: ReadConfig, r: ReadState, f: Frame) {
    && r.state.CanRead() && !ReservedBitsSet(r, f.header) && !(cfg.role.Client? && f.IsMasked())
    && f.header.opcode.DataOp? && !f.header.opcode.data.ReservedData? && OwnsStream(r, f.header.opcode.data)
  }

  /** The branch that fails: a continuation is refused by `extend`, and what is held goes on being held. */
  predicate KeepsTheRest(cfg: ReadConfig, r: ReadState, f: Frame) {
    && r.incomplete.Some? && RefusedByExtend(cfg, r, f)
    && (|| |r.incomplete.value.held| + |DecodedPayload(cfg, r, Continue, f).1.value| <= Limit(cfg.maxMessageSize)
        || HasRoom(r.incomplete.value, cfg.maxMessageSize))
  }

  // ----- When nothing can be handed on -----

  predicate NothingOpen(r: ReadState) { r.incomplete.None? || !r.state.CanRead() }

  /** A pending character that nothing can complete or replace. */
  predicate Stuck(cfg: ReadConfig, r: ReadState) {
    r.incomplete.Some? && !HasRoom(r.incomplete.value, cfg.maxMessageSize)
  }

  lemma NothingOpenStays(cfg: ReadConfig, r: ReadState, f: Frame)
    requires NothingOpen(r) && Continues([f])
    ensures NothingOpen(Receive(cfg, r, f).next) && !IsDataDelivery(Receive(cfg, r, f).outcome)
  {
    hide DecompressSpec, IntoClose, Sanitized;
    assert f in [f];
  }

  lemma StuckStays(cfg: ReadConfig, r: ReadState, f: Frame)
    requires Sound(cfg, r) && Stuck(cfg, r) && Continues([f])
    ensures var s := Receive(cfg, r, f);
            (NothingOpen(s.next) || Stuck(cfg, s.next)) && !IsDataDelivery(s.outcome)
  {
    hide DecompressSpec, IntoClose, Sanitized, FromUtf8, HeldSize;
    assert f in [f];
    var p := r.incomplete.value;
    assert p.held + [] == p.held;
  }

  lemma {:induction false} NothingIsHandedOn(cfg: ReadConfig, r: ReadState, fs: seq<Frame>)
    requires Sound(cfg, r) && Continues(fs) && (NothingOpen(r) || Stuck(cfg, r))
    ensures !HandsOn(cfg, r, fs)
    decreases |fs|
  {
    if fs != [] {
      assert fs[0] in fs && forall f :: f in fs[1..] ==> f in fs;
      assert Continues([fs[0]]);
      if NothingOpen(r) { NothingOpenStays(cfg, r, fs[0]); } else { StuckStays(cfg, r, fs[0]); }
      ReceiveKeeps(cfg, r, fs[0]);
      hide Receive, Stuck, NothingOpen, Sound;
      NothingIsHandedOn(cfg, Receive(cfg, r, fs[0]).next, fs[1..]);
    }
  }

  // ----- When something can -----

  /** A continuation of the open message, by what it adds to it. */
  function Adding(t: bytes, compressed: bool, isFinal: bool): Frame {
    Frame(FrameHeader(isFinal, false, false, false, DataOp(Continue), None),
          if !compressed then t else if isFinal then [0] else Serialize(Literals(t)))
  }

  /** No element is cut short where the next frame begins. */
  predicate BetweenElements(r: ReadState) {
    r.compressedIncomplete ==> r.decoder.Some? && r.decoder.value.pend == []
  }

  predicate IsOpen(r: ReadState) { r.incomplete.Some? && r.state.CanRead() }

  lemma EndIsDelivered(cfg: ReadConfig, r: ReadState)
    requires Sound(cfg, r) && IsOpen(r) && BetweenElements(r) && Limit(cfg.maxMessageSize) <= USIZE_MAX
    requires r.incomplete.value.kind.BinaryType? || FromUtf8(r.incomplete.value.held).Valid?
    ensures IsDataDelivery(Receive(cfg, r, Adding([], r.compressedIncomplete, true)).outcome)
  {
    hide Feed, FromUtf8, Serialize, Literals;
    var held := r.incomplete.value.held;
    assert held + [] == held;
    if r.compressedIncomplete {
      EndIsFed(r.decoder.value);
    }
  }

  lemma EndIsFed(d: Inflater)
    requires d.pend == []
    ensures Feed(d, [0] + TRAILER) == Fed([], Some(d))
  {
    FeedMark(d);
    hide Feed;
    assert [0] + TRAILER == MARK;
  }

  lemma LiteralIsFed(d: Inflater)
    requires d.pend == []
    ensures var b: byte := 0xff;
            && Serialize(Literals([b])) == [1, b]
            && Feed(d, [1, b]) == Fed([b], Some(Inflater(d.size, Slide(d.hist, [b], d.size), [])))
  {
    var b: byte := 0xff;
    assert Literals([b]) == [Lit(b)] + Literals([]) == [Lit(b)];
    assert Serialize([Lit(b)]) == TokenBytes(Lit(b)) + Serialize([]) == [1, b];
    FeedToken(d, Lit(b));
  }

  /** 0xFF belongs to no character, so it ends a pending one. */
  lemma JunkSpoils(held: bytes)
    requires Viable(held)
    ensures !Viable(held + [0xff])
  {
    var junk: bytes := [0xff];
    assert FromUtf8(junk) == Invalid(0, Some(1));
    if FromUtf8(held).Valid? {
      CheckAfterValid(held, junk);
    } else {
      var v := ValidUpTo(held);
      PendingRest(held);
      JunkInCharacter(held[v..]);
      PrefixIsValid(held);
      hide FromUtf8, Scan;
      CheckAfterValid(held[..v], held[v..] + junk);
      Assoc(held[..v], held[v..], junk);
      assert held[..v] + held[v..] == held;
    }
  }

  lemma JunkInCharacter(s: bytes)
    requires s != [] && Scan(s).NeedMore?
    ensures FromUtf8(s + [0xff]).Invalid? && FromUtf8(s + [0xff]).errorLen.Some?
  {
    hide FromUtf8;
    assert Scan(s + [0xff]).Bad?;
    StopsAtBad(s + [0xff]);
  }

  lemma StopsAtBad(s: bytes)
    requires s != [] && Scan(s).Bad?
    ensures FromUtf8(s).Invalid? && FromUtf8(s).errorLen.Some?
  {
  }

  lemma JunkDropsThePending(cfg: ReadConfig, r: ReadState)
    requires Sound(cfg, r) && IsOpen(r) && BetweenElements(r) && Limit(cfg.maxMessageSize) <= USIZE_MAX
    requires r.incomplete.value.kind.TextType? && |r.incomplete.value.held| < Limit(cfg.maxMessageSize)
    ensures var n := Receive(cfg, r, Adding([0xff], r.compressedIncomplete, false)).next;
            && IsOpen(n) && BetweenElements(n) && n.compressedIncomplete == r.compressedIncomplete
            && FromUtf8(n.incomplete.value.held).Valid?
  {
    var held := r.incomplete.value.held;
    JunkSpoils(held);
    PrefixIsValid(held + [0xff]);
    if r.compressedIncomplete { LiteralIsFed(r.decoder.value); }
    hide Viable, FromUtf8, Serialize, Literals, Feed, ValidUpTo;
  }

  lemma SomethingIsHandedOn(cfg: ReadConfig, r: ReadState)
    requires Sound(cfg, r) && IsOpen(r) && BetweenElements(r) && Limit(cfg.maxMessageSize) <= USIZE_MAX
    requires HasRoom(r.incomplete.value, cfg.maxMessageSize)
    ensures CanBeHandedOn(cfg, r)
  {
    var c := r.compressedIncomplete;
    var junk, end := Adding([0xff], c, false), Adding([], c, true);
    hide Receive, Sound;
    if r.incomplete.value.kind.BinaryType? || FromUtf8(r.incomplete.value.held).Valid? {
      EndIsDelivered(cfg, r);
      assert Run(cfg, r, [end]).1 == [Receive(cfg, r, end).outcome] + [];
      assert Receive(cfg, r, end).outcome in Run(cfg, r, [end]).1;
      assert HandsOn(cfg, r, [end]) && Continues([end]);
    } else {
      JunkDropsThePending(cfg, r);
      ReceiveKeeps(cfg, r, junk);
      var n := Receive(cfg, r, junk).next;
      EndIsDelivered(cfg, n);
      assert [junk, end][1..] == [end];
      assert Run(cfg, n, [end]).1 == [Receive(cfg, n, end).outcome];
      assert Run(cfg, r, [junk, end]).1 == [Receive(cfg, r, junk).outcome, Receive(cfg, n, end).outcome];
      assert Receive(cfg, n, end).outcome in Run(cfg, r, [junk, end]).1;
      assert HandsOn(cfg, r, [junk, end]) && Continues([junk, end]);
    }
  }

  // ----- Inside a compressed element -----

  /** These bytes end the element that was cut short, and no more. */
  predicate Finishes(d: Inflater, s: bytes) {
    && s != [] && (forall j :: 1 <= j < |s| ==> Lex(d.pend + s[..j]).Pending?)
    && Feed(d, s).next.Some? && Feed(d, s).next.value.pend == []
  }

  /** What is held when an open message gets one more piece, refused or not. */
  function With(p: Partial, piece: bytes, maxSize: Option<nat>): Partial {
    ExtendPartial(p, piece, maxSize).1
  }

  /** Some end of the element is within the budget and leaves something to deliver. */
  ghost predicate CanFinish(cfg: ReadConfig, r: ReadState)
    requires r.incomplete.Some? && r.decoder.Some?
  {
    exists s: bytes :: Finishes(r.decoder.value, s) && FinishFits(cfg, r, Feed(r.decoder.value, s).out)
  }

  predicate FinishFits(cfg: ReadConfig, r: ReadState, piece: bytes)
    requires r.incomplete.Some?
  {
    && |r.incomplete.value.held| + |piece| <= Limit(cfg.maxMessageSize)
    && HasRoom(With(r.incomplete.value, piece, cfg.maxMessageSize), cfg.maxMessageSize)
  }

  /** A message in the middle of an element that no end of it saves. */
  ghost predicate Blocked(cfg: ReadConfig, r: ReadState) {
    && IsOpen(r) && r.compressedIncomplete && r.decoder.Some? && r.decoder.value.pend != []
    && !CanFinish(cfg, r)
  }

  lemma ShortIsPending(s: bytes)
    requires s != [] && Lex(s).Pending?
    ensures |s| <= 4
  {
  }

  lemma {:induction false} FeedAllOpen(d: Inflater, s: bytes)
    requires forall j :: 1 <= j <= |s| ==> Lex(d.pend + s[..j]).Pending?
    ensures Feed(d, s) == Fed([], Some(d.(pend := d.pend + s)))
    decreases |s|
  {
    if s == [] {
      assert d.pend + s == d.pend;
      hide Lex;
    } else {
      hide Lex, Feed, FeedByte;
      OpenBehind(d.pend, s);
      FeedAllOpen(d.(pend := d.pend + [s[0]]), s[1..]);
      FeedOpenFirst(d, s[0], s[1..]);
      Rejoin(d.pend, s, []);
      Uncons(s);
    }
  }

  lemma Uncons(s: bytes)
    requires s != []
    ensures [s[0]] + s[1..] == s
  {
  }

  /** How far the bytes leave the element open. */
  lemma OpenPart(d: Inflater, s: bytes) returns (k: nat)
    ensures k <= |s| && forall j :: 1 <= j <= k ==> Lex(d.pend + s[..j]).Pending?
    ensures k < |s| ==> !Lex(d.pend + s[..k + 1]).Pending?
  {
    hide Lex;
    k := 0;
    while k < |s| && Lex(d.pend + s[..k + 1]).Pending?
      invariant k <= |s| && forall j :: 1 <= j <= k ==> Lex(d.pend + s[..j]).Pending?
    {
      k := k + 1;
    }
  }

  /** Fed bytes leave the element open, or end it, or break it. */
  lemma FedThrough(d: Inflater, s: bytes) returns (k: nat)
    ensures k <= |s|
    ensures k == |s| ==>
      && Feed(d, s) == Fed([], Some(d.(pend := d.pend + s)))
      && forall j :: 1 <= j <= |s| ==> Lex(d.pend + s[..j]).Pending?
    ensures k < |s| && Feed(d, s).next.Some? ==>
      Finishes(d, s[..k + 1]) && Feed(d, s[..k + 1]).out <= Feed(d, s).out
  {
    k := OpenPart(d, s);
    if k == |s| {
      FeedAllOpen(d, s);
    } else {
      hide Lex;
      CutAt(s, k);
      FirstElementEnds(d, s[..k], s[k]);
      FeedAppend(d, s[..k + 1], s[k + 1..]);
      hide Feed;
    }
  }

  lemma CutAt(s: bytes, k: nat)
    requires k < |s|
    ensures s[..k + 1] == s[..k] + [s[k]] && s == s[..k + 1] + s[k + 1..]
    ensures forall j :: 1 <= j <= k ==> s[..k][..j] == s[..j]
  {
  }

  lemma FirstElementEnds(d: Inflater, s: bytes, b: byte)
    requires forall j :: 1 <= j <= |s| ==> Lex(d.pend + s[..j]).Pending?
    requires !Lex(d.pend + (s + [b])).Pending?
    ensures Feed(d, s + [b]).next.Some? ==> Finishes(d, s + [b])
  {
    FeedElement(d, s, b);
    assert d.pend + s + [b] == d.pend + (s + [b]);
    assert forall j :: 1 <= j <= |s| ==> (s + [b])[..j] == s[..j];
    hide Feed;
  }

  lemma FinishLater(cfg: ReadConfig, r: ReadState, r': ReadState, s: bytes)
    requires r.incomplete.Some? && r.decoder.Some? && r'.decoder.Some? && r'.incomplete == r.incomplete
    requires r'.decoder.value == r.decoder.value.(pend := r.decoder.value.pend + s)
    requires forall j :: 1 <= j <= |s| ==> Lex(r.decoder.value.pend + s[..j]).Pending?
    ensures CanFinish(cfg, r') ==> CanFinish(cfg, r)
  {
    if CanFinish(cfg, r') {
      var d, d' := r.decoder.value, r'.decoder.value;
      var t: bytes :| Finishes(d', t) && FinishFits(cfg, r', Feed(d', t).out);
      FinishesThrough(d, s, t);
      hide Finishes, FinishFits, Feed, Lex;
      assert Finishes(d, s + t);
    }
  }

  lemma FinishesThrough(d: Inflater, s: bytes, t: bytes)
    requires forall j :: 1 <= j <= |s| ==> Lex(d.pend + s[..j]).Pending?
    requires Finishes(d.(pend := d.pend + s), t)
    ensures Finishes(d, s + t) && Feed(d, s + t).out == Feed(d.(pend := d.pend + s), t).out
  {
    FeedAllOpen(d, s);
    FeedAppend(d, s, t);
    hide Lex, Feed;
    var d' := d.(pend := d.pend + s);
    assert [] + Feed(d', t).out == Feed(d', t).out;
    forall j | 1 <= j < |s + t| ensures Lex(d.pend + (s + t)[..j]).Pending? {
      if j <= |s| { TakeWithin(s, t, j); } else { OpenBehindBoth(d.pend, s, t, j); }
    }
  }

  lemma OpenBehindBoth(pend: bytes, s: bytes, t: bytes, j: nat)
    requires |s| < j < |s| + |t| && Lex(pend + s + t[..j - |s|]).Pending?
    ensures Lex(pend + (s + t)[..j]).Pending?
  {
    hide Lex;
    TakeBehind(s, t, j);
    Assoc(pend, s, t[..j - |s|]);
  }

  /** What a frame brings to the decoder. */
  function FedBy(f: Frame): bytes {
    if f.header.isFinal then f.payload + TRAILER else f.payload
  }

  lemma BlockedByAssembly(cfg: ReadConfig, r: ReadState, f: Frame)
    requires Sound(cfg, r) && Blocked(cfg, r) && Limit(cfg.maxMessageSize) < USIZE_MAX
    requires f.header.opcode == DataOp(Continue)
    requires !ReservedBitsSet(r, f.header) && !(cfg.role.Client? && f.IsMasked())
    ensures var s := Receive(cfg, r, f);
            (NothingOpen(s.next) || Stuck(cfg, s.next) || Blocked(cfg, s.next)) && !IsDataDelivery(s.outcome)
  {
    var d, p, fed := r.decoder.value, r.incomplete.value, FedBy(f);
    var k := FedThrough(d, fed);
    var g := Feed(d, fed);
    assert p.held + [] == p.held;
    if k == |fed| {
      if f.header.isFinal {
        assert fed[..|fed|] == fed;
        ShortIsPending(d.pend + fed);
      } else {
        var n := Receive(cfg, r, f).next;
        assert n.decoder == Some(d.(pend := d.pend + fed)) && n.incomplete == r.incomplete by {
          hide Feed, FromUtf8, Lex;
        }
        FinishLater(cfg, r, n, fed);
      }
    } else if g.next.Some? {
      var piece := Feed(d, fed[..k + 1]).out;
      assert !FinishFits(cfg, r, piece);
      PieceDoesNotFit(cfg, r, f, piece);
    } else {
      hide Feed, FromUtf8, Lex;
    }
  }

  lemma PieceDoesNotFit(cfg: ReadConfig, r: ReadState, f: Frame, piece: bytes)
    requires Sound(cfg, r) && IsOpen(r) && r.compressedIncomplete && r.decoder.Some?
    requires f.header.opcode == DataOp(Continue) && Limit(cfg.maxMessageSize) < USIZE_MAX
    requires !ReservedBitsSet(r, f.header) && !(cfg.role.Client? && f.IsMasked())
    requires Feed(r.decoder.value, FedBy(f)).next.Some? && piece <= Feed(r.decoder.value, FedBy(f)).out
    requires !FinishFits(cfg, r, piece)
    ensures var s := Receive(cfg, r, f);
            (NothingOpen(s.next) || Stuck(cfg, s.next)) && !IsDataDelivery(s.outcome)
  {
    var p, out := r.incomplete.value, Feed(r.decoder.value, FedBy(f)).out;
    if |p.held| + |piece| <= Limit(cfg.maxMessageSize) {
      PrefixIsValid(p.held + piece);
      assert |out| > |piece| || out == piece;
    }
    hide Feed, FromUtf8, Lex;
  }

  lemma BlockedStays(cfg: ReadConfig, r: ReadState, f: Frame)
    requires Sound(cfg, r) && Blocked(cfg, r) && Limit(cfg.maxMessageSize) < USIZE_MAX && Continues([f])
    ensures var s := Receive(cfg, r, f);
            (NothingOpen(s.next) || Stuck(cfg, s.next) || Blocked(cfg, s.next)) && !IsDataDelivery(s.outcome)
  {
    assert f in [f];
    if f.header.opcode.DataOp? && !ReservedBitsSet(r, f.header) && !(cfg.role.Client? && f.IsMasked()) {
      BlockedByAssembly(cfg, r, f);
    } else if f.header.opcode.ControlOp? {
      ControlKeepsDecoder(cfg, r, f);
    }
    hide Feed, FromUtf8, Lex, IntoClose, Sanitized;
  }

  lemma ControlKeepsDecoder(cfg: ReadConfig, r: ReadState, f: Frame)
    requires f.header.opcode.ControlOp?
    ensures var s := Receive(cfg, r, f);
            && (s.next == r || s.next == r.(state := s.next.state) || !s.next.state.CanRead())
            && !IsDataDelivery(s.outcome)
  {
    hide IntoClose, Sanitized;
  }

  lemma {:induction false} NothingFinishes(cfg: ReadConfig, r: ReadState, fs: seq<Frame>)
    requires Sound(cfg, r) && Continues(fs) && Limit(cfg.maxMessageSize) < USIZE_MAX
    requires Blocked(cfg, r)
    ensures !HandsOn(cfg, r, fs)
    decreases |fs|
  {
    if fs != [] {
      assert fs[0] in fs && forall f :: f in fs[1..] ==> f in fs;
      assert Continues([fs[0]]);
      BlockedStays(cfg, r, fs[0]);
      ReceiveKeeps(cfg, r, fs[0]);
      hide Receive, Stuck, NothingOpen, Sound, Blocked;
      var n := Receive(cfg, r, fs[0]).next;
      if Blocked(cfg, n) { NothingFinishes(cfg, n, fs[1..]); } else { NothingIsHandedOn(cfg, n, fs[1..]); }
    }
  }

  lemma FinishHandsOn(cfg: ReadConfig, r: ReadState)
    requires Sound(cfg, r) && IsOpen(r) && r.compressedIncomplete && Limit(cfg.maxMessageSize) <= USIZE_MAX
    requires r.decoder.Some? && CanFinish(cfg, r)
    ensures CanBeHandedOn(cfg, r)
  {
    var s: bytes :| Finishes(r.decoder.value, s) && FinishFits(cfg, r, Feed(r.decoder.value, s).out);
    var f := Frame(FrameHeader(false, false, false, false, DataOp(Continue), None), s);
    var n := Receive(cfg, r, f).next;
    assert IsOpen(n) && BetweenElements(n)
        && n.incomplete == Some(With(r.incomplete.value, Feed(r.decoder.value, s).out, cfg.maxMessageSize)) by {
      hide Feed, FromUtf8, Lex;
    }
    ReceiveKeeps(cfg, r, f);
    hide Receive, Sound, Feed, HasRoom;
    SomethingIsHandedOn(cfg, n);
    var rest :| Continues(rest) && HandsOn(cfg, n, rest);
    var o :| o in Run(cfg, n, rest).1 && IsDataDelivery(o);
    var fs := [f] + rest;
    assert fs[1..] == rest;
    assert Run(cfg, r, fs).1 == [Receive(cfg, r, f).outcome] + Run(cfg, n, rest).1;
    assert o in Run(cfg, r, fs).1;
    assert HandsOn(cfg, r, fs) && Continues(fs);
  }

  // ----- What is pending decides -----

  /** A back-reference begun like this may still name this distance. */
  predicate MayName(pend: bytes, dist: nat)
    requires 1 <= dist <= 32768
  {
    && (|pend| >= 2 ==> pend[1] == (dist - 1) / 0x100)
    && (|pend| >= 3 ==> pend[2] == (dist - 1) % 0x100)
  }

  /** Held with the piece behind it, the text does not end inside a character. */
  predicate EndsWell(p: Partial, piece: bytes) {
    p.kind.BinaryType? || FromUtf8(p.held + piece).Valid? || !Viable(p.held + piece)
  }

  /**
   * The pending element can be ended so that something can be delivered: a flush marker always, a
   * literal if one byte fits, a back-reference if three bytes fit that it can still name, and, where
   * they fill the message to the limit, if they do not end inside a character.
   */
  predicate EndFits(cfg: ReadConfig, r: ReadState)
    requires r.incomplete.Some? && r.decoder.Some? && r.decoder.value.pend != []
  {
    var d, p, room := r.decoder.value, r.incomplete.value, Limit(cfg.maxMessageSize) - |r.incomplete.value.held|;
    match d.pend[0]
    case 0 => true
    case 1 => room >= 1
    case 2 =>
      exists dist :: 1 <= dist <= |d.hist| && dist <= 32768 && MayName(d.pend, dist)
        && (room > 3 || (room == 3 && EndsWell(p, CopyOut(d.hist, dist, 3))))
    case _ => false
  }

  /** The rest of an element that was begun. */
  lemma RestOfElement(d: Inflater, e: bytes)
    requires |d.pend| < |e| && d.pend == e[..|d.pend|] && !Lex(e).Pending?
    requires forall k :: |d.pend| < k < |e| ==> Lex(e[..k]).Pending?
    ensures var s := e[|d.pend|..];
            && Feed(d, s) == FeedByte(d.(pend := e[..|e| - 1]), e[|e| - 1])
            && (Feed(d, s).next.Some? ==> Finishes(d, s))
  {
    hide Lex, Feed, FeedByte;
    var s, n := e[|d.pend|..], |e| - 1 - |d.pend|;
    assert s == s[..n] + [e[|e| - 1]];
    forall j | 1 <= j <= n ensures Lex(d.pend + s[..n][..j]).Pending? {
      assert d.pend + s[..n][..j] == e[..|d.pend| + j];
    }
    assert d.pend + s[..n] == e[..|e| - 1] && d.pend + s == e;
    FirstElementEnds(d, s[..n], e[|e| - 1]);
    FeedElement(d, s[..n], e[|e| - 1]);
  }

  /** An element that was ended, as it was read. */
  lemma EndedElement(d: Inflater, s: bytes)
    requires Finishes(d, s)
    ensures var e := d.pend + s;
            && e != [] && !Lex(e).Pending?
            && (forall k :: |d.pend| < k < |e| ==> Lex(e[..k]).Pending?)
            && Feed(d, s) == FeedByte(d.(pend := e[..|e| - 1]), e[|e| - 1])
  {
    hide Lex, Feed;
    var e, t, b := d.pend + s, s[..|s| - 1], s[|s| - 1];
    assert s == t + [b];
    assert forall j :: 1 <= j <= |t| ==> t[..j] == s[..j];
    FeedElement(d, t, b);
    assert d.pend + t == e[..|e| - 1] && e[..|e| - 1] + [b] == e;
    forall k | |d.pend| < k < |e| ensures Lex(e[..k]).Pending? {
      assert e[..k] == d.pend + s[..k - |d.pend|];
    }
  }

  lemma MarkEnds(d: Inflater) returns (s: bytes)
    requires IsInflater(d) && d.pend != [] && d.pend[0] == 0
    ensures Finishes(d, s) && Feed(d, s).out == []
  {
    RestOfElement(d, MARK);
    s := MARK[|d.pend|..];
    hide Feed;
  }

  lemma LiteralEnds(d: Inflater) returns (s: bytes)
    requires IsInflater(d) && d.pend != [] && d.pend[0] == 1
    ensures var b: byte := 0xff; Finishes(d, s) && Feed(d, s).out == [b]
  {
    var e: bytes := [1, 0xff];
    assert d.pend == [1] && e[..1] == [1];
    RestOfElement(d, e);
    s := e[1..];
    hide Feed;
    assert [1] + [0xff] == e;
  }

  lemma CopyEnds(d: Inflater, dist: nat) returns (s: bytes)
    requires IsInflater(d) && d.pend != [] && d.pend[0] == 2
    requires 1 <= dist <= |d.hist| && dist <= 32768 && MayName(d.pend, dist)
    ensures Finishes(d, s) && Feed(d, s).out == CopyOut(d.hist, dist, 3)
  {
    var e: bytes := [2, (dist - 1) / 0x100, (dist - 1) % 0x100, 0];
    assert |d.pend| <= 3;
    assert e == e[..3] + [0];
    assert Lex(e) == TokenRead(Copy(dist, 3));
    RestOfElement(d, e);
    s := e[|d.pend|..];
    hide Feed;
  }

  lemma SpoiltHasRoom(p: Partial, piece: bytes, maxSize: Option<nat>)
    requires |p.held| + |piece| <= Limit(maxSize)
    ensures HasRoom(With(p, piece, maxSize), maxSize) <==>
            EndsWell(p, piece) || |p.held| + |piece| < Limit(maxSize)
  {
    PrefixIsValid(p.held + piece);
    hide FromUtf8, Viable, ValidUpTo;
    if p.kind.TextType? && !Viable(p.held + piece) { CutIsShorter(p.held + piece); }
  }

  lemma CutIsShorter(s: bytes)
    ensures |s[..ValidUpTo(s)]| <= |s|
  {
  }

  lemma EndFitsIsEnough(cfg: ReadConfig, r: ReadState)
    requires Sound(cfg, r) && r.incomplete.Some? && r.decoder.Some? && r.decoder.value.pend != []
    requires HasRoom(r.incomplete.value, cfg.maxMessageSize) && EndFits(cfg, r)
    ensures CanFinish(cfg, r)
  {
    var d, p, max := r.decoder.value, r.incomplete.value, cfg.maxMessageSize;
    hide Feed, Lex, FromUtf8, Viable, Finishes;
    if d.pend[0] == 0 {
      var s := MarkEnds(d);
      NothingAdded(p, max);
    } else if d.pend[0] == 1 {
      var s := LiteralEnds(d);
      SpoiltHasRoom(p, [0xff], max);
      if p.kind.TextType? { JunkSpoils(p.held); }
    } else {
      var dist :| 1 <= dist <= |d.hist| && dist <= 32768 && MayName(d.pend, dist)
        && (Limit(max) - |p.held| > 3 || (Limit(max) - |p.held| == 3 && EndsWell(p, CopyOut(d.hist, dist, 3))));
      var s := CopyEnds(d, dist);
      SpoiltHasRoom(p, CopyOut(d.hist, dist, 3), max);
    }
  }

  lemma NothingAdded(p: Partial, maxSize: Option<nat>)
    requires |p.held| <= Limit(maxSize) && (p.kind.TextType? ==> Viable(p.held))
    ensures With(p, [], maxSize) == p
  {
    hide FromUtf8;
    assert p.held + [] == p.held;
  }

  lemma EndFitsIsNeeded(cfg: ReadConfig, r: ReadState)
    requires Sound(cfg, r) && r.incomplete.Some? && r.decoder.Some? && r.decoder.value.pend != []
    requires CanFinish(cfg, r)
    ensures EndFits(cfg, r)
  {
    var d, p, max := r.decoder.value, r.incomplete.value, cfg.maxMessageSize;
    var s: bytes :| Finishes(d, s) && FinishFits(cfg, r, Feed(d, s).out);
    hide Feed, Finishes, FromUtf8, Viable, Lex;
    SpoiltHasRoom(p, Feed(d, s).out, max);
    PendingKind(d);
    if d.pend[0] == 1 {
      LiteralEnded(d, s);
    } else if d.pend[0] == 2 {
      var dist := CopyEnded(d, s);
    }
  }

  lemma PendingKind(d: Inflater)
    requires IsInflater(d) && d.pend != []
    ensures d.pend[0] <= 2
  {
  }

  lemma LiteralEnded(d: Inflater, s: bytes)
    requires IsInflater(d) && d.pend != [] && d.pend[0] == 1 && Finishes(d, s)
    ensures |Feed(d, s).out| == 1
  {
    EndedElement(d, s);
    hide Feed, Finishes;
  }

  lemma CopyEnded(d: Inflater, s: bytes) returns (dist: nat)
    requires IsInflater(d) && d.pend != [] && d.pend[0] == 2 && Finishes(d, s)
    ensures 1 <= dist <= |d.hist| && dist <= 32768 && MayName(d.pend, dist)
    ensures |Feed(d, s).out| >= 3
    ensures |Feed(d, s).out| == 3 ==> Feed(d, s).out == CopyOut(d.hist, dist, 3)
  {
    EndedElement(d, s);
    hide Feed, Finishes;
    var e := d.pend + s;
    assert e[..|e| - 1] + [e[|e| - 1]] == e;
    ShortCopy(e, d.pend);
    dist := 1 + 0x100 * (e[1] as int) + e[2] as int;
    assert Lex(e) == TokenRead(Copy(dist, 3 + e[3] as int));
    hide Lex;
    assert Feed(d, s).out == CopyOut(d.hist, dist, 3 + e[3] as int);
  }

  lemma ShortCopy(e: bytes, pend: bytes)
    requires pend != [] && pend[0] == 2 && |pend| < |e| && pend == e[..|pend|] && Lex(pend).Pending?
    requires !Lex(e).Pending? && !Lex(e).Malformed? && forall k :: |pend| < k < |e| ==> Lex(e[..k]).Pending?
    ensures |e| == 4 && 1 + 0x100 * (e[1] as int) + e[2] as int <= 32768
  {
    LongCopyEnds(e[..Min(4, |e|)]);
    LongCopyEnds(pend);
  }

  lemma LongCopyEnds(s: bytes)
    requires s != [] && s[0] == 2
    ensures Lex(s).Pending? <==> |s| < 4
  {
  }

  // ----- The theorem -----

  /** What a refused frame that took its turn leaves behind. */
  lemma AfterRefusal(cfg: ReadConfig, r: ReadState, f: Frame)
    requires Sound(cfg, r) && TakesTurn(cfg, r, f) && Receive(cfg, r, f).outcome.Fail?
    ensures var n := Receive(cfg, r, f).next;
            if r.incomplete.Some? && RefusedByExtend(cfg, r, f) then
              IsOpen(n) && (HasRoom(n.incomplete.value, cfg.maxMessageSize) <==> KeepsTheRest(cfg, r, f))
            else NothingOpen(n)
  {
    if r.incomplete.Some? && RefusedByExtend(cfg, r, f) {
      PrefixIsValid(r.incomplete.value.held + DecodedPayload(cfg, r, Continue, f).1.value);
    }
    hide DecompressSpec, FromUtf8, HeldSize, Viable, ValidUpTo;
  }

  /**
   * A frame took its turn in a message and was refused. A reader that goes on can be handed what is
   * left of the message if and only if the frame was a continuation and it was `extend` that refused
   * it, for its bytes, or for its size with the held bytes deliverable or short of the limit; where the
   * frame ended inside a compressed element, it must be possible to end that element within the limit.
   */
  lemma CutMessageExactly(cfg: ReadConfig, r: ReadState, f: Frame)
    requires Sound(cfg, r) && Limit(cfg.maxMessageSize) <= USIZE_MAX
    requires TakesTurn(cfg, r, f) && Receive(cfg, r, f).outcome.Fail?
    ensures var n := Receive(cfg, r, f).next;
            && (CanBeHandedOn(cfg, n) ==> KeepsTheRest(cfg, r, f))
            && (KeepsTheRest(cfg, r, f) && BetweenElements(n) ==> CanBeHandedOn(cfg, n))
            && (KeepsTheRest(cfg, r, f) && !BetweenElements(n) && Limit(cfg.maxMessageSize) < USIZE_MAX ==>
                  && n.incomplete.Some? && n.decoder.Some? && n.decoder.value.pend != []
                  && (CanBeHandedOn(cfg, n) <==> EndFits(cfg, n)))
  {
    var n := Receive(cfg, r, f).next;
    AfterRefusal(cfg, r, f);
    ReceiveKeeps(cfg, r, f);
    ModeHasADecoder(cfg, n);
    hide Receive, Sound, Run, CanFinish;
    if !KeepsTheRest(cfg, r, f) {
      forall fs | Continues(fs) ensures !HandsOn(cfg, n, fs) { NothingIsHandedOn(cfg, n, fs); }
    } else if BetweenElements(n) {
      SomethingIsHandedOn(cfg, n);
    } else if CanFinish(cfg, n) {
      FinishHandsOn(cfg, n);
      EndFitsIsNeeded(cfg, n);
    } else if Limit(cfg.maxMessageSize) < USIZE_MAX {
      forall fs | Continues(fs) ensures !HandsOn(cfg, n, fs) { NothingFinishes(cfg, n, fs); }
      if EndFits(cfg, n) { EndFitsIsEnough(cfg, n); }
    }
  }

  lemma ModeHasADecoder(cfg: ReadConfig, r: ReadState)
    requires Sound(cfg, r)
    ensures r.compressedIncomplete ==> r.decoder.Some?
  {
  }

  /**
   * So it happens: of a message too long for the reader, the piece that does not fit is refused and
   * the pieces around it are delivered as a message that nobody sent.
   */
  lemma CutMessageIsDelivered(cfg: ReadConfig, r: ReadState)
    requires cfg.maxMessageSize == Some(3) && Starts(cfg, r, Sent(Binary, false))
    ensures var fs := Fragments(Sent(Binary, false), [[1], [2, 3, 4], [5]], true);
            && Run(cfg, r, fs).1 == [Quiet, Fail(MessageTooLong(4, 3)), Deliver(BinaryMessage([1, 5]))]
            && Receive(cfg, r, Fragment(Sent(Binary, false), [1, 2, 3, 4, 5], true, true)).outcome
               == Fail(MessageTooLong(5, 3))
  {
    hide Receive, Fragment, Starts;
    var m := Sent(Binary, false);
    var a, b, c: bytes := [1], [2, 3, 4], [5];
    ThreeFragments(m, a, b, c);
    hide Fragments;
    var f, g, h := Fragment(m, a, true, false), Fragment(m, b, false, false), Fragment(m, c, false, true);
    BinaryOpens(cfg, r, a);
    BinaryWhole(cfg, r, [1, 2, 3, 4, 5]);
    var s1 := Receive(cfg, r, f);
    BinaryPiece(cfg, s1.next, a, b, false);
    BinaryPiece(cfg, s1.next, a, c, true);
    assert a + c == [1, 5];
    RunOfThree(cfg, r, f, g, h);
  }

  lemma RunOfThree(cfg: ReadConfig, r: ReadState, f: Frame, g: Frame, h: Frame)
    ensures var s1 := Receive(cfg, r, f);
            var s2 := Receive(cfg, s1.next, g);
            var s3 := Receive(cfg, s2.next, h);
            Run(cfg, r, [f, g, h]).1 == [s1.outcome, s2.outcome, s3.outcome]
  {
    hide Receive;
    var s1 := Receive(cfg, r, f);
    var s2 := Receive(cfg, s1.next, g);
    assert [f, g, h][1..] == [g, h] && [g, h][1..] == [h];
    assert Run(cfg, s2.next, [h]).1 == [Receive(cfg, s2.next, h).outcome];
    assert Run(cfg, s1.next, [g, h]).1 == [s2.outcome] + Run(cfg, s2.next, [h]).1;
  }

  lemma BinaryOpens(cfg: ReadConfig, r: ReadState, piece: bytes)
    requires cfg.maxMessageSize == Some(3) && Starts(cfg, r, Sent(Binary, false)) && |piece| <= 3
    ensures var s := Receive(cfg, r, Fragment(Sent(Binary, false), piece, true, false));
            && s.outcome == Quiet && s.next.state.CanRead()
            && s.next.incomplete == Some(Partial(BinaryType, piece)) && !s.next.compressedIncomplete
  {
    hide FromUtf8, DecompressSpec;
    assert [] + piece == piece;
  }

  lemma BinaryWhole(cfg: ReadConfig, r: ReadState, payload: bytes)
    requires cfg.maxMessageSize == Some(3) && Starts(cfg, r, Sent(Binary, false)) && |payload| > 3
    ensures Receive(cfg, r, Fragment(Sent(Binary, false), payload, true, true)).outcome
         == Fail(MessageTooLong(|payload|, 3))
  {
    hide FromUtf8, DecompressSpec;
  }

  lemma BinaryPiece(cfg: ReadConfig, r: ReadState, held: bytes, piece: bytes, last: bool)
    requires cfg.maxMessageSize == Some(3) && r.state.CanRead()
    requires r.incomplete == Some(Partial(BinaryType, held)) && !r.compressedIncomplete
    ensures var s, n := Receive(cfg, r, Fragment(Sent(Binary, false), piece, false, last)), |held| + |piece|;
            if n > 3 then s == Received(r, Fail(MessageTooLong(n, 3)), None)
            else s.outcome == if last then Deliver(BinaryMessage(held + piece)) else Quiet
  {
    hide FromUtf8, DecompressSpec;
  }

  lemma ThreeFragments(m: Sent, a: bytes, b: bytes, c: bytes)
    ensures Fragments(m, [a, b, c], true)
         == [Fragment(m, a, true, false), Fragment(m, b, false, false), Fragment(m, c, false, true)]
  {
    hide Fragment;
    var pieces := [a, b, c];
    assert pieces[1..] == [b, c] && pieces[1..][1..] == [c];
    assert Fragments(m, [c], false) == [Fragment(m, c, false, true)];
    assert Fragments(m, [b, c], false) == [Fragment(m, b, false, false)] + Fragments(m, [c], false);
  }
}
