/** Resumable frame reading and the conserving output buffer (src/protocol/frame/mod.rs). */
module FrameCodecs {
  import opened Bytes
  import opened Mask
  import opened Frames
  import opened Streams

  // ----- Whole-input parsing: the specification of reading -----

  datatype FrameParse =
    | Starved
    | Found(frame: Frame, consumed: nat)
    | TooLong(size: nat)
    | BadHeader(code: byte)
    | NotMasked(consumed: nat)

  /** How one side reads: the limit, whether it removes masks and whether it insists on them. */
  datatype ReadMode = ReadMode(maxSize: Option<nat>, unmask: bool, acceptUnmasked: bool)

  function Unmasked(h: FrameHeader, payload: bytes): Frame {
    match h.mask
    case Some(m) => Frame(h.(mask := None), Masked(payload, m))
    case None => Frame(h, payload)
  }

  /** What the first bytes of the input say, judged on the whole input. */
  function NextFrame(s: bytes, mode: ReadMode): (r: FrameParse)
    ensures r.Found? ==> 2 <= r.consumed <= |s|
    ensures r.NotMasked? ==> 2 <= r.consumed <= |s|
  {
    match ParseHeader(s)
    case Short => Starved
    case BadOpcode(code) => BadHeader(code)
    case Parsed(h, length, k) =>
      if length > Limit(mode.maxSize) then TooLong(length)
      else if |s| < k + length then Starved
      else
        var payload := s[k..k + length];
        if !mode.unmask then Found(Frame(h, payload), k + length)
        else if h.mask.None? && !mode.acceptUnmasked then NotMasked(k + length)
        else Found(Unmasked(h, payload), k + length)
  }

  /** Input that arrives later never changes an answer already given. */
  lemma NextFrameIsStable(s: bytes, t: bytes, mode: ReadMode)
    ensures !NextFrame(s, mode).Starved? ==> NextFrame(s + t, mode) == NextFrame(s, mode)
  {
    ParseIsStable(s, t);
    var p := ParseHeader(s);
    if p.Parsed? && |s| >= p.consumed + p.length {
      assert (s + t)[p.consumed..p.consumed + p.length] == s[p.consumed..p.consumed + p.length];
    }
  }

  /** The frame a peer reads when it was sent `f`. */
  function Arrives(f: Frame, unmask: bool): Frame {
    if f.header.mask.None? then f
    else if unmask then f.(header := f.header.(mask := None))
    else f.(payload := Masked(f.payload, f.header.mask.value))
  }

  /** May `f` cross to a peer reading in `mode`? */
  predicate Acceptable(f: Frame, mode: ReadMode) {
    && !f.header.opcode.IsReserved()
    && |f.payload| < U64_LIMIT && |f.payload| <= Limit(mode.maxSize)
    && (mode.unmask && !mode.acceptUnmasked ==> f.header.mask.Some?)
  }

  lemma BodyBehindHead(head: bytes, body: bytes, tail: bytes)
    ensures (head + body + tail)[|head|..|head| + |body|] == body
  {
  }

  /** A printed frame is read back, unmasked when the mask is removed, and exactly consumed. */
  lemma ReadUndoesWrite(f: Frame, tail: bytes, mode: ReadMode)
    requires Acceptable(f, mode)
    ensures NextFrame(Encode(f) + tail, mode) == Found(Arrives(f, mode.unmask), |Encode(f)|)
  {
    var h, n := f.header, |f.payload|;
    var body := match h.mask { case Some(m) => Masked(f.payload, m) case None => f.payload };
    ParseUndoesFormat(h, n, body + tail);
    if h.mask.Some? { MaskedTwice(f.payload, h.mask.value); }
    hide ParseHeader, Format, Masked;
    Assoc(Format(h, n), body, tail);
    assert Encode(f) == Format(h, n) + body;
    BodyBehindHead(Format(h, n), body, tail);
  }

  /** A strict prefix of a printed frame never reads as anything. */
  lemma StrictPrefixIsStarved(f: Frame, k: nat, mode: ReadMode)
    requires Acceptable(f, mode) && k < |Encode(f)|
    ensures NextFrame(Encode(f)[..k], mode) == Starved
  {
    var s := Encode(f);
    ReadUndoesWrite(f, [], mode);
    assert s + [] == s;
    assert s[..k] + s[k..] == s;
    NextFrameIsStable(s[..k], s[k..], mode);
    match NextFrame(s[..k], mode)
    case Found(g, c) =>
    case _ =>
  }

  /** All frames at the front of the input, and what is left. */
  function ReadAll(s: bytes, mode: ReadMode): (seq<Frame>, bytes)
    decreases |s|
  {
    match NextFrame(s, mode)
    case Found(f, k) =>
      var (fs, rest) := ReadAll(s[k..], mode);
      ([f] + fs, rest)
    case _ => ([], s)
  }

  lemma ReadAllStep(f: Frame, tail: bytes, mode: ReadMode)
    requires Acceptable(f, mode)
    ensures ReadAll(Encode(f) + tail, mode).0 == [Arrives(f, mode.unmask)] + ReadAll(tail, mode).0
    ensures ReadAll(Encode(f) + tail, mode).1 == ReadAll(tail, mode).1
  {
    ReadUndoesWrite(f, tail, mode);
    assert (Encode(f) + tail)[|Encode(f)|..] == tail;
  }

  function ArriveAll(fs: seq<Frame>, unmask: bool): (r: seq<Frame>)
    ensures |r| == |fs|
    ensures forall i :: 0 <= i < |fs| ==> r[i] == Arrives(fs[i], unmask)
  {
    if fs == [] then [] else [Arrives(fs[0], unmask)] + ArriveAll(fs[1..], unmask)
  }

  /** Every frame list survives the wire whole, and what follows it is left alone. */
  lemma {:induction false} ReadAllUndoesWriteAll(fs: seq<Frame>, tail: bytes, mode: ReadMode)
    requires forall f :: f in fs ==> Acceptable(f, mode)
    requires NextFrame(tail, mode).Starved?
    ensures ReadAll(EncodeAll(fs) + tail, mode) == (ArriveAll(fs, mode.unmask), tail)
    decreases |fs|
  {
    if fs == [] {
      assert EncodeAll(fs) + tail == tail;
    } else {
      var rest := EncodeAll(fs[1..]) + tail;
      assert EncodeAll(fs) + tail == Encode(fs[0]) + rest;
      ReadAllStep(fs[0], rest, mode);
      ReadAllUndoesWriteAll(fs[1..], tail, mode);
    }
  }

  /** Reading on when more has arrived gives the frames already read, then the new ones. */
  lemma {:induction false} ReadAllResumes(s: bytes, t: bytes, mode: ReadMode, fs: seq<Frame>, rest: bytes)
    requires ReadAll(s, mode) == (fs, rest) && NextFrame(rest, mode).Starved?
    ensures ReadAll(s + t, mode).0 == fs + ReadAll(rest + t, mode).0
    ensures ReadAll(s + t, mode).1 == ReadAll(rest + t, mode).1
    decreases |s|
  {
    if NextFrame(s, mode).Found? {
      var (f, k) := (NextFrame(s, mode).frame, NextFrame(s, mode).consumed);
      NextFrameIsStable(s, t, mode);
      assert (s + t)[k..] == s[k..] + t;
      ReadAllResumes(s[k..], t, mode, fs[1..], rest);
      Assoc([f], fs[1..], ReadAll(rest + t, mode).0);
      assert fs == [f] + fs[1..];
    } else {
      assert [] + ReadAll(s + t, mode).0 == ReadAll(s + t, mode).0;
    }
  }

  /** Reading took exactly `fs` off the front of `s` and left `rest`. */
  predicate FramesRead(s: bytes, mode: ReadMode, fs: seq<Frame>, rest: bytes)
    decreases |fs|
  {
    if fs == [] then rest == s
    else
      var first := NextFrame(s, mode);
      first.Found? && first.frame == fs[0] && FramesRead(s[first.consumed..], mode, fs[1..], rest)
  }

  lemma {:induction false} MoreInputLater(s: bytes, mode: ReadMode, fs: seq<Frame>, rest: bytes, t: bytes)
    requires FramesRead(s, mode, fs, rest)
    ensures FramesRead(s + t, mode, fs, rest + t)
    decreases |fs|
  {
    if fs != [] {
      var k := NextFrame(s, mode).consumed;
      NextFrameIsStable(s, t, mode);
      assert (s + t)[k..] == s[k..] + t;
      MoreInputLater(s[k..], mode, fs[1..], rest, t);
    }
  }

  lemma {:induction false} OneMoreFrame(s: bytes, mode: ReadMode, fs: seq<Frame>, mid: bytes)
    requires FramesRead(s, mode, fs, mid) && NextFrame(mid, mode).Found?
    ensures var next := NextFrame(mid, mode);
            FramesRead(s, mode, fs + [next.frame], mid[next.consumed..])
    decreases |fs|
  {
    if fs != [] {
      OneMoreFrame(s[NextFrame(s, mode).consumed..], mode, fs[1..], mid);
      assert (fs + [NextFrame(mid, mode).frame])[1..] == fs[1..] + [NextFrame(mid, mode).frame];
    }
  }

  /** What was read step by step is what reading everything at once gives. */
  lemma {:induction false} StepwiseIsWhole(s: bytes, mode: ReadMode, fs: seq<Frame>, rest: bytes)
    requires FramesRead(s, mode, fs, rest)
    ensures ReadAll(s, mode).0 == fs + ReadAll(rest, mode).0 && ReadAll(s, mode).1 == ReadAll(rest, mode).1
    decreases |fs|
  {
    if fs == [] {
      assert [] + ReadAll(s, mode).0 == ReadAll(s, mode).0;
    } else {
      StepwiseIsWhole(s[NextFrame(s, mode).consumed..], mode, fs[1..], rest);
      Assoc([fs[0]], fs[1..], ReadAll(rest, mode).0);
      assert [fs[0]] + fs[1..] == fs;
    }
  }

  /** What a read may answer, and what it leaves, when `all` is everything not yet consumed. */
  ghost predicate ReadAnswers(all: bytes, mode: ReadMode, limit: nat, r: Result<Option<Frame>, Error>, left: bytes) {
    var parse := NextFrame(all, mode);
    match r
    case Ok(Some(f)) => parse.Found? && parse.frame == f && left == all[parse.consumed..]
    case Ok(None) => parse.Starved? && left == all
    case Err(Io(_)) => parse.Starved? && left == all
    case Err(MessageTooLong(n, m)) => parse == TooLong(n) && m == limit && left == all
    case Err(Protocol(InvalidOpcode(c))) => parse == BadHeader(c) && left == all
    case Err(Protocol(UnmaskedFrameFromClient)) => parse.NotMasked? && left == all[parse.consumed..]
    case Err(_) => false
  }

  /** What a growing log gained. */
  function Since(before: bytes, now: bytes): bytes
    requires before <= now
  {
    now[|before|..]
  }

  lemma SinceJoins(start: bytes, a: bytes, b: bytes, c: bytes)
    requires a <= b <= c
    ensures a <= c && start + Since(a, b) + Since(b, c) == start + Since(a, c)
  {
    assert Since(a, c) == Since(a, b) + Since(b, c);
    Assoc(start, Since(a, b), Since(b, c));
  }

  lemma FirstRead(s: bytes, mode: ReadMode, fs: seq<Frame>, rest: bytes)
    requires FramesRead(s, mode, fs, rest)
    ensures fs == [] ==> rest == s
    ensures fs != [] ==>
      var first := NextFrame(s, mode);
      first.Found? && first.frame == fs[0] && FramesRead(s[first.consumed..], mode, fs[1..], rest)
  {
  }

  lemma OneThenMore(s: bytes, t: bytes, mode: ReadMode, fs: seq<Frame>, left: bytes)
    requires NextFrame(s, mode).Found? && FramesRead(s[NextFrame(s, mode).consumed..] + t, mode, fs, left)
    ensures FramesRead(s + t, mode, [NextFrame(s, mode).frame] + fs, left)
  {
    hide NextFrame;
    var k := NextFrame(s, mode).consumed;
    NextFrameIsStable(s, t, mode);
    assert (s + t)[k..] == s[k..] + t;
    assert ([NextFrame(s, mode).frame] + fs)[1..] == fs;
  }

  /** Frames taken off now and frames taken off after more has arrived are the frames of the whole. */
  lemma {:induction false} FramesReadThen(s: bytes, t: bytes, mode: ReadMode, fs: seq<Frame>, rest: bytes,
                                          gs: seq<Frame>, left: bytes)
    requires FramesRead(s, mode, fs, rest) && FramesRead(rest + t, mode, gs, left)
    ensures FramesRead(s + t, mode, fs + gs, left)
    decreases |fs|
  {
    FirstRead(s, mode, fs, rest);
    hide NextFrame, FramesRead;
    FirstThen(fs, gs);
    if fs != [] {
      var tail := s[NextFrame(s, mode).consumed..];
      FramesReadThen(tail, t, mode, fs[1..], rest, gs, left);
      OneThenMore(s, t, mode, fs[1..] + gs, left);
    }
  }

  lemma FirstThen(fs: seq<Frame>, gs: seq<Frame>)
    ensures if fs == [] then fs + gs == gs else fs + gs == [fs[0]] + (fs[1..] + gs)
  {
  }

  /** Of an input that grew from `a` to `b` and then to `c`, one more frame was read. */
  lemma FramesReadOn(input: bytes, a: bytes, b: bytes, c: bytes, mode: ReadMode, fs: seq<Frame>, rest: bytes)
    requires a <= b <= c && FramesRead(input + Since(a, b), mode, fs, rest)
    requires NextFrame(rest + Since(b, c), mode).Found?
    ensures var next := NextFrame(rest + Since(b, c), mode);
            a <= c && FramesRead(input + Since(a, c), mode, fs + [next.frame], (rest + Since(b, c))[next.consumed..])
  {
    MoreInputLater(input + Since(a, b), mode, fs, rest, Since(b, c));
    SinceJoins(input, a, b, c);
    OneMoreFrame(input + Since(a, c), mode, fs, rest + Since(b, c));
  }

  /** What a read leaves of an input that grew from `a` to `b` and then to `c`. */
  lemma ReadAccounts(input: bytes, a: bytes, b: bytes, c: bytes, mode: ReadMode, fs: seq<Frame>, rest: bytes,
                     limit: nat, got: Result<Option<Frame>, Error>, left: bytes)
    requires a <= b <= c && FramesRead(input + Since(a, b), mode, fs, rest)
    ensures a <= c
    ensures got.Ok? && got.value.Some? && ReadAnswers(rest + Since(b, c), mode, limit, got, left) ==>
              FramesRead(input + Since(a, c), mode, fs + [got.value.value], left)
    ensures left == rest + Since(b, c) ==> FramesRead(input + Since(a, c), mode, fs, left)
  {
    if got.Ok? && got.value.Some? && ReadAnswers(rest + Since(b, c), mode, limit, got, left) {
      FramesReadOn(input, a, b, c, mode, fs, rest);
    }
    MoreInputLater(input + Since(a, b), mode, fs, rest, Since(b, c));
    SinceJoins(input, a, b, c);
    hide NextFrame, FramesRead;
  }

  lemma FinishedFrame(head: bytes, body: bytes, n: nat)
    requires n <= |body|
    ensures (head + body)[|head| + n..] == body[n..]
  {
  }

  // ----- The codec -----

  class FrameCodec {
    var inBuffer: bytes
    /** Capacity of the input buffer, counted from its current start. */
    var capacity: nat
    const inBufMaxRead: nat
    var outBuffer: bytes
    var maxOutBufferLen: nat
    var outBufferWriteLen: nat
    var header: Option<(FrameHeader, nat)>
    /** The bytes `header` was parsed from. */
    ghost var headerBytes: bytes

    /**
     * The input side is sound as long as no frame was refused for its size: then a pending
     * header has its payload's room reserved.
     */
    ghost predicate Valid() reads this {
      && inBufMaxRead >= 14 && |inBuffer| <= capacity
      && Min(|outBuffer|, USIZE_MAX) <= maxOutBufferLen
      && (header.None? ==> headerBytes == [])
      && (header.Some? ==>
            ParseHeader(headerBytes) == Parsed(header.value.0, header.value.1, |headerBytes|))
    }

    /** Room for the pending payload is reserved, and its size was judged acceptable. */
    ghost predicate Reserved(maxSize: Option<nat>) reads this {
      header.Some? ==> header.value.1 <= capacity && header.value.1 <= Limit(maxSize)
    }

    /** What the next read may take. */
    ghost function Spare(): nat reads this { SaturatingSub(capacity, |inBuffer|) }

    /** Every byte delivered and not yet part of a frame, the pending header's own included. */
    ghost function Unconsumed(): bytes reads this { headerBytes + inBuffer }

    constructor (inBufLen: nat)
      ensures Valid() && Unconsumed() == [] && outBuffer == [] && header.None?
      ensures maxOutBufferLen == USIZE_MAX && outBufferWriteLen == 0
    {
      inBuffer, capacity, inBufMaxRead := [], inBufLen, Max(inBufLen, 14);
      outBuffer, maxOutBufferLen, outBufferWriteLen := [], USIZE_MAX, 0;
      header, headerBytes := None, [];
    }

    /** A codec that starts with bytes already read loses none of them. */
    constructor FromPartiallyRead(part: bytes, minInBufLen: nat)
      ensures Valid() && Unconsumed() == part && outBuffer == [] && header.None?
      ensures Spare() == SaturatingSub(minInBufLen, |part|)
      ensures maxOutBufferLen == USIZE_MAX && outBufferWriteLen == 0
    {
      inBuffer, capacity, inBufMaxRead := part, Max(|part|, minInBufLen), Max(minInBufLen, 14);
      outBuffer, maxOutBufferLen, outBufferWriteLen := [], USIZE_MAX, 0;
      header, headerBytes := None, [];
      new;
      assert [] + part == part;
    }

    method SetMaxOutBufferLen(max: nat)
      requires Valid() && Min(|outBuffer|, USIZE_MAX) <= max
      modifies this`maxOutBufferLen
      ensures Valid() && maxOutBufferLen == max
    {
      maxOutBufferLen := max;
    }

    method SetOutBufferWriteLen(len: nat)
      modifies this`outBufferWriteLen
      ensures outBufferWriteLen == len
    {
      outBufferWriteLen := len;
    }

    predicate CanBuffer(wireSize: nat) reads this {
      SaturatingAdd(wireSize, |outBuffer|) <= maxOutBufferLen
    }

    /** `BytesMut::reserve`: room for `additional` more bytes, perhaps for others too. */
    method Reserve(additional: nat)
      requires |inBuffer| <= capacity
      modifies this`capacity
      ensures capacity >= |inBuffer| + additional && capacity >= old(capacity)
    {
      if capacity - |inBuffer| < additional {
        var slack: nat :| true;
        capacity := |inBuffer| + additional + slack;
      }
    }

    /** Reads into the spare capacity; an error leaves the buffer as it was. */
    method ReadIn(stream: Stream) returns (r: Result<nat, IoKind>)
      requires Valid()
      modifies this`inBuffer, stream`incoming, stream`delivered, stream`ended
      ensures Valid()
      ensures r == Ok(0) && old(Spare()) > 0 ==> stream.ended
      ensures old(Spare()) == 0 ==>
        && r == Ok(0) && inBuffer == old(inBuffer)
        && stream.delivered == old(stream.delivered) && stream.ended == old(stream.ended)
      ensures r.Err? ==> inBuffer == old(inBuffer) && stream.delivered == old(stream.delivered)
      ensures r.Ok? ==>
        && old(stream.delivered) <= stream.delivered
        && Unconsumed() == old(Unconsumed()) + Since(old(stream.delivered), stream.delivered)
        && (r.value == 0 ==> Unconsumed() == old(Unconsumed()))
        && r.value == |stream.delivered| - |old(stream.delivered)|
      ensures stream.Supply() <= old(stream.Supply())
      ensures r.Ok? ==> stream.Supply() + r.value <= old(stream.Supply())
      ensures r.Ok? && r.value > 0 ==> stream.Supply() < old(stream.Supply())
    {
      var len := |inBuffer|;
      var space := Min(capacity, len + inBufMaxRead) - len;
      var got := stream.Read(space);
      match got {
        case Err(kind) => return Err(kind);
        case Ok(data) =>
          Assoc(headerBytes, inBuffer, data);
          assert data == [] ==> headerBytes + inBuffer + data == headerBytes + inBuffer;
          inBuffer := inBuffer + data;
          return Ok(|data|);
      }
    }

    /** Takes a header off the input, if a whole one is there, and reserves room for its payload. */
    method TakeHeader(maxSize: Option<nat>) returns (r: Result<(), Error>)
      requires Valid() && header.None?
      modifies this`inBuffer, this`capacity, this`header, this`headerBytes
      ensures Valid() && Unconsumed() == old(Unconsumed())
      ensures match ParseHeader(old(inBuffer))
              case Short => r.Ok? && header.None? && capacity >= |inBuffer| + 14
              case BadOpcode(c) => r == Err(Protocol(InvalidOpcode(c))) && header.None?
              case Parsed(h, n, k) =>
                && header == Some((h, n))
                && if n > Limit(maxSize) then r == Err(MessageTooLong(n, Limit(maxSize))) && Spare() == old(Spare())
                   else r.Ok? && Reserved(maxSize) && capacity >= n
    {
      var cursor := new Cursor(inBuffer);
      assert inBuffer[0..] == inBuffer;
      var parsed := cursor.Parse();
      match parsed {
        case BadOpcode(code) => return Err(Protocol(InvalidOpcode(code)));
        case Short =>
          Reserve(14);
          return Ok(());
        case Parsed(h, length, consumed) =>
          ghost var all := inBuffer;
          headerBytes := inBuffer[..consumed];
          inBuffer, capacity := inBuffer[consumed..], capacity - consumed;
          header := Some((h, length));
          HeaderOfPrefix(all, consumed);
          assert headerBytes + inBuffer == all;
          if length > Limit(maxSize) {
            return Err(MessageTooLong(length, Limit(maxSize)));
          }
          Reserve(length);
          return Ok(());
      }
    }

    static lemma HeaderOfPrefix(s: bytes, k: nat)
      requires ParseHeader(s).Parsed? && ParseHeader(s).consumed == k
      ensures ParseHeader(s[..k]) == ParseHeader(s)
    {
      var extra := ExtraBytesFor(s[1]);
      assert s[..k][2..2 + extra] == s[2..2 + extra];
      if HasBit(s[1], 0x80) { assert s[..k][2 + extra..k] == s[2 + extra..k]; }
    }

    /** With a header in hand, the whole input reads as its frame as soon as the payload is there. */
    lemma PendingHeaderReads(mode: ReadMode)
      requires Valid() && header.Some? && header.value.1 <= Limit(mode.maxSize)
      ensures var (h, n) := header.value;
              var k := |headerBytes|;
              NextFrame(Unconsumed(), mode) ==
                if |inBuffer| < n then Starved
                else if !mode.unmask then Found(Frame(h, inBuffer[..n]), k + n)
                else if h.mask.None? && !mode.acceptUnmasked then NotMasked(k + n)
                else Found(Unmasked(h, inBuffer[..n]), k + n)
    {
      ParseIsStable(headerBytes, inBuffer);
      var (h, n) := header.value;
      var k := |headerBytes|;
      if n <= |inBuffer| { assert Unconsumed()[k..k + n] == inBuffer[..n]; }
    }

    /** Splits the pending frame off the input; the header goes with it even if it is refused. */
    method FinishFrame(unmask: bool, acceptUnmasked: bool) returns (r: Result<Frame, Error>)
      requires Valid() && header.Some? && header.value.1 <= |inBuffer|
      modifies this`inBuffer, this`capacity, this`header, this`headerBytes
      ensures Valid() && header.None?
      ensures var (h, n) := old(header.value);
              && Unconsumed() == old(inBuffer)[n..]
              && r == if !unmask then Ok(Frame(h, old(inBuffer)[..n]))
                      else if h.mask.None? && !acceptUnmasked then Err(Protocol(UnmaskedFrameFromClient))
                      else Ok(Unmasked(h, old(inBuffer)[..n]))
    {
      var (h, length) := header.value;
      var payload := inBuffer[..length];
      inBuffer, capacity := inBuffer[length..], capacity - length;
      header, headerBytes := None, [];
      assert headerBytes + inBuffer == inBuffer;
      if unmask {
        if h.mask.Some? {
          var buf := new byte[length](i requires 0 <= i < length => payload[i]);
          assert buf[..] == payload;
          ApplyMask(buf, h.mask.value);
          return Ok(Frame(h.(mask := None), buf[..]));
        } else if !acceptUnmasked {
          return Err(Protocol(UnmaskedFrameFromClient));
        }
      }
      return Ok(Frame(h, payload));
    }

    /** A header refused for its size is not judged again: the next call reads without a limit. */
    ghost function EffectiveMode(mode: ReadMode): ReadMode reads this {
      if Reserved(mode.maxSize) then mode else mode.(maxSize := None)
    }

    /** The part of a turn that needs no input: a header if there is none, a frame if it is whole. */
    method TryFrame(maxSize: Option<nat>, unmask: bool, acceptUnmasked: bool, ghost mode: ReadMode)
      returns (answer: Option<Result<Option<Frame>, Error>>)
      requires Valid() && mode == EffectiveMode(ReadMode(maxSize, unmask, acceptUnmasked))
      modifies this`inBuffer, this`capacity, this`header, this`headerBytes
      ensures Valid()
      ensures answer.None? ==>
        && NextFrame(Unconsumed(), mode).Starved? && Unconsumed() == old(Unconsumed())
        && (old(Reserved(maxSize)) ==> Reserved(maxSize) && capacity > |inBuffer|)
        && (!old(Reserved(maxSize)) ==> header.Some? && !Reserved(maxSize) && Spare() == old(Spare()))
      ensures answer.Some? ==>
        && ReadAnswers(old(Unconsumed()), mode, Limit(maxSize), answer.value, Unconsumed())
        && answer.value != Ok(None)
        && (answer.value.Ok? ==> header.None?)
        && (answer.value.Err? && !answer.value.error.MessageTooLong? ==> header.None?)
        && (answer.value.Err? && answer.value.error.MessageTooLong? ==> !Reserved(maxSize) && Spare() == old(Spare()))
        && !(answer.value.Err? && answer.value.error.Io?)
    {
      ghost var all := Unconsumed();
      if header.None? {
        assert inBuffer == all;
        var taken := TakeHeader(maxSize);
        if taken.Err? { return Some(Err(taken.error)); }
      }
      if header.Some? {
        PendingHeaderReads(mode);
        if header.value.1 <= |inBuffer| {
          FinishedFrame(headerBytes, inBuffer, header.value.1);
          var frame := FinishFrame(unmask, acceptUnmasked);
          match frame {
            case Err(e) => return Some(Err(e));
            case Ok(f) => return Some(Ok(Some(f)));
          }
        }
      }
      return None;
    }

    /**
     * Reading refines whole-input parsing: whatever the chunks and interruptions, the answer is
     * the one for all unconsumed bytes together, and no byte is lost. An end of stream is only
     * reported for a read that had room.
     */
    method ReadFrame(stream: Stream, maxSize: Option<nat>, unmask: bool, acceptUnmasked: bool)
      returns (r: Result<Option<Frame>, Error>)
      requires Valid()
      modifies this`inBuffer, this`capacity, this`header, this`headerBytes
      modifies stream`incoming, stream`delivered, stream`ended
      ensures Valid() && old(stream.delivered) <= stream.delivered
      ensures old(Reserved(maxSize)) && !(r.Err? && r.error.MessageTooLong?) ==> Reserved(maxSize)
      ensures stream.Supply() <= old(stream.Supply())
      ensures stream.Supply() + |stream.delivered| <= old(stream.Supply() + |stream.delivered|)
      ensures ReadAnswers(old(Unconsumed()) + Since(old(stream.delivered), stream.delivered),
                          old(EffectiveMode(ReadMode(maxSize, unmask, acceptUnmasked))), Limit(maxSize), r,
                          Unconsumed())
      ensures r.Ok? && r.value.Some? ==> header.None?
      ensures r == Ok(None) ==> stream.ended || (!old(Reserved(maxSize)) && Spare() == 0)
      ensures r.Err? && r.error.MessageTooLong? ==> !Reserved(maxSize)
      ensures !old(Reserved(maxSize)) && (r == Ok(None) || (r.Err? && r.error.Io?)) ==> !Reserved(maxSize)
      ensures !NextFrame(old(Unconsumed()), old(EffectiveMode(ReadMode(maxSize, unmask, acceptUnmasked)))).Starved? ==>
        && stream.delivered == old(stream.delivered) && stream.ended == old(stream.ended)
        && (r.Err? && r.error.MessageTooLong? ==> Spare() == old(Spare()))
      ensures
        && !old(Reserved(maxSize)) && old(Spare()) == 0
        && NextFrame(old(Unconsumed()), old(EffectiveMode(ReadMode(maxSize, unmask, acceptUnmasked)))).Starved? ==>
        && r == Ok(None) && Spare() == 0 && Unconsumed() == old(Unconsumed())
        && stream.delivered == old(stream.delivered) && stream.ended == old(stream.ended)
    {
      ghost var mode := EffectiveMode(ReadMode(maxSize, unmask, acceptUnmasked));
      ghost var start := Unconsumed();
      ghost var untouched := true;
      assert start + Since(stream.delivered, stream.delivered) == start;
      while true
        invariant Valid() && old(stream.delivered) <= stream.delivered
        invariant Unconsumed() == start + Since(old(stream.delivered), stream.delivered)
        invariant old(Reserved(maxSize)) <==> Reserved(maxSize)
        invariant untouched ==>
          stream.delivered == old(stream.delivered) && stream.ended == old(stream.ended) && Spare() == old(Spare())
        invariant !untouched ==> NextFrame(start, mode).Starved? && (old(Reserved(maxSize)) || old(Spare()) > 0)
        invariant mode == EffectiveMode(ReadMode(maxSize, unmask, acceptUnmasked))
        invariant stream.Supply() <= old(stream.Supply())
        invariant stream.Supply() + |stream.delivered| <= old(stream.Supply() + |stream.delivered|)
        decreases stream.Supply()
      {
        ghost var all := Unconsumed();
        var answer := TryFrame(maxSize, unmask, acceptUnmasked, mode);
        if answer.Some? { return answer.value; }
        ghost var delivered := stream.delivered;
        var got := ReadIn(stream);
        match got {
          case Err(kind) => return Err(Io(kind));
          case Ok(n) =>
            SinceJoins(start, old(stream.delivered), delivered, stream.delivered);
            if n == 0 { return Ok(None); }
            untouched := false;
        }
      }
    }

    // ----- Writing -----

    /**
     * Appends an encoded frame or refuses it whole; then what the stream took and what is still
     * buffered is exactly what was there before and the frame, even if the stream fails.
     */
    method BufferFrame(stream: Stream, frame: Frame) returns (r: Result<(), Error>)
      requires Valid()
      modifies this`outBuffer, stream`outgoing, stream`sent
      ensures Valid()
      ensures !old(CanBuffer(frame.Len())) ==>
        r == Err(WriteBufferFull(frame)) && outBuffer == old(outBuffer) && stream.sent == old(stream.sent)
      ensures old(CanBuffer(frame.Len())) ==>
        && (r.Err? ==> r.error.Io?)
        && stream.sent + outBuffer == old(stream.sent + outBuffer) + Encode(frame)
        && old(stream.sent) <= stream.sent
      ensures stream.Stuck()
    {
      hide Format, Masked;
      EncodeLength(frame);
      if !CanBuffer(frame.Len()) {
        return Err(WriteBufferFull(frame));
      }
      var body := frame.payload;
      if frame.header.mask.Some? {
        var buf := new byte[|body|](i requires 0 <= i < |body| => frame.payload[i]);
        assert buf[..] == body;
        ApplyMask(buf, frame.header.mask.value);
        body := buf[..];
      }
      var printed := Format(frame.header, |frame.payload|) + body;
      assert printed == Encode(frame);
      Assoc(stream.sent, outBuffer, printed);
      outBuffer := outBuffer + printed;
      if |outBuffer| > outBufferWriteLen {
        r := WriteOutBuffer(stream);
      } else {
        r := Ok(());
      }
    }

    /** Drains the buffer as far as the stream takes it: bytes move, none is lost or repeated. */
    method WriteOutBuffer(stream: Stream) returns (r: Result<(), Error>)
      requires Valid()
      modifies this`outBuffer, stream`outgoing, stream`sent
      ensures Valid()
      ensures stream.sent + outBuffer == old(stream.sent + outBuffer)
      ensures old(stream.sent) <= stream.sent
      ensures r.Ok? ==> outBuffer == []
      ensures r.Err? ==> r.error.Io?
      ensures stream.Stuck()
    {
      while outBuffer != []
        invariant Valid() && old(stream.sent) <= stream.sent && stream.Stuck()
        invariant stream.sent + outBuffer == old(stream.sent + outBuffer)
        decreases |outBuffer|
      {
        ghost var before := stream.sent;
        var wrote := stream.Write(outBuffer);
        match wrote {
          case Err(kind) => return Err(Io(kind));
          case Ok(n) =>
            if n == 0 { return Err(Io(ConnectionReset)); }
            assert outBuffer[..n] + outBuffer[n..] == outBuffer;
            Assoc(before, outBuffer[..n], outBuffer[n..]);
            outBuffer := outBuffer[n..];
        }
      }
      return Ok(());
    }
  }
}
