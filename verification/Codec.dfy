/** The compressor and the inflater of one connection (src/protocol/deflate/codec.rs). */
module Codec {
  import opened Bytes
  import opened Lz
  import opened Frames
  import opened DeflateSettings

  datatype Status = StatusOk | StatusBufError | StatusStreamEnd

  /** Did the codec move, and may it be called again? */
  function Progress(status: Status, consumed: nat, produced: nat): Result<bool, Error> {
    if consumed != 0 || produced != 0 then Ok(true)
    else match status
      case StatusOk => Err(Protocol(Compression))
      case StatusBufError => Ok(false)
      case StatusStreamEnd => Ok(false)
  }

  // ----- Compression -----

  datatype Deflated = Deflated(status: Status, consumed: nat, produced: bytes)

  /**
   * A one-way compressor. Which tokens it picks, how much it takes and gives at a time and
   * whether it breaks down are left open.
   */
  class Compressor {
    const size: nat
    var hist: bytes
    /** Output not yet handed over. */
    var pending: bytes
    /** The pending output ends with a completed flush. */
    var synced: bool

    ghost predicate Valid() reads this { |hist| <= size }
    ghost predicate Idle() reads this { Valid() && pending == [] }

    constructor (size: nat)
      ensures Valid() && Idle() && this.size == size && hist == []
    {
      this.size := size;
      hist := [];
      pending := [];
      synced := false;
    }

    method Reset()
      modifies this
      ensures Idle() && hist == []
    {
      hist := [];
      pending := [];
      synced := false;
    }

    /** A breakdown: nothing is known of the stream afterwards. */
    method BreakDown()
      requires Valid()
      modifies this
      ensures Valid()
    {
      var none: bytes := [];
      assert |none| <= size;
      var wreck: bytes :| |wreck| <= size;
      var output: bytes, flag: bool :| true;
      hist, pending, synced := wreck, output, flag;
    }

    /** The tokens for `chunk` are any that spell it; literals always do. */
    method ChooseTokens(chunk: bytes) returns (ts: seq<Token>)
      ensures AreTokens(ts) && Expand(hist, size, ts) == Some(chunk)
    {
      LiteralsSpell(hist, size, chunk);
      ts :| AreTokens(ts) && Expand(hist, size, ts) == Some(chunk);
    }

    /** Hands over a part of the pending output, some of it if there is any. */
    method Drain() returns (out: bytes)
      modifies this`pending
      ensures out + pending == old(pending)
      ensures out == [] ==> pending == []
    {
      var give: nat :| give <= |pending| && (give == 0 ==> pending == []);
      out := pending[..give];
      pending := pending[give..];
    }

    /**
     * One call without flush on non-empty input. It may take any part of the input and hand over any
     * part of the output, or stall; with room for output it never claims to be done.
     */
    method Take(input: bytes) returns (r: Result<Deflated, Error>, ghost ts: seq<Token>)
      requires Valid() && input != []
      modifies this
      ensures Valid() && AreTokens(ts)
      ensures r.Ok? ==>
        && r.value.consumed <= |input|
        && Expand(old(hist), size, ts) == Some(input[..r.value.consumed])
        && hist == Slide(old(hist), input[..r.value.consumed], size)
        && r.value.produced + pending == old(pending) + Serialize(ts)
        && (synced ==> old(synced) && r.value.consumed == 0)
        && (r.value.consumed == 0 ==> ts == [] && hist == old(hist))
        && (r.value.consumed == 0 && r.value.produced == [] ==> r.value.status.StatusOk?)
    {
      ts := [];
      var broken: bool :| true;
      if broken {
        BreakDown();
        return Err(Protocol(Compression)), ts;
      }
      assert 0 <= |input|;
      var take: nat :| take <= |input|;
      if take == 0 {
        SlideNothing(hist, size);
        assert input[..0] == [] && pending + [] == pending;
        var give: nat :| give <= |pending|;
        var out := pending[..give];
        pending := pending[give..];
        return Ok(Deflated(StatusOk, 0, out)), ts;
      }
      var chunk := input[..take];
      var chosen := ChooseTokens(chunk);
      ts := chosen;
      hist := Slide(hist, chunk, size);
      pending := pending + Serialize(chosen);
      synced := false;
      var out := Drain();
      return Ok(Deflated(StatusOk, take, out)), ts;
    }

    /** One call with a sync flush and no input. It may stall, or stop early and claim to be done. */
    method Sync() returns (r: Result<Deflated, Error>)
      requires Valid()
      modifies this
      ensures Valid()
      ensures r.Ok? ==>
        && hist == old(hist) && synced && r.value.consumed == 0
        && r.value.produced + pending == old(pending) + (if old(synced) then [] else MARK)
        && (old(synced) ==> |pending| < |old(pending)| || r.value.produced == [])
    {
      var broken: bool :| true;
      if broken {
        BreakDown();
        return Err(Protocol(Compression));
      }
      if !synced {
        pending := pending + MARK;
        synced := true;
      }
      var stall: bool :| true;
      if stall || pending == [] {
        var status: Status :| status.StatusOk? || status.StatusBufError?;
        return Ok(Deflated(status, 0, []));
      }
      var out := Drain();
      return Ok(Deflated(StatusOk, 0, out));
    }
  }

  // ----- Inflation -----

  /** The outcome of inflating, with `held` bytes of the message already held. */
  function Judge(g: Fed, held: nat, maxSize: nat): Result<(bytes, Inflater), Error> {
    if SaturatingAdd(held, |g.out|) > maxSize then Err(MessageTooLong(maxSize + 1, maxSize))
    else if g.next.None? then Err(Protocol(Compression))
    else Ok((g.out, g.next.value))
  }

  datatype Inflated = Inflated(status: Status, consumed: nat, produced: bytes)

  /** An inflater fed through a bounded output buffer. */
  class Decompressor {
    var size: nat
    var hist: bytes
    var pend: bytes
    /** Decoded and not yet handed over. */
    var queue: bytes
    /** A stream end was reached; only a reset may follow. */
    var ended: bool

    ghost predicate Valid() reads this { |hist| <= size && (ended ==> queue == []) }

    /** The state between bytes, seen after the reset that follows a stream end. */
    function State(): Inflater reads this {
      if ended then Inflater(size, [], []) else Inflater(size, hist, pend)
    }

    /** Everything that is still to come out if `input` follows. */
    function Work(input: bytes): Fed reads this {
      var f := Feed(State(), input);
      Fed(queue + f.out, f.next)
    }

    constructor (size: nat)
      ensures Valid() && !ended && queue == [] && State() == Inflater(size, [], [])
    {
      this.size := size;
      hist := [];
      pend := [];
      queue := [];
      ended := false;
    }

    /** `Decompress::reset` takes no width: it always restores the full window. */
    method Reset()
      modifies this
      ensures Valid() && !ended && queue == [] && State() == Inflater(32768, [], [])
    {
      size := 32768;
      hist := [];
      pend := [];
      queue := [];
      ended := false;
    }

    /** Takes one byte of input; `rest` is what follows it. */
    method TakeByte(b: byte, ghost rest: bytes) returns (ok: bool)
      requires Valid() && !ended && queue == []
      modifies this`hist, this`pend, this`queue, this`ended
      ensures Valid()
      ensures ok ==> Work(rest) == old(Work([b] + rest))
      ensures !ok ==> old(Work([b] + rest)) == Fed([], None)
    {
      var s := pend + [b];
      ghost var first := FeedByte(State(), b);
      assert ([b] + rest)[1..] == rest;
      assert [] + Feed(State(), [b] + rest).out == Feed(State(), [b] + rest).out;
      match Lex(s) {
        case Pending => pend := s;
        case TokenRead(t) =>
          match Resolve(t, hist) {
            case None => return false;
            case Some(piece) =>
              hist := Slide(hist, piece, size);
              pend := [];
              queue := piece;
          }
        case MarkRead => pend := [];
        case EndRead => ended := true;
        case Malformed => return false;
      }
      assert queue == first.out && State() == first.next.value;
      return true;
    }

    /** Hands over decoded bytes, as many as fit. */
    method HandOver(room: nat, ghost rest: bytes) returns (out: bytes)
      requires Valid() && queue != [] && room > 0
      modifies this`queue
      ensures Valid() && 1 <= |out| <= room
      ensures out + Work(rest).out == old(Work(rest)).out && Work(rest).next == old(Work(rest)).next
    {
      var n := Min(|queue|, room);
      out := queue[..n];
      ghost var f := Feed(State(), rest).out;
      assert queue + f == out + (queue[n..] + f);
      queue := queue[n..];
    }

    /**
     * One call: greedy in input and output, but never past a full buffer or a stream end.
     * What is not handed over now is still to come.
     */
    method Decompress(input: bytes, writable: nat) returns (r: Result<Inflated, Error>)
      requires Valid() && !ended && writable > 0
      modifies this`hist, this`pend, this`queue, this`ended
      ensures Valid()
      ensures r.Ok? ==>
        && r.value.consumed <= |input| && |r.value.produced| <= writable
        && r.value.produced + Work(input[r.value.consumed..]).out == old(Work(input)).out
        && Work(input[r.value.consumed..]).next == old(Work(input)).next
        && (r.value.status.StatusStreamEnd? <==> ended)
        && (ended ==> r.value.consumed > 0)
        && (r.value.consumed == 0 && r.value.produced == [] ==>
              r.value.status.StatusBufError? && input == [] && queue == [])
      ensures r.Err? ==>
        r.error == Protocol(Compression) && old(Work(input)).next.None? && |old(Work(input)).out| < writable
    {
      hide Feed;
      var consumed: nat, produced: bytes := 0, [];
      ghost var whole := Work(input);
      assert input[0..] == input;
      assert [] + whole.out == whole.out;
      while !ended && |produced| < writable && (queue != [] || consumed < |input|)
        invariant Valid() && consumed <= |input| && |produced| <= writable
        invariant produced + Work(input[consumed..]).out == whole.out
        invariant Work(input[consumed..]).next == whole.next
        invariant ended ==> consumed > 0
        decreases |Work(input[consumed..]).out|, |input| - consumed
      {
        ghost var before := Work(input[consumed..]);
        if queue != [] {
          var out := HandOver(writable - |produced|, input[consumed..]);
          Assoc(produced, out, Work(input[consumed..]).out);
          produced := produced + out;
        } else {
          assert input[consumed..] == [input[consumed]] + input[consumed + 1..];
          var ok := TakeByte(input[consumed], input[consumed + 1..]);
          if !ok { return Err(Protocol(Compression)); }
          consumed := consumed + 1;
        }
      }
      var status :=
        if ended then StatusStreamEnd
        else if consumed == 0 && produced == [] then StatusBufError
        else StatusOk;
      return Ok(Inflated(status, consumed, produced));
    }
  }

  predicate ReconstructsOnReset(windowBits: nat) { windowBits < 15 }

  function WindowSize(bits: nat): nat { Pow2(bits) }

  lemma WindowSize15()
    ensures WindowSize(15) == 32768
  {
    assert Pow2(8) == 256;
  }

  /** The decoder remembers its window, because a reset of the stream would widen it. */
  class ConfiguredDecoder {
    var stream: Decompressor
    const windowBits: nat

    ghost predicate Valid() reads this, stream {
      stream.Valid() && 9 <= windowBits <= 15 && stream.size == WindowSize(windowBits)
    }

    /** Between calls: nothing decoded is waiting. */
    ghost predicate Idle() reads this, stream { Valid() && !stream.ended && stream.queue == [] }

    function State(): Inflater reads this, stream { stream.State() }

    constructor (role: Role, settings: Settings)
      requires settings.WindowsAtMost15()
      ensures Idle() && fresh(stream)
      ensures windowBits == Max(9, settings.PeerWindow(role))
      ensures State() == Inflater(WindowSize(windowBits), [], [])
    {
      windowBits := Max(9, settings.PeerWindow(role));
      stream := new Decompressor(WindowSize(Max(9, settings.PeerWindow(role))));
    }

    ghost function Work(input: bytes): Fed reads this, stream { stream.Work(input) }

    method Decompress(input: bytes, writable: nat) returns (r: Result<Inflated, Error>)
      requires Valid() && !stream.ended && writable > 0
      modifies stream
      ensures Valid() && stream.size == old(stream.size)
      ensures r.Ok? ==>
        && r.value.consumed <= |input| && |r.value.produced| <= writable
        && r.value.produced + Work(input[r.value.consumed..]).out == old(Work(input)).out
        && Work(input[r.value.consumed..]).next == old(Work(input)).next
        && (r.value.status.StatusStreamEnd? <==> stream.ended)
        && (stream.ended ==> r.value.consumed > 0)
        && (r.value.consumed == 0 && r.value.produced == [] ==>
              r.value.status.StatusBufError? && input == [] && stream.queue == [])
      ensures r.Err? ==>
        r.error == Protocol(Compression) && old(Work(input)).next.None? && |old(Work(input)).out| < writable
    {
      r := stream.Decompress(input, writable);
    }

    method Reset()
      requires Valid()
      modifies this, stream
      ensures Idle() && fresh({stream} - {old(stream)})
      ensures State() == Inflater(WindowSize(windowBits), [], [])
      ensures old(stream.ended) ==> State() == old(State())
    {
      if ReconstructsOnReset(windowBits) {
        stream := new Decompressor(WindowSize(windowBits));
      } else {
        stream.Reset();
        WindowSize15();
      }
    }
  }

  // ----- The context of one connection -----

  /** `Context::decompress` on the decoder's state. */
  function DecompressSpec(d: Inflater, resetDecoder: bool, input: bytes, final: bool,
                          already: nat, maxSize: Option<nat>): Result<(bytes, Inflater), Error> {
    match Judge(Feed(d, if final then input + TRAILER else input), already, Limit(maxSize))
    case Err(e) => Err(e)
    case Ok(pair) => Ok((pair.0, if final && resetDecoder then Inflater(d.size, [], []) else pair.1))
  }

  /** Judging in two steps, the payload and then the trailer, is judging once. */
  lemma JudgeInTwoSteps(d: Inflater, a: bytes, b: bytes, held: nat, maxSize: nat)
    requires held <= maxSize <= USIZE_MAX
    ensures Judge(Feed(d, a + b), held, maxSize) ==
      match Judge(Feed(d, a), held, maxSize)
      case Err(e) => Err(e)
      case Ok(first) =>
        match Judge(Feed(first.1, b), Min(held + |first.0|, USIZE_MAX), maxSize)
        case Err(e) => Err(e)
        case Ok(second) => Ok((first.0 + second.0, second.1))
  {
    FeedAppend(d, a, b);
  }

  class Context {
    const encoder: Compressor
    const decoder: ConfiguredDecoder
    const resetEncoder: bool
    const resetDecoder: bool

    ghost function Repr(): set<object> reads this, decoder { {this, encoder, decoder, decoder.stream} }

    ghost predicate Valid() reads this, Repr() {
      encoder.Valid() && decoder.Idle()
    }

    /** The encoder is between messages, with no history if it resets after each. */
    ghost predicate EncoderReady() reads this, Repr() {
      Valid() && encoder.Idle() && (resetEncoder ==> encoder.hist == [])
    }

    constructor (role: Role, settings: Settings)
      requires settings.WindowsAtMost15() && settings.OwnWindow(role) >= 9
      ensures Valid() && EncoderReady() && fresh(Repr())
      ensures encoder.hist == [] && encoder.size == WindowSize(settings.OwnWindow(role))
      ensures decoder.State() == Inflater(WindowSize(Max(9, settings.PeerWindow(role))), [], [])
      ensures resetEncoder == settings.OwnNoContextTakeover(role)
      ensures resetDecoder == settings.PeerNoContextTakeover(role)
    {
      encoder := new Compressor(WindowSize(settings.OwnWindow(role)));
      decoder := new ConfiguredDecoder(role, settings);
      resetEncoder := settings.OwnNoContextTakeover(role);
      resetDecoder := settings.PeerNoContextTakeover(role);
    }

    method ResetEncoder()
      requires Valid()
      modifies encoder
      ensures Valid() && EncoderReady() && encoder.hist == []
    {
      encoder.Reset();
    }

    /** The tokens so far spell what was consumed, and the history has seen it. */
    ghost predicate Spells(start: bytes, ts: seq<Token>, done: bytes) reads this, encoder {
      && AreTokens(ts)
      && Expand(start, encoder.size, ts) == Some(done)
      && encoder.hist == Slide(start, done, encoder.size)
    }

    /** What was pending and what is added is what was handed over and what is pending now. */
    static lemma Conserve(output: bytes, before: bytes, produced: bytes, after: bytes, added: bytes)
      requires produced + after == before + added
      ensures output + produced + after == output + before + added
    {
      assert output + produced + after == output + (produced + after);
    }

    static lemma SpellMore(start: bytes, size: nat, ts: seq<Token>, done: bytes, more: seq<Token>, chunk: bytes)
      requires AreTokens(ts) && AreTokens(more) && |start| <= size
      requires Expand(start, size, ts) == Some(done) && Expand(Slide(start, done, size), size, more) == Some(chunk)
      ensures AreTokens(ts + more) && Expand(start, size, ts + more) == Some(done + chunk)
      ensures Serialize(ts + more) == Serialize(ts) + Serialize(more)
      ensures Slide(Slide(start, done, size), chunk, size) == Slide(start, done + chunk, size)
    {
      ExpandAppend(start, size, ts, more, done);
      SerializeAppend(ts, more);
      SlideTwice(start, done, chunk, size);
    }

    lemma SpellNothing()
      requires Valid()
      ensures Spells(encoder.hist, [], []) && Serialize([]) == []
    {
      SlideNothing(encoder.hist, encoder.size);
    }

    /** One turn of the first loop, with what the turns before it have established. */
    method CompressTurn(input: bytes, ghost output: bytes, ghost start: bytes, ghost ts: seq<Token>, ghost done: bytes)
      returns (r: Result<Deflated, Error>, ghost ts': seq<Token>)
      requires Valid() && input != [] && |start| <= encoder.size
      requires Spells(start, ts, done) && output + encoder.pending == Serialize(ts)
      modifies encoder
      ensures Valid()
      ensures r.Ok? ==>
        && r.value.consumed <= |input|
        && (encoder.synced ==> old(encoder.synced) && r.value.consumed == 0)
        && Spells(start, ts', done + input[..r.value.consumed])
        && output + r.value.produced + encoder.pending == Serialize(ts')
        && (r.value.consumed == 0 ==>
              && |encoder.pending| + |r.value.produced| == old(|encoder.pending|)
              && (r.value.produced == [] ==> r.value.status.StatusOk?))
    {
      ghost var pending := encoder.pending;
      ghost var more;
      r, more := encoder.Take(input);
      ts' := ts;
      if r.Ok? {
        SpellMore(start, encoder.size, ts, done, more, input[..r.value.consumed]);
        Conserve(output, pending, r.value.produced, encoder.pending, Serialize(more));
        ts' := ts + more;
      }
    }

    /** The first loop of `compress`: hand over the whole message. */
    method CompressInput(message: bytes) returns (r: Result<bytes, Error>, ghost ts: seq<Token>)
      requires EncoderReady() && message != []
      modifies encoder
      ensures Valid()
      ensures r.Ok? ==>
        && Spells(old(encoder.hist), ts, message) && !encoder.synced
        && r.value + encoder.pending == Serialize(ts)
      ensures r.Err? ==> r.error == Protocol(Compression)
    {
      hide Slide, Expand, Serialize;
      ghost var start := encoder.hist;
      var input, output: bytes := message, [];
      ghost var done: bytes := [];
      ts := [];
      SpellNothing();
      while input != []
        invariant Valid() && (done == [] || !encoder.synced)
        invariant Spells(start, ts, done) && done + input == message
        invariant output + encoder.pending == Serialize(ts)
        decreases |input|, |encoder.pending|
      {
        var step;
        step, ts := CompressTurn(input, output, start, ts, done);
        if step.Err? { return Err(Protocol(Compression)), ts; }
        var consumed := step.value.consumed;
        Assoc(done, input[..consumed], input[consumed..]);
        assert input[..consumed] + input[consumed..] == input;
        output := output + step.value.produced;
        done := done + input[..consumed];
        input := input[consumed..];
        var again := Progress(step.value.status, consumed, |step.value.produced|);
        if again.Err? { return Err(Protocol(Compression)), ts; }
        if !again.value { break; }
      }
      assert done == message;
      return Ok(output), ts;
    }

    /** The second loop of `compress`: flush until the compressor has no more to give. */
    method CompressFlush(head: bytes, ghost whole: bytes) returns (r: Result<bytes, Error>)
      requires Valid() && !encoder.synced && head + encoder.pending == whole
      modifies encoder
      ensures Valid()
      ensures r.Ok? ==> r.value + encoder.pending == whole + MARK && encoder.hist == old(encoder.hist)
      ensures r.Err? ==> r.error == Protocol(Compression)
    {
      var output := head;
      while true
        invariant Valid() && encoder.hist == old(encoder.hist)
        invariant output + encoder.pending == whole + (if encoder.synced then MARK else [])
        decreases !encoder.synced, |encoder.pending|
      {
        ghost var before := encoder.pending + (if encoder.synced then [] else MARK);
        assert output + before == whole + MARK;
        var step := encoder.Sync();
        if step.Err? { return Err(Protocol(Compression)); }
        assert output + (step.value.produced + encoder.pending) == whole + MARK;
        output := output + step.value.produced;
        var again := Progress(step.value.status, 0, |step.value.produced|);
        if again.Err? { return Err(Protocol(Compression)); }
        if !again.value { return Ok(output); }
      }
    }

    /**
     * Success is a complete compressed message and an advanced history. Failure promises nothing
     * about the encoder, which is why the caller resets it.
     */
    method Compress(message: bytes) returns (r: Result<bytes, Error>)
      requires EncoderReady()
      modifies encoder
      ensures Valid()
      ensures r.Ok? ==>
        && EncoderReady()
        && IsCompressed(old(encoder.hist), encoder.size, message, r.value)
        && encoder.hist == if resetEncoder then [] else Slide(old(encoder.hist), message, encoder.size)
      ensures r.Err? ==> r.error == Protocol(Compression)
    {
      ghost var start, size := encoder.hist, encoder.size;
      if message == [] {
        assert [0] == Serialize([]) + [0];
        assert IsCompressed(start, size, message, [0]);
        SlideNothing(start, size);
        return Ok([0]);
      }
      var taken, ts := CompressInput(message);
      if taken.Err? { return taken; }
      var flushed := CompressFlush(taken.value, Serialize(ts));
      if flushed.Err? { return flushed; }
      var output := flushed.value;
      ghost var all := Serialize(ts) + MARK;
      assert all[..|output|] == output;
      if !EndsWith(output, TRAILER) {
        encoder.Reset();
        return Err(Protocol(Compression));
      }
      TrailerOnlyAtTheEnd(ts, |output|);
      output := output[..|output| - |TRAILER|];
      assert output == Serialize(ts) + [0];
      if resetEncoder {
        encoder.Reset();
      }
      return Ok(output);
    }

    /**
     * The bounded inflate loop. It never holds more than one byte over budget, an overrun
     * reports exactly `maxSize + 1`, and each turn takes from the output still to come or from
     * the input still to read.
     */
    method Inflate(payload: bytes, already: nat, maxSize: nat, sofar: bytes) returns (r: Result<bytes, Error>)
      requires Valid() && SaturatingAdd(already, |sofar|) <= maxSize <= USIZE_MAX
      modifies decoder, decoder.stream
      ensures decoder.Valid() && fresh({decoder.stream} - {old(decoder.stream)})
      ensures decoder.State().size == old(decoder.State().size)
      ensures r.Ok? ==>
        && r.value == sofar + old(decoder.Work(payload)).out
        && old(decoder.Work(payload)).next == Some(decoder.State()) && decoder.Idle()
        && SaturatingAdd(already, |r.value|) <= maxSize
      ensures r.Err? ==>
        var size := SaturatingAdd(already, |sofar| + |old(decoder.Work(payload)).out|);
        if size > maxSize then r.error == MessageTooLong(maxSize + 1, maxSize)
        else r.error == Protocol(Compression) && old(decoder.Work(payload)).next.None?
    {
      var input, output := payload, sofar;
      ghost var whole := decoder.Work(payload);
      while true
        invariant decoder.Valid() && !decoder.stream.ended && fresh({decoder.stream} - {old(decoder.stream)})
        invariant output + decoder.Work(input).out == sofar + whole.out
        invariant decoder.Work(input).next == whole.next
        invariant SaturatingAdd(already, |output|) <= maxSize
        invariant |output| >= |sofar|
        decreases |decoder.Work(input).out|, |input|
      {
        var remaining := SaturatingSub(maxSize, SaturatingAdd(already, |output|));
        var writable := Min(SaturatingAdd(remaining, 1), 4096);
        ghost var before := decoder.Work(input);
        assert |output| + |before.out| == |sofar| + |whole.out|;
        var step := decoder.Decompress(input, writable);
        if step.Err? { return Err(Protocol(Compression)); }
        var status, consumed, produced := step.value.status, step.value.consumed, step.value.produced;
        assert output + before.out == output + produced + decoder.Work(input[consumed..]).out;
        output := output + produced;
        if SaturatingAdd(already, |output|) > maxSize {
          return Err(MessageTooLong(SaturatingAdd(already, |output|), maxSize));
        }
        input := input[consumed..];
        if status.StatusStreamEnd? {
          decoder.Reset();
        }
        var again := Progress(status, consumed, |produced|);
        if again.Err? { return Err(Protocol(Compression)); }
        if !again.value {
          assert decoder.Work([]) == Fed([], Some(decoder.State()));
          assert output == sofar + whole.out;
          return Ok(output);
        }
      }
    }

    /** `inflate` on an idle decoder is one judgement of the whole input. */
    method InflateWhole(payload: bytes, already: nat, maxSize: nat, sofar: bytes) returns (r: Result<bytes, Error>)
      requires Valid() && SaturatingAdd(already, |sofar|) <= maxSize <= USIZE_MAX
      modifies decoder, decoder.stream
      ensures decoder.Valid() && fresh({decoder.stream} - {old(decoder.stream)})
      ensures decoder.State().size == old(decoder.State()).size
      ensures var j := Judge(Feed(old(decoder.State()), payload), SaturatingAdd(already, |sofar|), maxSize);
              if j.Err? then r == Err(j.error)
              else r == Ok(sofar + j.value.0) && decoder.State() == j.value.1 && decoder.Idle()
    {
      ghost var f := Feed(decoder.State(), payload);
      assert [] + f.out == f.out;
      r := Inflate(payload, already, maxSize, sofar);
    }

    method Decompress(input: bytes, final: bool, already: nat, maxSize: Option<nat>) returns (r: Result<bytes, Error>)
      requires Valid() && already <= Limit(maxSize) <= USIZE_MAX
      modifies decoder, decoder.stream
      ensures decoder.Valid() && fresh({decoder.stream} - {old(decoder.stream)})
      ensures var spec := DecompressSpec(old(decoder.State()), resetDecoder, input, final, already, maxSize);
              if spec.Err? then r == Err(spec.error)
              else r == Ok(spec.value.0) && decoder.State() == spec.value.1 && decoder.Idle()
    {
      hide Feed;
      var limit := Limit(maxSize);
      if final { JudgeInTwoSteps(decoder.State(), input, TRAILER, already, limit); }
      ghost var first := Judge(Feed(decoder.State(), input), already, limit);
      assert first.Ok? ==> [] + first.value.0 == first.value.0;
      r := InflateWhole(input, already, limit, []);
      if r.Err? || !final { return; }
      r := InflateWhole(TRAILER, already, limit, r.value);
      if r.Ok? && resetDecoder {
        decoder.Reset();
      }
    }
  }
}
