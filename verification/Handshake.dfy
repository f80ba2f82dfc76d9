/**
 * The handshake driver (src/handshake/machine.rs, src/handshake/mod.rs, src/buffer.rs, and the two
 * `stage_finished` of src/handshake/client.rs and src/handshake/server.rs).
 */
module Handshakes {
  import opened Bytes
  import opened Frames
  import opened Streams
  import opened FrameCodecs
  import opened DeflateSettings
  import opened ExtensionHeaders
  import opened Negotiate
  import opened Receiving
  import opened Sending
  import opened Connections

  // ----- The read buffer -----

  const CHUNK_SIZE: nat := 4096

  /** A queue of bytes: filled at the end of `storage`, read at `position`. */
  class ReadBuffer {
    var storage: bytes
    var position: nat

    ghost predicate Valid() reads this { position <= |storage| }

    /** What is there to be read. */
    function Chunk(): bytes
      reads this
      requires Valid()
    {
      storage[position..]
    }

    constructor FromPartiallyRead(part: bytes)
      ensures Valid() && Chunk() == part
    {
      storage, position := part, 0;
    }

    /** Forgets what was read, and nothing else. */
    method CleanUp()
      requires Valid()
      modifies this
      ensures Valid() && Chunk() == old(Chunk()) && storage == Chunk() && position == 0
    {
      storage := storage[position..];
      position := 0;
    }

    method ReadFrom(stream: Stream) returns (r: Result<nat, IoKind>)
      requires Valid()
      modifies this, stream`incoming, stream`delivered, stream`ended
      ensures Valid() && old(stream.delivered) <= stream.delivered
      ensures Chunk() == old(Chunk()) + Since(old(stream.delivered), stream.delivered)
      ensures r.Ok? ==> |stream.delivered| == |old(stream.delivered)| + r.value && (r.value == 0 ==> stream.ended)
      ensures r.Err? ==> stream.delivered == old(stream.delivered)
    {
      CleanUp();
      var got := stream.Read(CHUNK_SIZE);
      if got.Err? { return Err(got.error); }
      storage := storage + got.value;
      return Ok(|got.value|);
    }

    method Advance(count: nat)
      requires Valid() && count <= |Chunk()|
      modifies this`position
      ensures Valid() && Chunk() == old(Chunk())[count..]
    {
      position := position + count;
    }

    /** The bytes not yet read, and no others. */
    method IntoVec() returns (rest: bytes)
      requires Valid()
      modifies this
      ensures rest == old(Chunk())
    {
      CleanUp();
      rest := storage;
    }
  }

  // ----- Attack mitigation -----

  const MAX_BYTES: nat := 65536
  const MAX_PACKETS: nat := 512
  const MIN_PACKET_SIZE: nat := 128
  const MIN_PACKET_CHECK_THRESHOLD: nat := 64

  class AttackCheck {
    var numberOfPackets: nat
    var numberOfBytes: nat

    /** What the packets accepted so far amount to. */
    predicate Harmless() reads this {
      && numberOfBytes <= MAX_BYTES && numberOfPackets <= MAX_PACKETS
      && (numberOfPackets > MIN_PACKET_CHECK_THRESHOLD ==> numberOfPackets * MIN_PACKET_SIZE <= numberOfBytes)
    }

    constructor ()
      ensures Harmless() && numberOfPackets == 0 && numberOfBytes == 0
    {
      numberOfPackets, numberOfBytes := 0, 0;
    }

    method CheckIncomingPacketSize(size: nat) returns (ok: bool)
      modifies this
      ensures numberOfPackets == old(numberOfPackets) + 1 && numberOfBytes == old(numberOfBytes) + size
      ensures ok <==> Harmless()
    {
      numberOfPackets, numberOfBytes := numberOfPackets + 1, numberOfBytes + size;
      if numberOfBytes > MAX_BYTES { return false; }
      if numberOfPackets > MAX_PACKETS { return false; }
      if numberOfPackets > MIN_PACKET_CHECK_THRESHOLD && numberOfPackets * MIN_PACKET_SIZE > numberOfBytes {
        return false;
      }
      return true;
    }
  }

  // ----- One round -----

  datatype HandshakeError =
    | HandshakeIncomplete
    | AttackAttempt
    | JunkAfterRequest
    | Malformed
    | BadExtensions
    | Refused(body: Option<bytes>)
    | HandshakeIo(kind: IoKind)
    /** The assertion that a write which did not block wrote something. */
    | NothingWritten

  /** `TryParse`: any judgement of the bytes so far, as long as it claims no byte beyond them. */
  type Parser<!Obj> = bytes -> Result<Option<(nat, Obj)>, HandshakeError>

  ghost predicate IsParser<Obj(!new)>(parse: Parser<Obj>) {
    forall s: bytes :: parse(s).Ok? && parse(s).value.Some? ==> parse(s).value.value.0 <= |s|
  }

  datatype HandshakeState =
    | Reading(buf: ReadBuffer, check: AttackCheck)
    | Writing(data: bytes, written: nat)
    | Flushing

  datatype Round<+Obj> =
    | Blocked
    | Again
    | DoneReading(obj: Obj, tail: bytes)
    | DoneWriting
    | Failed(error: HandshakeError)

  class HandshakeMachine {
    const stream: Stream
    var state: HandshakeState
    /** What had gone through the stream, in the direction of this stage, before the stage began. */
    ghost const start: bytes

    ghost function Parts(): set<object> reads this {
      match state case Reading(buf, check) => {buf, check} case _ => {}
    }

    ghost predicate Valid() reads this, stream, Parts() {
      match state
      case Reading(buf, check) =>
        && buf.Valid() && check.Harmless()
        && start <= stream.delivered && buf.Chunk() == Since(start, stream.delivered)
        && check.numberOfBytes == |buf.Chunk()|
      case Writing(data, written) => written < |data| && stream.sent == start + data[..written]
      case Flushing => true
    }

    /** Work left in this stage, while nothing blocks. */
    ghost function Left(): nat
      reads this, Parts()
    {
      match state
      case Reading(_, check) => SaturatingSub(MAX_PACKETS, check.numberOfPackets)
      case Writing(data, written) => SaturatingSub(|data|, written)
      case Flushing => 0
    }

    constructor StartRead(stream: Stream)
      ensures Valid() && state.Reading? && fresh(Parts()) && this.stream == stream && start == stream.delivered
    {
      this.stream, start := stream, stream.delivered;
      var buf := new ReadBuffer.FromPartiallyRead([]);
      var check := new AttackCheck();
      state := Reading(buf, check);
    }

    constructor StartWrite(stream: Stream, data: bytes)
      requires data != []
      ensures Valid() && state == Writing(data, 0) && this.stream == stream && start == stream.sent
    {
      this.stream, start := stream, stream.sent;
      state := Writing(data, 0);
      new;
      assert stream.sent + [] == stream.sent;
    }

    /**
     * One read, write or flush. A round that neither blocks nor finishes leaves less to do; what
     * was read is all still there, or handed on with only the parsed part removed.
     */
    method SingleRound<Obj(!new)>(parse: Parser<Obj>) returns (r: Round<Obj>)
      requires Valid() && IsParser(parse)
      modifies this`state, Parts(), stream
      ensures old(stream.delivered) <= stream.delivered && old(stream.sent) <= stream.sent
      ensures !old(state).Reading? ==> stream.delivered == old(stream.delivered)
      ensures !old(state).Writing? ==> stream.sent == old(stream.sent)
      ensures r.Blocked? ==>
        Valid() && state == old(state) && stream.delivered == old(stream.delivered) && stream.sent == old(stream.sent)
      ensures r.Again? ==>
        && Valid() && Parts() == old(Parts()) && Left() < old(Left())
        && if old(state).Reading? then state == old(state)
           else old(state).Writing? && ((state == Flushing && stream.sent == start + old(state).data)
                                        || (state.Writing? && state.data == old(state).data))
      ensures r.DoneReading? ==>
        && old(state).Reading? && start <= stream.delivered
        && var all := Since(start, stream.delivered);
           parse(all).Ok? && parse(all).value.Some? && parse(all).value.value.1 == r.obj
           && r.tail == all[parse(all).value.value.0..]
      ensures r.DoneWriting? ==> old(state).Flushing? && state == Flushing
    {
      match state {
        case Reading(buf, check) => r := ReadRound(parse);
        case Writing(data, written) => r := WriteRound();
        case Flushing =>
          var flushed := stream.Flush();
          r := if flushed.Ok? then DoneWriting
               else if flushed.error == WouldBlock then Blocked
               else Failed(HandshakeIo(flushed.error));
      }
    }

    method ReadRound<Obj(!new)>(parse: Parser<Obj>) returns (r: Round<Obj>)
      requires Valid() && IsParser(parse) && state.Reading?
      modifies Parts(), stream`incoming, stream`delivered, stream`ended
      ensures old(stream.delivered) <= stream.delivered && start <= stream.delivered
      ensures r.Blocked? ==> Valid() && stream.delivered == old(stream.delivered)
      ensures r.Again? ==> Valid() && Left() < old(Left())
      ensures r.DoneReading? ==>
        var all := Since(start, stream.delivered);
        && parse(all).Ok? && parse(all).value.Some? && parse(all).value.value.1 == r.obj
        && r.tail == all[parse(all).value.value.0..]
      ensures !r.DoneWriting?
    {
      var buf, check := state.buf, state.check;
      ghost var before := stream.delivered;
      var read := buf.ReadFrom(stream);
      SinceJoins([], start, before, stream.delivered);
      assert [] + Since(start, before) == Since(start, before);
      assert [] + Since(start, stream.delivered) == Since(start, stream.delivered);
      if read.Err? {
        return if read.error == WouldBlock then Blocked else Failed(HandshakeIo(read.error));
      }
      if read.value == 0 { return Failed(HandshakeIncomplete); }
      var ok := check.CheckIncomingPacketSize(read.value);
      if !ok { return Failed(AttackAttempt); }
      var parsed := parse(buf.Chunk());
      if parsed.Err? { return Failed(parsed.error); }
      if parsed.value.None? { return Again; }
      buf.Advance(parsed.value.value.0);
      var tail := buf.IntoVec();
      return DoneReading(parsed.value.value.1, tail);
    }

    method WriteRound<Obj>() returns (r: Round<Obj>)
      requires Valid() && state.Writing?
      modifies this`state, stream`outgoing, stream`sent
      ensures old(stream.sent) <= stream.sent
      ensures r.Blocked? ==> Valid() && state == old(state) && stream.sent == old(stream.sent)
      ensures r.Again? ==>
        && Valid() && Parts() == {} && Left() < old(Left())
        && ((state == Flushing && stream.sent == start + old(state).data)
            || (state.Writing? && state.data == old(state).data))
      ensures !r.DoneReading? && !r.DoneWriting?
    {
      var data, written := state.data, state.written;
      ghost var before := stream.sent;
      var wrote := stream.Write(data[written..]);
      if wrote.Err? {
        return if wrote.error == WouldBlock then Blocked else Failed(HandshakeIo(wrote.error));
      }
      if wrote.value == 0 { return Failed(NothingWritten); }
      WriteMore(start, before, data, written, wrote.value);
      if written + wrote.value < |data| {
        state := Writing(data, written + wrote.value);
      } else {
        state := Flushing;
      }
      return Again;
    }

    static lemma WriteMore(start: bytes, sent: bytes, data: bytes, written: nat, n: nat)
      requires written + n <= |data| && sent == start + data[..written]
      ensures sent + data[written..][..n] == start + data[..written + n]
      ensures written + n == |data| ==> data[..written + n] == data
    {
    }
  }

  // ----- The whole handshake -----

  /** What is wrong with a response, its extensions aside. */
  datatype Verdict =
    | BadStatus
    | Rejected(error: HandshakeError)

  /** What the server sends, given the extension header it agreed to. */
  datatype Reply =
    | Accept(output: bytes)
    | Decline(output: bytes, body: Option<bytes>)
    | Abort(error: HandshakeError)

  /**
   * The judgements this model leaves open: how bytes parse, which extension headers were parsed, and
   * everything about requests and responses but compression.
   */
  datatype Dialogue<!Obj> = Dialogue(
    parse: Parser<Obj>,
    extensions: Obj -> seq<bytes>,
    request: Option<bytes> -> bytes,
    verify: Obj -> Option<Verdict>,
    inventsDeflate: Obj -> bool,
    reply: (Obj, Option<bytes>) -> Reply)

  ghost predicate IsDialogue<Obj(!new)>(p: Dialogue<Obj>) {
    && IsParser(p.parse)
    && (forall offer :: p.request(offer) != [])
    && (forall o, header ::
          p.reply(o, header).Accept? || p.reply(o, header).Decline? ==> p.reply(o, header).output != [])
  }

  /** Compression as configured, before the handshake. */
  predicate IsConfigured(deflate: Option<Settings>) { deflate.Some? ==> deflate.value.BuilderValid() }

  /** What a client may end with, having read these extension headers. */
  predicate ClientAgreed(configured: Option<Settings>, headers: seq<bytes>, deflate: Option<Settings>) {
    if configured.None? then deflate.None? else Accepted(configured.value, headers) == Some(deflate)
  }

  /** What a server may end with, having read these offers, and the header it answers with. */
  ghost predicate ServerAgreed(configured: Option<Settings>, offers: seq<bytes>, deflate: Option<Settings>,
                               header: Option<bytes>)
    requires IsConfigured(configured)
  {
    if configured.None? then deflate.None? && header.None?
    else if deflate.None? || header.None? then
      deflate.None? && header.None? && IsChoice(configured.value, Answers(configured.value, offers), None)
    else IsChoice(configured.value, Answers(configured.value, offers), Some((deflate.value, header.value)))
  }

  lemma AcceptedIsUsable(s: Settings, headers: seq<bytes>)
    requires s.BuilderValid() && Accepted(s, headers).Some? && Accepted(s, headers).value.Some?
    ensures var agreed := Accepted(s, headers).value.value; agreed.WindowsAtMost15() && agreed.OwnWindow(Client) >= 9
  {
    ClientWindowsAreSafe(s, headers);
  }

  lemma AnswerIsUsable(s: Settings, offers: seq<bytes>, a: Answer)
    requires s.BuilderValid() && a in Answers(s, offers)
    ensures a.0.WindowsAtMost15() && a.0.OwnWindow(Server) >= 9
  {
    hide ParseExtension, Elements, Print, ResponseParams;
    AnswersAreAnswers(s, offers, a);
    var value: bytes, extension: bytes :|
      value in offers && extension in Elements(value) && AnswerToExtension(s, extension) == [a];
    DeflateIsPrintable(extension);
  }

  lemma ChosenIsUsable(s: Settings, offers: seq<bytes>, a: Answer)
    requires s.BuilderValid() && IsChoice(s, Answers(s, offers), Some(a))
    ensures a.0.WindowsAtMost15() && a.0.OwnWindow(Server) >= 9
  {
    AnswerIsUsable(s, offers, a);
  }

  /**
   * Two handshakes that heard each other. If the server read the client's offer and the client read the
   * server's answer, both end with the settings negotiation gives these two ends.
   */
  lemma HandshakesAgree(client: Settings, server: Settings, theirs: Option<Settings>, header: Option<bytes>,
                        ours: Option<Settings>)
    requires client.BuilderValid() && server.BuilderValid()
    requires ServerAgreed(Some(server), [Print(OfferParams(client))], theirs, header)
    requires ClientAgreed(Some(client), if header.Some? then [header.value] else [], ours)
    ensures theirs == Some(Negotiated(client, server, Server)) && ours == Some(Negotiated(client, server, Client))
  {
    EndpointsAgree(client, server);
    var answers := Answers(server, [Print(OfferParams(client))]);
    hide Print, OfferParams, Accepted, Answers;
    var r := if header.None? then None else Some((theirs.value, header.value));
    ChoiceIsUnique(server, answers, Some(answers[0]), r);
  }

  datatype Finished = Interrupted | Failure(error: HandshakeError) | Done(socket: WebSocketContext)

  class MidHandshake<Obj(!new)> {
    const role: Role
    const dialogue: Dialogue<Obj>
    const stream: Stream
    var config: WebSocketConfig
    var machine: HandshakeMachine
    /** Set when the server's answer refuses the client. */
    var errorResponse: Option<Option<bytes>>
    /** What had gone through the stream before the handshake. */
    ghost const readFrom: bytes
    ghost const sentFrom: bytes
    /** Compression as configured. */
    ghost const configured: Option<Settings>
    /** The bytes the parser has taken, and those this end has to send. */
    ghost var head: bytes
    ghost var output: bytes
    /** The server's extension header. */
    ghost var header: Option<bytes>

    ghost predicate Valid()
      reads this, stream, machine, machine.Parts()
    {
      && machine.stream == stream && machine.Valid() && IsDialogue(dialogue) && IsConfigured(configured)
      && readFrom <= stream.delivered && sentFrom <= stream.sent
      && (errorResponse.None? ==> config.Valid(role))
      && match role
         case Client => ClientStage()
         case Server => ServerStage()
    }

    ghost predicate ClientStage()
      reads this, stream, machine, machine.Parts()
    {
      && errorResponse.None? && head == [] && config.deflate == configured && IsConfigured(configured)
      && output == dialogue.request(OfferOf(configured))
      && (machine.state.Writing? ==>
            machine.state.data == output && machine.start == sentFrom && stream.delivered == readFrom)
      && (machine.state.Flushing? ==> stream.sent == sentFrom + output && stream.delivered == readFrom)
      && (machine.state.Reading? ==> stream.sent == sentFrom + output && machine.start == readFrom)
    }

    ghost predicate ServerStage()
      reads this, stream, machine, machine.Parts()
    {
      && (machine.state.Reading? ==>
            && stream.sent == sentFrom && machine.start == readFrom && errorResponse.None?
            && config.deflate == configured)
      && (machine.state.Writing? ==> machine.state.data == output && machine.start == sentFrom)
      && (machine.state.Flushing? ==> stream.sent == sentFrom + output)
      && (!machine.state.Reading? ==> stream.delivered == readFrom + head && Parses(head, |head|))
      && (!machine.state.Reading? && errorResponse.None? ==> Answered())
    }

    /** The header a client offers compression with. */
    static ghost function OfferOf(configured: Option<Settings>): Option<bytes>
      requires IsConfigured(configured)
    {
      match configured case None => None case Some(s) => Some(Print(OfferParams(s)))
    }

    ghost function Heard(all: bytes): Obj
      requires Parses(all, |head|)
      reads this
    {
      dialogue.parse(all).value.value.1
    }

    /** The server settled on what it says. */
    ghost predicate Answered()
      reads this
    {
      && IsConfigured(configured) && Parses(head, |head|)
      && ServerAgreed(configured, dialogue.extensions(Heard(head)), config.deflate, header)
      && dialogue.reply(Heard(head), header) == Accept(output)
    }

    /** The parser takes exactly the first `size` of these bytes. */
    ghost predicate Parses(all: bytes, size: nat)
    {
      dialogue.parse(all).Ok? && dialogue.parse(all).value.Some? && dialogue.parse(all).value.value.0 == size
    }

    /** Stages still to come, the present one included. */
    ghost function Stage(): nat
      reads this, machine
    {
      match machine.state
      case Reading(_, _) => if role.Client? then 0 else 3
      case Writing(_, _) => 2
      case Flushing => 1
    }

    constructor StartClient(stream: Stream, dialogue: Dialogue<Obj>, config: WebSocketConfig)
      requires IsDialogue(dialogue) && config.Valid(Client) && IsConfigured(config.deflate)
      ensures Valid() && role == Client && this.stream == stream && fresh(machine)
      ensures readFrom == stream.delivered && sentFrom == stream.sent && configured == config.deflate
    {
      var offer := None;
      if config.deflate.Some? {
        var printed := Negotiate.Offer(config.deflate.value);
        offer := Some(printed);
      }
      var request := dialogue.request(offer);
      role, this.dialogue, this.stream, this.config := Client, dialogue, stream, config;
      readFrom, sentFrom, configured := stream.delivered, stream.sent, config.deflate;
      head, output, errorResponse, header := [], request, None, None;
      machine := new HandshakeMachine.StartWrite(stream, request);
    }

    constructor StartServer(stream: Stream, dialogue: Dialogue<Obj>, config: WebSocketConfig)
      requires IsDialogue(dialogue) && config.Valid(Server) && IsConfigured(config.deflate)
      ensures Valid() && role == Server && this.stream == stream && fresh(machine) && fresh(machine.Parts())
      ensures readFrom == stream.delivered && sentFrom == stream.sent && configured == config.deflate
    {
      role, this.dialogue, this.stream, this.config := Server, dialogue, stream, config;
      readFrom, sentFrom, configured := stream.delivered, stream.sent, config.deflate;
      head, output, errorResponse, header := [], [], None, None;
      machine := new HandshakeMachine.StartRead(stream);
    }

    /** Everything to send was sent, and everything read is the parsed head or the connection's input. */
    ghost predicate HandedOver(socket: WebSocketContext)
      reads this, stream, socket, socket.Repr, socket.frame
    {
      && socket.Valid() && socket.role == role && socket.state == Active
      && stream.sent == sentFrom + output
      && stream.delivered == readFrom + head + socket.frame.Unconsumed()
      && Parses(head + socket.frame.Unconsumed(), |head|)
      && (role.Server? ==> socket.frame.Unconsumed() == [])
      && IsConfigured(configured)
      && (role.Client? ==>
            && output == dialogue.request(OfferOf(configured))
            && ClientAgreed(configured, dialogue.extensions(Heard(head + socket.frame.Unconsumed())),
                            socket.config.deflate))
      && (role.Server? ==> Answered() && socket.config == config)
    }

    /**
     * Runs rounds until one blocks, fails or finishes the last stage; it always ends. When it is
     * done no byte was lost: on the server none came behind the request, and on the client those
     * behind the response are the input the connection starts with. Compression is what negotiation
     * makes of the configuration and of the headers that were read.
     */
    method Handshake() returns (r: Finished)
      requires Valid()
      modifies this, machine, machine.Parts(), stream
      ensures r.Interrupted? ==> Valid() && fresh({machine} + machine.Parts() - old({machine} + machine.Parts()))
      ensures r.Done? ==> HandedOver(r.socket) && fresh(r.socket.Repr)
    {
      hide Answered, HandedOver, ClientStage, ServerStage, IsDialogue, WebSocketConfig.Valid;
      while true
        invariant Valid()
        invariant fresh({machine} + machine.Parts() - old({machine} + machine.Parts()))
        decreases Stage(), machine.Left()
      {
        var finished := OneTurn();
        if finished.Some? { return finished.value; }
      }
    }

    /** A round and what follows it: the end, or less to do. */
    method OneTurn() returns (r: Option<Finished>)
      requires Valid()
      modifies this, machine, machine.Parts(), stream
      ensures r.None? || r == Some(Interrupted) ==>
        Valid() && fresh({machine} + machine.Parts() - old({machine} + machine.Parts()))
      ensures r.None? ==> Stage() < old(Stage()) || (Stage() == old(Stage()) && machine.Left() < old(machine.Left()))
      ensures r.Some? && r.value.Done? ==> HandedOver(r.value.socket) && fresh(r.value.socket.Repr)
    {
      hide HandedOver;
      var round := machine.SingleRound(dialogue.parse);
      if round.Blocked? { return Some(Interrupted); }
      if round.Failed? { return Some(Failure(round.error)); }
      if round.Again? { return None; }
      if round.DoneReading? {
        if role.Client? {
          var done := ClientDone(round.obj, round.tail);
          return Some(done);
        }
        var error := RequestRead(round.obj, round.tail);
        if error.Some? { return Some(Failure(error.value)); }
        return None;
      }
      if role.Server? {
        var done := ServerDone();
        return Some(done);
      }
      machine := new HandshakeMachine.StartRead(stream);
      return None;
    }

    /** The client's last step: what is left of the input goes to the connection. */
    method ClientDone(obj: Obj, tail: bytes) returns (r: Finished)
      requires role.Client? && IsDialogue(dialogue) && config.Valid(role) && readFrom <= stream.delivered
      requires IsConfigured(configured) && config.deflate == configured
      requires stream.sent == sentFrom + output && output == dialogue.request(OfferOf(configured))
      requires var all := Since(readFrom, stream.delivered);
        && dialogue.parse(all).Ok? && dialogue.parse(all).value.Some? && dialogue.parse(all).value.value.1 == obj
        && tail == all[dialogue.parse(all).value.value.0..]
      modifies this
      ensures r.Done? ==> HandedOver(r.socket) && fresh(r.socket.Repr)
      ensures !r.Interrupted?
    {
      hide Accepted, Print, OfferParams;
      ghost var all := Since(readFrom, stream.delivered);
      head := all[..dialogue.parse(all).value.value.0];
      assert head + tail == all;
      assert readFrom + all == stream.delivered;
      var verdict := dialogue.verify(obj);
      if verdict.Some? {
        return Failure(if verdict.value.BadStatus? then Refused(Some(tail)) else verdict.value.error);
      }
      if config.deflate.Some? {
        var agreed := AcceptResponse(config.deflate.value, dialogue.extensions(obj));
        if agreed.None? { return Failure(BadExtensions); }
        if agreed.value.Some? { AcceptedIsUsable(configured.value, dialogue.extensions(obj)); }
        config := config.(deflate := agreed.value);
      } else if dialogue.inventsDeflate(obj) {
        return Failure(BadExtensions);
      }
      Assoc(readFrom, head, tail);
      var socket := new WebSocketContext.FromPartiallyRead(tail, Client, config);
      return Done(socket);
    }

    /** The server's answer to a request; bytes behind the request are an error. */
    method RequestRead(obj: Obj, tail: bytes) returns (error: Option<HandshakeError>)
      requires role.Server? && IsDialogue(dialogue) && config.Valid(role) && errorResponse.None?
      requires readFrom <= stream.delivered && stream.sent == sentFrom
      requires IsConfigured(configured) && config.deflate == configured
      requires var all := Since(readFrom, stream.delivered);
        && dialogue.parse(all).Ok? && dialogue.parse(all).value.Some? && dialogue.parse(all).value.value.1 == obj
        && tail == all[dialogue.parse(all).value.value.0..]
      modifies this
      ensures tail != [] ==> error == Some(JunkAfterRequest)
      ensures error.None? ==> Valid() && machine.state.Writing? && fresh(machine)
    {
      hide IsChoice, Answers;
      if tail != [] { return Some(JunkAfterRequest); }
      head := Since(readFrom, stream.delivered);
      assert readFrom + head == stream.delivered;
      var agreed: Option<Answer> := None;
      if config.deflate.Some? {
        agreed := AcceptOffers(config.deflate.value, dialogue.extensions(obj));
        if agreed.Some? { ChosenIsUsable(configured.value, dialogue.extensions(obj), agreed.value); }
      }
      var said := if agreed.Some? then Some(agreed.value.1) else None;
      var reply := dialogue.reply(obj, said);
      if reply.Abort? { return Some(reply.error); }
      if reply.Accept? {
        config := config.(deflate := if agreed.Some? then Some(agreed.value.0) else None);
        header := said;
      } else {
        errorResponse := Some(reply.body);
      }
      output := reply.output;
      machine := new HandshakeMachine.StartWrite(stream, reply.output);
      return None;
    }

    method ServerDone() returns (r: Finished)
      requires Valid() && role.Server? && machine.state.Flushing?
      ensures r.Done? ==> HandedOver(r.socket) && fresh(r.socket.Repr) && errorResponse.None?
      ensures !r.Interrupted?
    {
      if errorResponse.Some? { return Failure(Refused(errorResponse.value)); }
      assert head + [] == head && readFrom + head + [] == readFrom + head;
      var socket := new WebSocketContext.FromPartiallyRead([], Server, config);
      return Done(socket);
    }
  }
}
