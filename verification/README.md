# A verified model of the WebSocket connection

This project models the core of a WebSocket library (RFC 6455) with the permessage-deflate
extension (RFC 7692) and proves what its parts promise to each other. `dafny verify dfyconfig.toml`
checks all of it.

The model follows the library's structure:

| file | models |
|---|---|
| `Bytes.dfy` | bytes, options, results, saturating arithmetic |
| `Utf8.dfy` | the grammar of RFC 3629 and what `str::from_utf8` computes |
| `Mask.dfy` | masking, byte by byte and word by word |
| `Frames.dfy` | headers, frames, close payloads, printing and parsing |
| `Stream.dfy` | the stream: any chunks, partial writes, errors and end |
| `FrameCodec.dfy` | resumable frame reading and the output buffer |
| `Assembly.dfy` | resumable UTF-8 and message assembly |
| `Lz.dfy`, `Codec.dfy` | a sliding-window compressor and the context that owns it |
| `ExtensionHeader.dfy`, `Negotiate.dfy`, `Settings.dfy` | extension headers and negotiation |
| `Receive.dfy`, `Fragmentation.dfy` | what one incoming frame does, and why cutting a message into frames changes nothing |
| `Send.dfy` | what one write does to compressor and log, and losslessness on the wire |
| `CutMessage.dfy` | reading on after a refused fragment |
| `Writing.dfy` | the writing side as values: what operations and runs of them keep, and the closing order |
| `Connection.dfy` | `WebSocketContext` and its methods |
| `Witness.dfy` | runs on which the connection does less than one may expect |
| `EndToEnd.dfy` | whole runs of calls on one end, read at the other |
| `Runs.dfy` | any sequence of calls, as the code makes them |
| `Handshake.dfy` | the handshake driver, its read buffer and attack check |

Objects of the library that change in place are classes here, and each method is proved against a
specification function of the old state; the theorems are about those functions, for all inputs
and all runs. `Connections.WebSocketContext.Read` is proved against `Receiving.Receive`, and
`Write`, `Flush` and `Close` against `Writing.Wrote` and `Sending.DataWrite`.
`EndToEnd.ConnectionIsLossless` starts from those contracts.

The environment is demonic. A `Stream` follows three arbitrary scripts. Mask keys, the tokens the
compressor chooses, how much output it hands over at a time, where it fails, how much room a buffer
reserves and how a slice is split for word access are arbitrary choices. Memory is not bounded
except where the library counts it; `usize` is 64 bits wide and saturating additions are written
out.

The compressor is a sliding-window coder: a message is any list of literals and back-references
that expands to it within the window. Elements are byte-aligned, so that the marker a sync flush
leaves, the four bytes that are stripped from it and elements cut by frame boundaries are all
there. A window truncates the history and a reset empties it. The compressor may stall at any call;
it never claims to be done while it has input and room. The inflater does not stall: a call that
moves nothing has no input and no output left.

What the code does against its own documentation, or against a plausible reading:

- `close` moves to ClosedByUs before the Close frame is admitted (src/protocol/mod.rs:840-843), so
  without room for it the call returns WriteBufferFull and the Close is lost for good
  (`Writing.CloseAtAFullBuffer`; `Witnesses.LostClose` is such a run). A Close is accepted if and only
  if its frame fits (`Writing.ClosingSteps`).
- `read` may end a server's connection without draining the buffer (src/protocol/mod.rs:661-663):
  `Witnesses.UndrainedServer` is such a run, and `ReplyFirst` says exactly when the buffer is empty.
  `ShutdownIsComplete` is therefore about the end in `_write` only.
- After MessageTooLong the parsed header stays pending and the limit is not applied to it again
  (src/protocol/frame/mod.rs:175-190): `Witnesses.LimitIsNotAppliedAgain`. `FrameCodec.Reserved`
  marks the codecs to which this has not happened, and `EffectiveMode` is how the others read. Nor is
  room reserved behind such a header, so once the buffer is full a live stream is reported as ended:
  `Witnesses.EndOfALiveStream`, and the contract of `ReadFrame` for when.
- After a UTF-8 or size error in a continuation the open message is kept
  (src/protocol/mod.rs:1043-1045), cut to its longest valid prefix in the first case, so a caller
  that reads on may be handed a message with a piece missing: `CutMessages.CutMessageIsDelivered`,
  and `CutMessages.CutMessageExactly` for when.
- A first frame that fails in assembly leaves the saved mode behind, and so does a last one
  (`Receiving.AssemblyErrorLeavesTheMode`); `Receiving.ModeIsFirstRsv1` says exactly when. With no
  message open it makes no difference (`Receiving.StaleModeIsHarmless`).

## Model

| member | source | states |
|---|---|---|
| `Utf8.FromUtf8IsTheGrammar` | src/utf8.rs:51-75 | success of validation is exactly the grammar of section 4 of RFC 3629; `valid_up_to` is the longest well-formed prefix; `error_len` is absent exactly when some continuation is valid, and then 1 to 3 bytes are pending |
| `Utf8.CheckAfterValid` | src/utf8.rs:114-150 | validation of a concatenation resumes where a valid prefix ends, for every prefix and rest |
| `Utf8.BadStays` | src/utf8.rs:114-150 | an invalid sequence is reported the same whatever is appended |
| `Assembly.DecodeIsTheGrammar` | src/utf8.rs:51-75 | the three outcomes of `decode` are the three cases of the grammar: text, extendable prefix, hopeless |
| `Assembly.DecodeSplits` | src/utf8.rs:51-75 | the parts `decode` returns rejoin to the input; a suffix or bad sequence has 1 to 3 bytes |
| `Assembly.Incomplete.TryCompleteOffsets` | src/utf8.rs:114-150 | the carry is the old carry and the consumed input; the two checked subtractions never fail; the verdict is that of the whole remaining text |
| `Assembly.Incomplete.TryComplete` | src/utf8.rs:90-103 | either the whole input joins the carry, or a completed character (or the bad sequence) and the rest split old carry and input exactly |
| `Assembly.StringCollector.Extend` | src/protocol/message.rs:30-67 | the collector holds exactly what `Collect` says of the bytes fed so far: all of them, or the longest valid prefix when no text can start like this |
| `Assembly.StringCollector.IntoString` | src/protocol/message.rs:69-75 | returns exactly the bytes fed if they are text, and fails otherwise |
| `Assembly.StringCollector.Len` | src/protocol/message.rs:24-28 | the saturated number of bytes fed, carried ones included |
| `Assembly.ChunkedUtf8IsWholeUtf8` | src/protocol/message.rs:30-75 | for every way of cutting any bytes into chunks, collecting succeeds if and only if the whole is well-formed, and yields it unchanged |
| `Assembly.RefusedAtTheFirstHopelessChunk` | src/protocol/message.rs:30-67 | a chunk is refused exactly when no continuation makes the text so far valid |
| `Assembly.IncompleteMessage.Extend` | src/protocol/message.rs:114-135 | size is judged before the bytes are looked at; the held bytes afterwards are exactly specified on success and on both errors |
| `Assembly.IncompleteMessage.Complete` | src/protocol/message.rs:138-146 | the whole message, or the UTF-8 error if a character is still cut short |
| `Assembly.IncompleteMessage.Len` | src/protocol/message.rs:106-111 | the number of bytes held, carried ones included |
| `Mask.MaskedTwice` | src/protocol/frame/mask.rs:15-19 | masking twice with one key is the identity, for every payload and key (section 5.3 of RFC 6455) |
| `Mask.XorIsBytewise` | src/protocol/frame/mask.rs:23-42 | XOR of two words is XOR of their bytes, for words of any width |
| `Mask.XorWordIsByteXor` | src/protocol/frame/mask.rs:23-42 | one step of the word loop masks four bytes, on little- and big-endian machines |
| `Mask.RotationRealignsTheKey` | src/protocol/frame/mask.rs:23-42 | rotating the key word by the length of the unaligned prefix, left or right by endianness, is the key as seen from there |
| `Mask.ApplyMaskFallback` | src/protocol/frame/mask.rs:15-19 | byte i is combined with key byte i mod 4, and nothing outside the range is touched |
| `Mask.ApplyMaskFast32` | src/protocol/frame/mask.rs:23-42 | the same for every prefix/words/suffix split and either endianness |
| `Mask.ApplyMask` | src/protocol/frame/mask.rs:9-11 | the buffer becomes the masked payload of section 5.3 of RFC 6455 |
| `Frames.ParseUndoesFormat` | src/protocol/frame/frame.rs:76-124 | for every header with a known opcode, every mask, every 64-bit length and every tail, parsing the printed header gives it back and consumes exactly its length |
| `Frames.FormatUndoesParse` | src/protocol/frame/frame.rs:138-203 | conversely, what was parsed prints to the consumed bytes if and only if the length was encoded minimally |
| `Frames.StrictPrefixNeedsMore` | src/protocol/frame/frame.rs:76-85 | every strict prefix of a printed header asks for more input |
| `Frames.ParseIsStable` | src/protocol/frame/frame.rs:138-203 | more input never changes an answer already given |
| `Frames.Cursor.Parse` | src/protocol/frame/frame.rs:76-85 | the cursor is advanced by exactly the header, and restored when the header is incomplete |
| `Frames.Cursor.ParseInternal` | src/protocol/frame/frame.rs:138-203 | reading the header piece by piece gives what `ParseHeader` says of the whole input |
| `Frames.BigEndianInverse` | src/protocol/frame/frame.rs:407-456 | extended lengths survive their big-endian encoding |
| `Frames.EncodeLength` | src/protocol/frame/frame.rs:217-220 | `Frame::len` is exactly the number of bytes `format_into_buf` appends |
| `Frames.CloseRoundTrip` | src/protocol/frame/frame.rs:281-291 | a close frame with a 16-bit code and a textual reason is read back as it was built |
| `Streams.Stream.Read` | src/protocol/frame/mod.rs:238-245 | the environment: any chunk, WouldBlock, reset or end of stream, with a log of what was delivered |
| `Streams.Stream.Write` | src/protocol/frame/mod.rs:277-295 | the environment: any part of the bytes, or an error, with a log of what was sent |
| `FrameCodecs.ReadUndoesWrite` | src/protocol/frame/mod.rs:165-235 | a printed frame followed by anything is read back, unmasked on the server, and exactly consumed |
| `FrameCodecs.StrictPrefixIsStarved` | src/protocol/frame/mod.rs:165-235 | a strict prefix of a printed frame never reads as anything |
| `FrameCodecs.ReadAllUndoesWriteAll` | src/protocol/frame/mod.rs:165-235 | every list of frames survives the byte stream whole, and what follows is left alone |
| `FrameCodecs.ReadAllResumes` | src/protocol/frame/mod.rs:165-235 | reading on when more has arrived gives the frames already read and then the new ones |
| `FrameCodecs.StepwiseIsWhole` | src/protocol/frame/mod.rs:165-235 | frames taken off one by one are the frames of the whole input |
| `FrameCodecs.FramesReadThen` | src/protocol/frame/mod.rs:165-235 | what one call took and what a later call takes after more input has arrived are together the frames of the whole |
| `FrameCodecs.FrameCodec.ReadIn` | src/protocol/frame/mod.rs:238-245 | what was read joins the unconsumed bytes; given spare capacity, an empty read is the end of the stream |
| `FrameCodecs.FrameCodec.TryFrame` | src/protocol/frame/mod.rs:174-235 | the frame of the whole unconsumed input, if it is there, and its bytes alone are removed; otherwise there is spare capacity to read into, unless the pending header was refused for its size |
| `FrameCodecs.FrameCodec.ReadFrame` | src/protocol/frame/mod.rs:165-235 | for any chunking and any I/O errors the answer is that of whole-input parsing of all unconsumed bytes, a pending header's own included, and what is left is what that answer did not consume; the limit applies if and only if no pending header was refused before, and stays lifted across interrupted reads; an end of stream is one, unless the buffer is full behind a refused header, and then it is reported without asking |
| `FrameCodecs.FrameCodec.FromPartiallyRead` | src/protocol/frame/mod.rs:136-147 | starts with exactly the bytes already read |
| `FrameCodecs.FrameCodec.BufferFrame` | src/protocol/frame/mod.rs:254-272 | refused whole with nothing changed if it does not fit; the buffer stays within its limit; otherwise bytes sent and bytes buffered grow by exactly the frame's encoding |
| `FrameCodecs.FrameCodec.WriteOutBuffer` | src/protocol/frame/mod.rs:277-295 | bytes sent and bytes buffered stay the same sequence through every partial write; on success the buffer is empty; the loop ends |
| `Lz.FeedAppend` | src/protocol/deflate/codec.rs:164-194 | decoding does not depend on where the input is cut, even inside an element |
| `Lz.ExpandSuffix` | src/protocol/deflate/codec.rs:37-94 | tokens that expand under a history expand to the same bytes under any longer history that ends in it |
| `Lz.SlideSuffix` | src/protocol/deflate/codec.rs:37-94 | the decoder's window goes on ending in the encoder's when both move over the same bytes |
| `Lz.DecodesTheSame` | src/protocol/deflate/codec.rs:100-162 | a message compressed against any history decodes to itself at a decoder whose window ends in that history, and the windows stay related |
| `Lz.TrailerOnlyAtTheEnd` | src/protocol/deflate/codec.rs:128-142 | of this model's elements, only the end of the flushed output ends in the four bytes that `compress` strips |
| `Codec.Context.Compress` | src/protocol/deflate/codec.rs:100-142 | for any choice of tokens and any partial output, the result is the message compressed against the encoder's history, which advances by the message or is emptied |
| `Codec.Context.Inflate` | src/protocol/deflate/codec.rs:164-194 | the loop ends, never produces more than one byte over the budget, and gives the whole output or the error `Judge` specifies |
| `Codec.Context.Decompress` | src/protocol/deflate/codec.rs:144-162 | payload and trailer together give what one decoding of both gives, within the limit counted with the bytes already held |
| `Codec.JudgeInTwoSteps` | src/protocol/deflate/codec.rs:144-162 | judging payload and trailer one after the other is judging them once |
| `Codec.Decompressor.Decompress` | src/protocol/deflate/codec.rs:49-59 | output handed over and output still to come stay the same through every bounded call; no progress means nothing is left |
| `Codec.Context.constructor` | src/protocol/deflate/codec.rs:71-94 | the encoder's window is the own one, the decoder's the peer's but at least 9 bits, and resets follow the settings |
| `ExtensionHeaders.SplitHeader` | src/protocol/deflate/negotiate.rs:268-294 | the loop computes `Split`: delimiters outside quotes, backslashes inside |
| `ExtensionHeaders.SplitIsAGrammar` | src/protocol/deflate/negotiate.rs:268-294 | the parts rejoin to the value, hold no delimiter of their own outside quotes, and split again by any other delimiter |
| `ExtensionHeaders.SplitUndoesJoin` | src/protocol/deflate/negotiate.rs:268-294 | conversely, joining any such parts and splitting gives them back |
| `ExtensionHeaders.SplitsIffClosed` | src/protocol/deflate/negotiate.rs:268-294 | a value splits if and only if its quotes and escapes are closed |
| `ExtensionHeaders.Unquote` | src/protocol/deflate/negotiate.rs:247-262 | the loop computes `UnquoteSpec` |
| `ExtensionHeaders.UnquoteUndoesQuote` | src/protocol/deflate/negotiate.rs:247-262 | unquoting undoes every quoting of every string, whichever characters were escaped needlessly |
| `ExtensionHeaders.Parse` | src/protocol/deflate/negotiate.rs:170-225 | one list element: empty, another extension, well-formed permessage-deflate parameters, or an error |
| `ExtensionHeaders.ParseUndoesPrint` | src/protocol/deflate/negotiate.rs:170-225 | every parameter set an endpoint can print is a single list element and parses back to itself |
| `Negotiate.Offer` | src/protocol/deflate/negotiate.rs:8-25 | the offer built piece by piece is the printed parameters of the settings |
| `Negotiate.AcceptOffer` | src/protocol/deflate/negotiate.rs:95-141 | the answer to one offer, agreed settings and printed response, or none |
| `Negotiate.AcceptOffers` | src/protocol/deflate/negotiate.rs:72-93 | over any header values: the first acceptable offer that holds the client to the cap, or without one the first acceptable offer |
| `Negotiate.ChoiceIsUnique` | src/protocol/deflate/negotiate.rs:72-93 | that choice is determined by the list of acceptable answers |
| `Negotiate.AcceptResponse` | src/protocol/deflate/negotiate.rs:27-70 | over any header values: the agreed settings, no extension, or an error |
| `Negotiate.EndpointsAgree` | src/protocol/deflate/negotiate.rs:8-141 | for all builder-valid settings the client accepts the server's answer to its offer; resets and the server window come out equal and the client's own window is no wider than the server's view of it (sections 7.1.1 and 7.1.2 of RFC 7692) |
| `Negotiate.ClientWindowsAreSafe` | src/protocol/deflate/negotiate.rs:40-69 | against any response, an accepted one leaves an own window in 9..=15, no wider than named, and a peer window as wide as the peer may use |
| `Negotiate.ServerWindowsAreSafe` | src/protocol/deflate/negotiate.rs:100-125 | against any offers, every answer agrees on an own window in 9..=15 no wider than the offer allows, a client window as wide as the response leaves the client, and a response that states just that |
| `Receiving.DecodedKeeps` | src/protocol/mod.rs:981-1008 | decoding keeps the invariant of the reading side: windows, limits, latch |
| `Receiving.ReceiveKeeps` | src/protocol/mod.rs:908-1072 | every frame, refused or accepted, keeps it |
| `Receiving.ReceiveMovesForward` | src/protocol/mod.rs:908-1110 | states only move along Active, ClosedByUs or ClosedByPeer, CloseAcknowledged or Terminated; a closed reader is not changed by any frame |
| `Receiving.FedOrLatched` | src/protocol/mod.rs:924-1008 | a frame that claims compression is fed to the decoder whole or ends the connection; any other frame leaves the decoder alone |
| `Receiving.NoCompressedByteIsSkipped` | src/protocol/mod.rs:871-1008 | in every run over arbitrary frames, those thrown away unread included, with any calls of its own in between, that leaves the connection usable, none was thrown away and the decoder was fed exactly the claimed frames, whole and in order |
| `Receiving.LatchIsFinal` | src/protocol/mod.rs:871-905 | once out of service, no sequence of frames changes anything |
| `Receiving.NoSecondSizeCheck` | src/protocol/mod.rs:856-863 | behind a successful decompression assembly never refuses a frame for its size; the decoder's own refusal reports exactly one byte over |
| `Receiving.ModeIsFirstRsv1` | src/protocol/mod.rs:981-1008 | over any run, whatever fails in it, the saved mode is throughout RSV1 of the open message's first frame if and only if no frame is refused by `extend` that opens a compressed message or ends one |
| `Receiving.ModeStaysMatched` | src/protocol/mod.rs:981-1070 | for one frame, the same if and only if, by the guards of the frame alone |
| `Receiving.WithoutAssemblyErrors` | src/protocol/mod.rs:981-1070 | a run without a UTF-8 or size error has no such frame, so the mode is right throughout |
| `Receiving.AssemblyErrorLeavesTheMode` | src/protocol/mod.rs:1043-1070 | a concrete such frame: afterwards the mode is set although no message is open |
| `Receiving.StaleModeIsHarmless` | src/protocol/mod.rs:981-1008 | two readers with no message open that differ only in the saved mode have equal outcomes over every run |
| `Receiving.RunAppend` | src/protocol/mod.rs:908-1072 | a run over two lists of frames is the run over the first and then over the second |
| `Fragmentation.FragmentationIsTransparent` | src/protocol/mod.rs:981-1070 | a message cut into any frames, mid-character and mid-token, with pings and pongs anywhere between, is accepted exactly when the single frame is, with equal content, equal final state and control frames delivered where they stand; refused, its first failure is a fragment's and nothing of it was delivered before; a mode left behind by an earlier message makes no difference, and more than one frame clears it (section 5.4 of RFC 6455) |
| `CutMessages.CutMessageExactly` | src/protocol/mod.rs:1043-1070 | a reader that goes on after a refused fragment can be handed what is left of the message if and only if a continuation was refused by `extend`, for its bytes, or for its size with the held bytes deliverable or short of the limit; where the fragment ended inside a compressed element, if and only if besides the element is a flush marker, a literal for which one byte is left, or a back-reference that can still name a distance in the window and for which three bytes are left, and, where these fill the message, do not end it inside a character |
| `CutMessages.AfterRefusal` | src/protocol/mod.rs:1043-1070 | a refused fragment leaves the message open if and only if it is that branch that refused it |
| `CutMessages.CutMessageIsDelivered` | src/protocol/message.rs:114-135 | the run on which it happens: of pieces 1, 234 and 5 at a limit of 3 the reader is handed 15 |
| `Fragmentation.ControlPasses` | src/protocol/mod.rs:1011-1036 | a ping or pong is delivered and leaves the reading side as it was |
| `Sending.WireSizeIsExact` | src/protocol/mod.rs:1147-1150 | the size admission is decided on is exactly the bytes the masked frame takes |
| `Sending.StepIsDelivered` | src/protocol/mod.rs:697-745 | one write or second try, whatever became of it, is delivered to a reader in step exactly if it was accepted, and leaves it in step |
| `Sending.RunIsLossless` | src/protocol/mod.rs:697-745 | over any run of writes, with refusals, returned frames dropped or sent again later, failures and fallbacks, the reader delivers exactly the accepted messages in order |
| `Sending.NegotiationPutsInStep` | src/protocol/deflate/codec.rs:71-94 | whatever the two ends configured, each end's compressor starts in step with the other's decoder |
| `Sending.PrefixReadsPrefix` | src/protocol/frame/mod.rs:165-235 | from any prefix of the byte stream exactly the frames wholly in it are read |
| `Sending.LosslessOnTheWire` | src/protocol/mod.rs:697-745 | the same between two ends in step, with any masks, the byte stream cut anywhere and any frames behind the run |
| `Sending.LosslessEndToEnd` | src/protocol/mod.rs:697-723 | the same for any negotiated settings, in either direction |
| `EndToEnd.ConnectionIsLossless` | src/protocol/mod.rs:685-846 | any calls on a connection in any order, with messages, returned frames sent again, pings, pongs and closes, any stream behaviour, any prefix seen, any number of frames taken off it and any writes, flushes and closes of the reader in between: the messages delivered are the first of those accepted, and all of them once everything is sent and read; everything before the Close is delivered, then the Close, and nothing behind it |
| `EndToEnd.NegotiatedConnectionIsLossless` | src/protocol/mod.rs:685-846 | the same from the constructors' states of two ends that negotiated any builder-valid settings |
| `EndToEnd.MovedRunIsAlike` | src/protocol/mod.rs:908-1110 | a reader that closes between frames is delivered what one that does not is, a Close itself in its own form |
| `EndToEnd.RunExplained` | src/protocol/mod.rs:685-846 | every run of calls up to its Close is a run of the compressor whose frames, masked, are the log, with the accepted messages as its deliveries |
| `EndToEnd.RefusedIsReturned` | src/protocol/mod.rs:697-723 | a refused write, and a refused second try, hands back the plain frame of the message and has changed nothing |
| `EndToEnd.TheRestIsControl` | src/protocol/mod.rs:689-695 | from the call that sends the Close on, no message is accepted and only control frames are |
| `EndToEnd.ControlTail` | src/protocol/mod.rs:1011-1110 | of the control frames behind the messages the reader delivers those before the Close and the Close, and refuses the rest |
| `EndToEnd.StepwiseOutcomes` | src/protocol/mod.rs:643-673 | a reader that takes frames off one by one sees the first outcomes of the whole input |
| `Writing.AdmissionIsExact` | src/protocol/mod.rs:1113-1150 | an unmasked frame is refused if and only if its wire size, client mask counted, does not fit |
| `Writing.WroteKeeps` | src/protocol/mod.rs:783-829 | a write of anything but a Close keeps every byte of what was accepted, the closing order, and the answer owed to a peer that closed |
| `Writing.ClosingSteps` | src/protocol/mod.rs:836-846 | an active side that closes has a Close accepted if and only if the Close frame's wire size fits; behind it comes at most the pong that was waiting |
| `Writing.CloseAtAFullBuffer` | src/protocol/mod.rs:836-846 | on every active side in order without room for the Close frame the state moves, nothing is accepted, and no side that any later calls lead to has a Close in its log |
| `Writing.ReceiveKeepsOrder` | src/protocol/mod.rs:1011-1139 | a reply is queued only while the connection is active, a peer's Close queues the answer, and a waiting Close is never replaced |
| `Writing.EveryRunIsOrderly` | src/protocol/mod.rs:783-846 | in every run of operations states move forward, at most one Close frame is accepted, bytes sent and buffered are the encodings of what was accepted, and once the connection is not active nothing is accepted but the reply that was waiting, so a waiting Close is sent or goes on waiting |
| `Writing.OnlyTheWaitingPongFollows` | src/protocol/mod.rs:783-846 | behind the one Close of a run comes at most one frame for ever, the pong that was waiting when the call that sent the Close was made |
| `Writing.ShutdownIsComplete` | src/protocol/mod.rs:794-825 | when `_write` ends a server's connection, the stream has received the encodings of every accepted frame in order; without a buffer limit that includes the Close, and no reply is left behind |
| `Writing.WroteThenFlushed` | src/protocol/mod.rs:836-846 | a write and the flush behind it are one write to every observer |
| `Writing.KeepsThrough` | src/protocol/mod.rs:783-846 | what single operations keep, sequences of operations keep |
| `Connections.WebSocketContext.FromPartiallyRead` | src/protocol/mod.rs:564-590 | the initial state: the given bytes unread, fresh compressor and decoder with the negotiated windows |
| `Connections.WebSocketContext.BufferFrame` | src/protocol/mod.rs:1113-1128 | masked with any key on the client; refused whole or accepted whole, whatever the stream then does |
| `Connections.WebSocketContext.SetAdditional` | src/protocol/mod.rs:1131-1139 | only a waiting pong is replaced |
| `Connections.WebSocketContext.WriteReply` | src/protocol/mod.rs:788-812 | the waiting reply is accepted or still waits, perhaps under another mask |
| `Connections.WebSocketContext.EndConnection` | src/protocol/mod.rs:814-825 | the server drains the buffer before it terminates; an error leaves the state |
| `Connections.WebSocketContext.DoWrite` | src/protocol/mod.rs:783-829 | nothing, or the data and then perhaps the waiting reply, exactly; the state changes only at the drained server end |
| `Connections.WebSocketContext.Flush` | src/protocol/mod.rs:759-776 | an unusable connection reaches the stream with nothing; otherwise the reply goes out and success leaves the buffer empty |
| `Connections.WebSocketContext.Close` | src/protocol/mod.rs:836-846 | on an active connection the Close frame, accepted if and only if it fits, then what waits, then a flush, from state ClosedByUs; on a closed one a flush |
| `Connections.WebSocketContext.PrepareData` | src/protocol/mod.rs:697-723 | admission is decided before the compressor moves; a returned frame fits; a fallback to plain or a failure empties the history |
| `Connections.WebSocketContext.SendData` | src/protocol/mod.rs:697-752 | the transaction: refused if and only if the uncompressed wire size does not fit, with nothing changed and the plain frame returned; failed with only the history gone; or accepted, so that an advanced compressor has its frame in the buffer or the stream |
| `Connections.WebSocketContext.Write` | src/protocol/mod.rs:685-752 | state errors change nothing; each kind of message does what its own specification says |
| `Connections.WebSocketContext.FailCompressionOnDiscardedFrame` | src/protocol/mod.rs:888-905 | a discarded frame that claims compression ends a compressed connection, any other changes nothing |
| `Connections.WebSocketContext.Decompress` | src/protocol/mod.rs:856-874 | the specified output and decoder, or the connection out of service |
| `Connections.WebSocketContext.HandleControl` | src/protocol/mod.rs:1011-1036 | control frames do what `ControlReceived` says |
| `Connections.WebSocketContext.DoClose` | src/protocol/mod.rs:1076-1110 | a close frame does what `CloseReceived` says: echo, acknowledgement or nothing |
| `Connections.WebSocketContext.AssembleFrame` | src/protocol/mod.rs:1038-1070 | assembly does what `Assemble` says, open message included |
| `Connections.WebSocketContext.DecodePayload` | src/protocol/mod.rs:981-1008 | decoder, saved mode and latch are those of `DecodedPayload` |
| `Connections.WebSocketContext.HandleFrame` | src/protocol/mod.rs:945-1072 | one frame does what `Receive` says: state, answer and queued reply |
| `Connections.WebSocketContext.ReadMessageFrame` | src/protocol/mod.rs:908-1072 | the next frame of the unconsumed bytes is handled as specified; end of stream, codec errors and a frame thrown away unread have their specified effects |
| `Connections.WebSocketContext.ReplyFirst` | src/protocol/mod.rs:651-664 | replies first; where a server that may not read is terminated here, its buffer is empty if and only if a reply was waiting or unflushed or the buffer was empty before |
| `Connections.WebSocketContext.ReadOnce` | src/protocol/mod.rs:650-671 | one turn of the loop: a frame that is there is read, handled as specified and answered; or a stop that is tied to its error, the latch for a frame thrown away unread included |
| `Witnesses.UndrainedServer` | src/protocol/mod.rs:661-663 | the calls after which a terminated server has the answer to a Close still in its buffer |
| `Witnesses.LimitIsNotAppliedAgain` | src/protocol/frame/mod.rs:174-190 | the two reads of which the first refuses a frame for its size and the second returns it |
| `Witnesses.LostClose` | src/protocol/mod.rs:836-846 | the calls after which a closed connection has no Close in its log and never will |
| `Witnesses.EndOfALiveStream` | src/protocol/frame/mod.rs:174-213 | the two reads of which the first refuses a frame for its size and the second, with the buffer full, reports an end of a stream that has not ended |
| `Runs.MakeCalls` | src/protocol/mod.rs:643-846 | every sequence of public calls is a run of the sending end, from the state it finds to the state it leaves; on a latched connection every read, write, flush and close returns AlreadyClosed, and not one byte or flush reaches the stream |
| `Runs.MakeCall` | src/protocol/mod.rs:643-846 | the same for one call of any kind |
| `Connections.WebSocketContext.Read` | src/protocol/mod.rs:643-673 | the answer is that of the specification on the next frames of the byte stream, each quiet but the last; a Ping leaves its Pong waiting and a peer's Close its answer; an error is a refused frame, or a stop between frames with the state that error leaves; a reset is reported only at the end of the stream, unless a frame was refused for its size; bytes and frames are accounted for; a terminated connection touches nothing; the server's own end leaves its buffer as it is; the loop ends |
| `Handshakes.ReadBuffer.ReadFrom` | src/buffer.rs:55-60 | what is to be read grows by exactly what the stream delivered |
| `Handshakes.ReadBuffer.CleanUp` | src/buffer.rs:63-67 | forgets what was read and nothing else |
| `Handshakes.ReadBuffer.Advance` | src/buffer.rs:79-81 | drops exactly the given number of bytes |
| `Handshakes.ReadBuffer.IntoVec` | src/buffer.rs:45-52 | returns exactly the bytes not yet read |
| `Handshakes.AttackCheck.CheckIncomingPacketSize` | src/handshake/machine.rs:163-189 | accepts if and only if the counts stay within the three limits |
| `Handshakes.HandshakeMachine.SingleRound` | src/handshake/machine.rs:41-104 | a round that neither blocks nor finishes leaves less to do; nothing read is lost, and nothing written is repeated |
| `Handshakes.MidHandshake.OneTurn` | src/handshake/mod.rs:39-53 | after each round there is an earlier end or a smaller measure of stage and work left |
| `Handshakes.MidHandshake.Handshake` | src/handshake/mod.rs:39-53 | between two blocks it always ends; once done, everything to be sent was sent, the bytes read are the parsed head and the connection's input, and compression is what negotiation makes of the configuration and the headers read |
| `Handshakes.MidHandshake.ClientDone` | src/handshake/client.rs:107-132 | the bytes behind the response are exactly the frame codec's first input |
| `Handshakes.MidHandshake.RequestRead` | src/handshake/server.rs:255-335 | bytes behind the request are an error; otherwise the response is next, and no byte of the request is left over |
| `Handshakes.HandshakesAgree` | src/handshake/client.rs:323-341 | two handshakes that heard each other's headers end with the settings negotiation gives these two ends |

## Left out

- Writing.EveryRunIsOrderly: does not cover frames the user writes raw, because a raw Close frame is not tracked by the state.
- Writing.ClosingSteps: does not promise that a Close frame is accepted when the write buffer is finite, because the code does not; it says exactly when.
- Writing.ShutdownIsComplete: covers the end in `_write`, not the one in `read`, which does not drain the buffer.
- Connections.WebSocketContext.Read: accounts for bytes and frames only while no frame was refused for its size, and not across a frame thrown away for being unmasked, because those do not conserve the input.
- CutMessages.CutMessageExactly: where the refused frame ended inside a compressed element, the equivalence needs a limit below `usize::MAX`.
- Receiving.NoSecondSizeCheck: needs a limit below `usize::MAX`, because the saturating sum can not exceed `usize::MAX` itself.
- Fragmentation.FragmentationIsTransparent: needs content that a `usize` can count, and says that both forms fail, not that they fail with the same error.
- EndToEnd.ConnectionIsLossless: of the user's raw frames only those handed back by a refused write are covered; text is text, control payloads have at most 125 bytes and the receiver's limits are not hit, because a peer refuses the rest.
- Handshakes.MidHandshake.Handshake: takes the parser, the extension headers it finds, the verification of a response and the text of requests and responses as arbitrary functions; HTTP itself is not modelled.
- Handshakes.HandshakeMachine.SingleRound: a write of zero bytes, on which the code's assertion fails, is an error result here.
- Codec.Context.Compress: the bit-level DEFLATE format, Huffman codes and compression levels are not modelled; the elements are byte-aligned. A compressor that reports a full buffer while it has input and room, on which the code would drop the rest of the message, is excluded.
- Codec.Decompressor.Decompress: an inflater that stalls is excluded, so the error row of `progress` is reached by the compressor only.
- Lz.TrailerOnlyAtTheEnd: is true of byte-aligned elements; DEFLATE data may hold the four bytes elsewhere too.
- Receiving.LatchIsFinal: is about sequences of frames; `Runs.MakeCalls` has the calls.
- FrameCodecs.FrameCodec.TryFrame: promises spare capacity only while no header was refused for its size, because the code reserves none behind one.
- Negotiate.AcceptOffers: header values are byte strings; the header map and its name lookup are not modelled.
- `headers_select_deflate`, which looks for the extension in a callback's own header, is a filter over the parser modelled here.
- `set_config`: limits are fixed during a run.
- Close codes are modelled as their numbers; their classes matter only through `is_allowed`.
- Reasons and reports of errors are modelled as far as they are compared or carry sizes; texts, display and logging are not.
- Sockets, TLS, URIs, redirects, SHA-1, base64 and random numbers.
- The iterator and conversion helpers of messages and frames.
