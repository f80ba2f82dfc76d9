/** Any sequence of calls on a connection, as the code makes them. */
module Runs {
  import opened Bytes
  import opened Frames
  import opened Streams
  import opened Receiving
  import opened Sending
  import opened Writing
  import opened EndToEnd
  import opened Connections

  /** A public call; of raw frames only one that a refused write handed back. */
  datatype Call =
    | ReadCall
    | WriteCall(message: Message)
    | SendAgainCall(data: Data, content: bytes, frame: Frame)
    | FlushCall
    | CloseCall(code: Option<CloseFrame>)

  predicate IsPublic(role: Role, call: Call) {
    match call
    case WriteCall(m) => !m.RawFrame?
    case SendAgainCall(d, m, f) => (d.Text? || d.Binary?) && IsReturned(role, d, m, f)
    case _ => true
  }

  function DataOf(m: Message): Data
    requires m.TextMessage? || m.BinaryMessage?
  {
    if m.TextMessage? then Text else Binary
  }

  function ContentOf(m: Message): bytes
    requires m.TextMessage? || m.BinaryMessage?
  {
    match m case TextMessage(text) => text case BinaryMessage(data) => data
  }

  /** One call is a step of the sending end, whatever comes of it; a latched connection does nothing. */
  method MakeCall(c: WebSocketContext, stream: Stream, call: Call) returns (error: Option<Error>, ghost act: Act)
    requires c.Valid() && stream !in c.Repr && IsPublic(c.role, call)
    modifies c.Repr, stream
    ensures c.Valid() && fresh(c.Repr - old(c.Repr))
    ensures IsCall(c.role, c.MaxBuffer(), c.deflate != null, old(Point(c.S(stream), c.E())), act,
                   Point(c.S(stream), c.E()))
    ensures old(c.compressionUnusable) ==>
      && error == Some(AlreadyClosed) && c.compressionUnusable && c.S(stream) == old(c.S(stream)) && c.E() == old(c.E())
      && stream.delivered == old(stream.delivered) && stream.flushed == old(stream.flushed)
  {
    hide Keeps, OnlyPongBehind, SendsControl, NothingBehindReply, InOrder, Wrote, DataSent;
    assert c.R().state == c.state && c.R().unusable == c.compressionUnusable;
    ghost var a := c.S(stream);
    NothingReplies(c.role, c.MaxBuffer(), a);
    RepliesAreSteps(c.role, c.MaxBuffer(), a, a);
    act := OtherCall;
    match call {
      case ReadCall =>
        var r, frames := c.Read(stream);
        error := ErrorOf(r);
        RepliesAreSteps(c.role, c.MaxBuffer(), a, c.S(stream));
      case FlushCall =>
        var r := c.Flush(stream);
        error := ErrorOf(r);
        RepliesAreSteps(c.role, c.MaxBuffer(), a, c.S(stream));
      case CloseCall(code) =>
        var r := c.Close(stream, code);
        error := ErrorOf(r);
      case WriteCall(m) =>
        ghost var active := c.state.Active?;
        var r, accepted := c.Write(stream, m);
        error := ErrorOf(r);
        if active && (m.TextMessage? || m.BinaryMessage?) {
          act := SendMessage(DataOf(m), ContentOf(m), accepted, error);
        }
      case SendAgainCall(d, m, f) =>
        ghost var active := c.state.Active?;
        var r, accepted := c.Write(stream, RawFrame(f));
        error := ErrorOf(r);
        if active { act := SendAgain(d, m, f, error); }
    }
    assert c.R().state == c.state && c.R().unusable == c.compressionUnusable;
  }

  /**
   * Every sequence of calls is a run of the sending end, from the state it finds to the state it leaves.
   * A connection that compression took out of service stays so: every call is refused, and not one byte
   * or flush reaches the stream.
   */
  method MakeCalls(c: WebSocketContext, stream: Stream, calls: seq<Call>)
    returns (errors: seq<Option<Error>>, ghost points: seq<Point>, ghost acts: seq<Act>)
    requires c.Valid() && stream !in c.Repr && forall call :: call in calls ==> IsPublic(c.role, call)
    modifies c.Repr, stream
    ensures c.Valid() && fresh(c.Repr - old(c.Repr)) && |errors| == |calls| == |acts|
    ensures AreCalls(c.role, c.MaxBuffer(), c.deflate != null, points, acts)
    ensures points[0] == old(Point(c.S(stream), c.E())) && points[|acts|] == Point(c.S(stream), c.E())
    ensures old(c.compressionUnusable) ==>
      && c.compressionUnusable && c.S(stream) == old(c.S(stream)) && c.E() == old(c.E())
      && stream.delivered == old(stream.delivered) && stream.flushed == old(stream.flushed)
      && forall e :: e in errors ==> e == Some(AlreadyClosed)
  {
    hide IsCall;
    errors, points, acts := [], [Point(c.S(stream), c.E())], [];
    for n := 0 to |calls|
      invariant c.Valid() && stream !in c.Repr && fresh(c.Repr - old(c.Repr))
      invariant |errors| == n == |acts| == |points| - 1
      invariant AreCalls(c.role, c.MaxBuffer(), c.deflate != null, points, acts)
      invariant points[0] == old(Point(c.S(stream), c.E())) && points[n] == Point(c.S(stream), c.E())
      invariant old(c.compressionUnusable) ==>
        && c.compressionUnusable && c.S(stream) == old(c.S(stream)) && c.E() == old(c.E())
        && stream.delivered == old(stream.delivered) && stream.flushed == old(stream.flushed)
        && forall e :: e in errors ==> e == Some(AlreadyClosed)
    {
      ghost var before := Point(c.S(stream), c.E());
      var error, act := MakeCall(c, stream, calls[n]);
      ghost var after := Point(c.S(stream), c.E());
      OneMoreCall(c.role, c.MaxBuffer(), c.deflate != null, points, acts, act, after);
      errors, points, acts := errors + [error], points + [after], acts + [act];
    }
  }

  lemma OneMoreCall(role: Role, max: nat, deflating: bool, points: seq<Point>, acts: seq<Act>, act: Act, after: Point)
    requires AreCalls(role, max, deflating, points, acts) && IsCall(role, max, deflating, points[|acts|], act, after)
    ensures AreCalls(role, max, deflating, points + [after], acts + [act])
  {
    hide IsCall;
    var ps, cs := points + [after], acts + [act];
    forall i | 0 <= i < |cs| ensures IsCall(role, max, deflating, ps[i], cs[i], ps[i + 1]) {
      if i < |acts| { assert IsCall(role, max, deflating, points[i], acts[i], points[i + 1]); }
    }
  }
}
