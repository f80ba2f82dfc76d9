/** The stream under the connection: an environment that may do anything a socket may do. */
module Streams {
  import opened Bytes
  import opened Frames

  /** What the next read finds; an empty chunk is the end of the stream. */
  datatype ReadEvent = Chunk(data: bytes) | ReadFails(kind: IoKind)
  /** How much the next write takes. */
  datatype WriteEvent = Takes(count: nat) | WriteFails(kind: IoKind)
  datatype FlushEvent = Flushes | FlushFails(kind: IoKind)

  /**
   * The three scripts are arbitrary, so a statement for every stream is a statement for every
   * environment. `delivered` and `sent` record what has gone through in each direction.
   */
  class Stream {
    var incoming: seq<ReadEvent>
    var outgoing: seq<WriteEvent>
    var flushes: seq<FlushEvent>
    var delivered: bytes
    /** A read with room for data came back empty. */
    var ended: bool
    var sent: bytes
    var flushed: nat

    constructor (incoming: seq<ReadEvent>, outgoing: seq<WriteEvent>, flushes: seq<FlushEvent>)
      ensures this.incoming == incoming && this.outgoing == outgoing && this.flushes == flushes
      ensures delivered == [] && sent == [] && flushed == 0 && !ended
    {
      this.incoming, this.outgoing, this.flushes := incoming, outgoing, flushes;
      delivered, ended, sent, flushed := [], false, [], 0;
    }

    /** A stream that takes nothing more takes nothing. */
    twostate predicate Stuck() reads this {
      old(outgoing) == [] ==> outgoing == [] && sent == old(sent)
    }

    /** What the script still holds: reads end when it does. */
    ghost function Supply(): nat reads this { SupplyOf(incoming) }

    static ghost function SupplyOf(events: seq<ReadEvent>): nat {
      if events == [] then 0
      else 1 + (if events[0].Chunk? then |events[0].data| else 0) + SupplyOf(events[1..])
    }

    /** `Read::read` into a buffer of `room` bytes. */
    method Read(room: nat) returns (r: Result<bytes, IoKind>)
      modifies this`incoming, this`delivered, this`ended
      ensures r == Ok([]) && room > 0 ==> ended
      ensures room == 0 ==> r == Ok([]) && incoming == old(incoming) && ended == old(ended)
      ensures r.Ok? ==> |r.value| <= room && delivered == old(delivered) + r.value
      ensures r.Err? ==> delivered == old(delivered)
      ensures r.Ok? ==> Supply() + |r.value| <= old(Supply())
      ensures Supply() <= old(Supply())
      ensures r.Ok? && r.value != [] ==> Supply() < old(Supply())
    {
      if room == 0 { return Ok([]); }
      if incoming == [] { return Err(WouldBlock); }
      match incoming[0] {
        case ReadFails(kind) =>
          incoming := incoming[1..];
          return Err(kind);
        case Chunk(data) =>
          var n := Min(|data|, room);
          var rest := Chunk(data[n..]);
          ghost var tail := incoming[1..];
          if n == |data| {
            incoming := incoming[1..];
          } else {
            incoming := [rest] + incoming[1..];
            assert incoming[1..] == tail;
          }
          delivered := delivered + data[..n];
          if n == 0 { ended := true; }
          return Ok(data[..n]);
      }
    }

    /** `Write::write`; nothing is lost and nothing is written twice. */
    method Write(buf: bytes) returns (r: Result<nat, IoKind>)
      modifies this`outgoing, this`sent
      ensures r.Ok? ==> r.value <= |buf| && sent == old(sent) + buf[..r.value]
      ensures r.Err? ==> sent == old(sent)
      ensures old(outgoing) == [] ==> r == Err(WouldBlock) && outgoing == []
    {
      if outgoing == [] { return Err(WouldBlock); }
      var event := outgoing[0];
      outgoing := outgoing[1..];
      match event {
        case WriteFails(kind) => return Err(kind);
        case Takes(count) =>
          var n := Min(count, |buf|);
          sent := sent + buf[..n];
          return Ok(n);
      }
    }

    method Flush() returns (r: Result<(), IoKind>)
      modifies this`flushes, this`flushed
      ensures flushed == old(flushed) + 1
    {
      flushed := flushed + 1;
      if flushes == [] { return Ok(()); }
      var event := flushes[0];
      flushes := flushes[1..];
      match event {
        case Flushes => return Ok(());
        case FlushFails(kind) => return Err(kind);
      }
    }
  }
}
