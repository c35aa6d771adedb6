// The container's output stream as the capture loop sees it: a sequence of reads,
// each of which delivers bytes, reports end of file, or loses the race against the
// cancellation signal.

module Transport {
  import opened Unicode
  import Buffers

  /** How one read ends: `Data` delivers bytes (the transport hands over at most as
      many as were asked for), `EndOfFile` reports that the stream is closed, and
      `CancelFirst` is a read that the cancellation signal beat. */
  datatype ReadEvent = Data(bytes: seq<byte>) | EndOfFile | CancelFirst

  /** Docker.DotNet's `MultiplexedStream.ReadResult`: the number of bytes read and
      whether the stream has ended. */
  datatype ReadResult = ReadResult(count: nat, eof: bool)

  /** The bytes of a read that asked for at most `count` of them. */
  function Delivered(bytes: seq<byte>, count: nat): (d: seq<byte>)
    ensures |d| <= count && d <= bytes
    ensures |bytes| <= count ==> d == bytes
    ensures |bytes| > count ==> |d| == count
  {
    if |bytes| <= count then bytes else bytes[..count]
  }

  /** What `ReadWithCancellationAsync` returns for a read that ends with `e`:
      `(default, true)` when cancellation wins, the read's own result otherwise. */
  function ReadOutcome(e: ReadEvent, count: nat): (r: (ReadResult, bool))
    ensures r.1 <==> e.CancelFirst?
    ensures r.1 ==> r.0 == ReadResult(0, false)
    ensures r.0.eof <==> e.EndOfFile?
    ensures r.0.count <= count
    ensures e.Data? ==> r.0.count == |Delivered(e.bytes, count)|
  {
    match e
    case CancelFirst => (ReadResult(0, false), true)
    case EndOfFile => (ReadResult(0, true), false)
    case Data(bytes) => (ReadResult(|Delivered(bytes, count)|, false), false)
  }

  /** The event the next read ends with; once the recorded events are used up the
      stream is closed and every read reports end of file. */
  function NextEvent(events: seq<ReadEvent>): ReadEvent {
    if events == [] then EndOfFile else events[0]
  }

  /** The events left after the next read. */
  function AfterNext(events: seq<ReadEvent>): (rest: seq<ReadEvent>)
    ensures events == [] ==> rest == []
    ensures events != [] ==> |rest| == |events| - 1 && events == [events[0]] + rest
  {
    if events == [] then [] else events[1..]
  }

  /** A container's stdout stream, fixed in advance as the events of its reads. */
  class OutputStream {
    const events: seq<ReadEvent>
    var position: nat

    ghost predicate Valid()
      reads this
    {
      position <= |events|
    }

    /** The reads still to come. */
    ghost function Remaining(): seq<ReadEvent>
      reads this
      requires Valid()
    {
      events[position..]
    }

    constructor (events: seq<ReadEvent>)
      ensures Valid() && this.events == events && position == 0
    {
      this.events := events;
      position := 0;
    }

    /** Starts the next read and reports how it ends. */
    method Next() returns (e: ReadEvent)
      requires Valid()
      modifies this
      ensures Valid()
      ensures e == NextEvent(old(Remaining()))
      ensures Remaining() == AfterNext(old(Remaining()))
    {
      if position < |events| {
        e := events[position];
        position := position + 1;
      } else {
        e := EndOfFile;
      }
    }
  }

  /** `ReadWithCancellationAsync(stream, buffer, index, count, token)`: one read of
      at most `count` bytes into `buffer[index..]`, raced against cancellation. The
      delivered bytes land in `buffer[index..index + count]`; nothing else changes,
      and nothing is written when cancellation wins or the stream has ended. */
  method ReadWithCancellation(stream: OutputStream, buffer: array<byte>, index: nat, count: nat)
    returns (result: ReadResult, cancelled: bool)
    requires stream.Valid() && index + count <= buffer.Length
    modifies stream, buffer
    ensures stream.Valid()
    ensures (result, cancelled) == ReadOutcome(NextEvent(old(stream.Remaining())), count)
    ensures stream.Remaining() == AfterNext(old(stream.Remaining()))
    ensures var e := NextEvent(old(stream.Remaining()));
            e.Data? ==> buffer[index..index + result.count] == Delivered(e.bytes, count)
    ensures buffer[..index] == old(buffer[..index])
    ensures buffer[index + result.count..] == old(buffer[index + result.count..])
  {
    var e := stream.Next();
    match e {
      case CancelFirst =>
        result, cancelled := ReadResult(0, false), true;
      case EndOfFile =>
        result, cancelled := ReadResult(0, true), false;
      case Data(bytes) =>
        var d := Delivered(bytes, count);
        Buffers.CopyInto(d, buffer, index);
        assert buffer[index..index + |d|] == buffer[..index + |d|][index..];
        result, cancelled := ReadResult(|d|, false), false;
    }
  }
}
