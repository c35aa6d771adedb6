// `StdoutReader`: the capture loop itself, over the two buffers, the decoder and
// the stream, proved to compute what `Capture` describes.

module Reader {
  import opened Unicode
  import opened Utf8
  import opened MarkerSearch
  import opened Transport
  import opened CaptureSpec
  import Buffers

  /** The length both buffers are rented with. */
  const BufferLength: nat := 10240

  /** `ReadOnlySpan<char>.IndexOf(marker, StringComparison.Ordinal)`: the first
      position in `span` where the marker occurs, comparing code units one for one;
      -1 when there is none. */
  method IndexOf(span: seq<CodeUnit>, marker: seq<CodeUnit>) returns (r: int)
    ensures r == FirstIndexOf(span, marker)
  {
    var i := 0;
    while i + |marker| <= |span|
      invariant i <= |span|
      invariant IndexFrom(span, marker, i) == FirstIndexOf(span, marker)
      decreases |span| - i
    {
      if span[i..i + |marker|] == marker {
        return i;
      }
      i := i + 1;
    }
    r := -1;
  }

  /** The end-marker check of one round: with at least a marker's length of chars
      decoded, search from the window start to the end of the decoded chars and
      return the absolute index of the marker, or -1. */
  method FindOutputEnd(rule: WindowRule, charBuffer: array<CodeUnit>, charIndex: nat,
                       totalCharCount: nat, marker: seq<CodeUnit>, ghost total: seq<CodeUnit>)
    returns (outputEndIndex: int)
    requires charIndex <= totalCharCount <= charBuffer.Length && 1 <= |marker|
    requires charBuffer[..totalCharCount] == total
    ensures outputEndIndex == Scan(rule, total, charIndex, marker)
  {
    outputEndIndex := -1;
    if totalCharCount >= |marker| {
      var earliest := WindowStart(rule, charIndex, totalCharCount, |marker|);
      var relative := IndexOf(charBuffer[earliest..totalCharCount], marker);
      assert charBuffer[earliest..totalCharCount] == charBuffer[..totalCharCount][earliest..];
      if relative >= 0 {
        outputEndIndex := earliest + relative;
      }
    }
  }

  /** The conversion and end-marker check of one round: the `count` bytes read at
      `byteIndex` go through the decoder into `charBuffer` from `charIndex` on, and
      the decoded chars are searched for the marker. */
  method ConvertAndScan(decoder: Decoder, byteBuffer: array<byte>, byteIndex: nat, count: nat,
                        charBuffer: array<CodeUnit>, charIndex: nat, rule: WindowRule, marker: seq<CodeUnit>,
                        ghost data: seq<byte>, ghost room: nat, ghost decoded: seq<CodeUnit>)
    returns (charCount: nat, found: int, ghost conv: Conversion)
    requires decoder.Valid() && 1 <= |marker|
    requires byteIndex + count <= byteBuffer.Length && charIndex <= charBuffer.Length
    requires byteBuffer[byteIndex..byteIndex + count] == data && room == charBuffer.Length - charIndex
    requires charBuffer[..charIndex] == decoded
    modifies decoder, charBuffer
    ensures decoder.Valid()
    ensures conv == DecodeWithin(old(decoder.pending), data, room)
    ensures charCount == |conv.chars| && decoder.pending == conv.pending
    ensures charBuffer[..charIndex + charCount] == decoded + conv.chars
    ensures found == Scan(rule, decoded + conv.chars, charIndex, marker)
  {
    conv := DecodeWithin(decoder.pending, data, room);
    var bytesUsed;
    bytesUsed, charCount := decoder.Convert(byteBuffer, byteIndex, count,
                                            charBuffer, charIndex, charBuffer.Length - charIndex);
    found := FindOutputEnd(rule, charBuffer, charIndex, charIndex + charCount, marker, decoded + conv.chars);
  }

  /** One round of the loop in `ReadOutputWithBuffersAsync`: a read into the free
      part of `byteBuffer`, then, when it delivered bytes, their conversion into the
      free part of `charBuffer` and the end-marker check. Given the session `s` the
      buffers and the decoder hold, the round ends the session as `Run` says, or
      leaves the session `next` in them. */
  method ReadRound(stream: OutputStream, decoder: Decoder, byteBuffer: array<byte>,
                   charBuffer: array<CodeUnit>, rule: WindowRule, marker: seq<CodeUnit>,
                   byteIndex: nat, charIndex: nat, ghost c: Config, ghost s: Session)
    returns (read: ReadResult, cancelled: bool, charCount: nat, found: int, ghost next: Session)
    requires stream.Valid() && decoder.Valid() && 1 <= |marker|
    requires c == Config(rule, marker, byteBuffer.Length, charBuffer.Length) && Fits(c, s)
    requires byteIndex == |s.received| && charIndex == |s.decoded|
    requires decoder.pending == s.pending && charBuffer[..charIndex] == s.decoded
    requires byteBuffer[..byteIndex] == s.received
    modifies stream, decoder, byteBuffer, charBuffer
    ensures stream.Valid() && decoder.Valid()
    ensures stream.Remaining() == AfterNext(old(stream.Remaining()))
    ensures byteBuffer[..byteIndex] == s.received
    ensures charBuffer[..charIndex] == s.decoded
    ensures cancelled ==> Run(c, old(stream.Remaining()), s) == Final(Cancelled(s.decoded), s)
    ensures !cancelled && read.eof ==> Run(c, old(stream.Remaining()), s) == Final(EndOfStream(s.decoded), s)
    ensures !cancelled && !read.eof ==>
              && |stream.Remaining()| < |old(stream.Remaining())|
              && Fits(c, next) && |next.received| == byteIndex + read.count
              && charIndex + charCount <= charBuffer.Length && found <= charIndex + charCount
              && byteIndex + read.count <= byteBuffer.Length && next.received == byteBuffer[..byteIndex + read.count]
              && next.decoded == charBuffer[..charIndex + charCount] && next.pending == decoder.pending
    ensures !cancelled && !read.eof && found >= 0 ==>
              Run(c, old(stream.Remaining()), s) == Final(MarkerFound(charBuffer[..found]), next)
    ensures !cancelled && !read.eof && found < 0 && (|next.received| >= c.byteCap || |next.decoded| >= c.charCap) ==>
              Run(c, old(stream.Remaining()), s) == Final(BufferExhausted(next.decoded), next)
    ensures !cancelled && !read.eof && found < 0 && |next.received| < c.byteCap && |next.decoded| < c.charCap ==>
              Run(c, old(stream.Remaining()), s) == Run(c, stream.Remaining(), next)
  {
    ghost var events := stream.Remaining();
    ghost var e := NextEvent(events);
    read, cancelled := ReadWithCancellation(stream, byteBuffer, byteIndex, byteBuffer.Length - byteIndex);
    charCount, found, next := 0, -1, s;
    if cancelled {
      assert e.CancelFirst?;
      RunOnSignal(c, events, s);
      return;
    }
    if read.eof {
      assert e.EndOfFile?;
      RunOnSignal(c, events, s);
      return;
    }
    ghost var data := Delivered(e.bytes, c.byteCap - |s.received|);
    assert byteBuffer[..byteIndex + read.count] == byteBuffer[..byteIndex] + byteBuffer[byteIndex..byteIndex + read.count];
    ghost var received := byteBuffer[..byteIndex + read.count];
    assert received == s.received + data;
    ghost var conv;
    charCount, found, conv := ConvertAndScan(decoder, byteBuffer, byteIndex, read.count, charBuffer, charIndex,
                                             rule, marker, data, c.charCap - |s.decoded|, s.decoded);
    assert charBuffer[..charIndex] == charBuffer[..charIndex + charCount][..charIndex];
    RunOnData(c, events, s, conv, found);
    next := Session(s.received + data, s.decoded + conv.chars, conv.pending);
    if found >= 0 {
      assert charBuffer[..found] == next.decoded[..found];
    }
  }

  /** The loop of `ReadOutputWithBuffersAsync`: reads into `byteBuffer`, decodes into
      `charBuffer` with `decoder`, and scans after every read, until the marker is
      found, a read is cancelled, the stream ends or a buffer is full. How it ended,
      and the chars it leaves in `charBuffer`, are what `Capture` says for the reads
      the stream had left. */
  method ReadUntilEnd(stream: OutputStream, decoder: Decoder, marker: seq<CodeUnit>,
                      byteBuffer: array<byte>, charBuffer: array<CodeUnit>, rule: WindowRule)
    returns (charIndex: nat, outputEndIndex: int, cancelled: bool)
    requires stream.Valid() && decoder.Valid() && decoder.pending == [] && 1 <= |marker|
    modifies stream, decoder, byteBuffer, charBuffer
    ensures stream.Valid()
    ensures charIndex <= charBuffer.Length && outputEndIndex <= charBuffer.Length
    ensures var ended := Capture(Config(rule, marker, byteBuffer.Length, charBuffer.Length), old(stream.Remaining())).outcome;
            && (cancelled ==> ended == Cancelled(charBuffer[..charIndex]))
            && (!cancelled && outputEndIndex < 0 ==>
                  ended == EndOfStream(charBuffer[..charIndex]) || ended == BufferExhausted(charBuffer[..charIndex]))
            && (!cancelled && outputEndIndex >= 0 ==> ended == MarkerFound(charBuffer[..outputEndIndex]))
  {
    ghost var c := Config(rule, marker, byteBuffer.Length, charBuffer.Length);
    ghost var target := Capture(c, stream.Remaining());
    ghost var s := Session([], [], []);
    var byteIndex := 0;
    charIndex, outputEndIndex, cancelled := 0, -1, false;
    while outputEndIndex < 0
      invariant stream.Valid() && decoder.Valid()
      invariant Fits(c, s) && byteIndex == |s.received| && charIndex == |s.decoded|
      invariant decoder.pending == s.pending && charBuffer[..charIndex] == s.decoded
      invariant byteBuffer[..byteIndex] == s.received
      invariant Run(c, stream.Remaining(), s) == target
      invariant outputEndIndex == -1 && !cancelled
      decreases |stream.Remaining()|
    {
      var read, readCancelled, charCount, found, next :=
        ReadRound(stream, decoder, byteBuffer, charBuffer, rule, marker, byteIndex, charIndex, c, s);
      if readCancelled {
        cancelled := true;
        break;
      }
      if read.eof {
        break;
      }
      if found >= 0 {
        outputEndIndex := found;
        break;
      }
      byteIndex := byteIndex + read.count;
      charIndex := charIndex + charCount;
      s := next;
      if byteIndex >= byteBuffer.Length || charIndex >= charBuffer.Length {
        break;
      }
    }
  }

  /** A `ReadOnlyMemory<char>`: either over a string of its own, or over the first
      `length` elements of an array it shares with whoever else holds the array. */
  datatype Memory = OverString(chars: seq<CodeUnit>) | OverArray(buffer: array<CodeUnit>, length: nat)

  /** The chars a memory shows now. */
  function Text(m: Memory): seq<CodeUnit>
    reads if m.OverArray? then {m.buffer} else {}
    requires m.OverArray? ==> m.length <= m.buffer.Length
  {
    match m
    case OverString(chars) => chars
    case OverArray(buffer, length) => buffer[..length]
  }

  /** `ReadOutputWithBuffersAsync`: the loop with a fresh decoder, then the result:
      on success a memory over the text before the marker in `charBuffer` itself,
      otherwise a new string of the text decoded so far with a note saying why the
      marker was never seen. */
  method ReadOutputWithBuffers(stream: OutputStream, marker: seq<CodeUnit>,
                               byteBuffer: array<byte>, charBuffer: array<CodeUnit>, rule: WindowRule)
    returns (output: Memory, failed: bool)
    requires stream.Valid() && 1 <= |marker|
    modifies stream, byteBuffer, charBuffer
    ensures stream.Valid()
    ensures failed ==> output.OverString?
    ensures !failed ==> output.OverArray? && output.buffer == charBuffer && output.length <= charBuffer.Length
    ensures (Text(output), failed)
            == Report(Capture(Config(rule, marker, byteBuffer.Length, charBuffer.Length), old(stream.Remaining())).outcome)
  {
    var decoder := new Decoder();
    var charIndex, outputEndIndex, cancelled := ReadUntilEnd(stream, decoder, marker, byteBuffer, charBuffer, rule);
    if cancelled {
      return OverString(charBuffer[..charIndex] + TimedOutNote), true;
    }
    if outputEndIndex < 0 {
      return OverString(charBuffer[..charIndex] + UnexpectedEndNote), true;
    }
    return OverArray(charBuffer, outputEndIndex), false;
  }

  /** `ReadOutputAsync` as written: rents both buffers, runs the capture, and gives
      both buffers back before its caller sees the result. On success the result is
      a memory over the char buffer that is now back in the pool, the array the
      pool hands to its next renter. */
  method ReadOutputAsWritten(stream: OutputStream, marker: seq<CodeUnit>, rule: WindowRule,
                             bytePool: Buffers.ArrayPool<byte>, charPool: Buffers.ArrayPool<CodeUnit>)
    returns (output: Memory, failed: bool)
    requires stream.Valid() && 1 <= |marker| && bytePool.Valid() && charPool.Valid()
    modifies stream, bytePool, charPool, bytePool.shelf, charPool.shelf
    ensures stream.Valid() && bytePool.Valid() && charPool.Valid()
    ensures bytePool.lent == old(bytePool.lent) && charPool.lent == old(charPool.lent)
    ensures forall i | 0 <= i < |old(bytePool.shelf)| ::
              i < |old(bytePool.shelf)| - 1 || old(bytePool.shelf[i].Length) < BufferLength ==>
                old(bytePool.shelf)[i][..] == old(bytePool.shelf[i][..])
    ensures forall i | 0 <= i < |old(charPool.shelf)| ::
              i < |old(charPool.shelf)| - 1 || old(charPool.shelf[i].Length) < BufferLength ==>
                old(charPool.shelf)[i][..] == old(charPool.shelf[i][..])
    ensures !failed ==>
              && output.OverArray? && output.length <= output.buffer.Length
              && output.buffer.Length >= BufferLength
              && |charPool.shelf| > 0 && charPool.shelf[|charPool.shelf| - 1] == output.buffer
    ensures failed ==> output.OverString?
    ensures exists byteCap: nat, charCap: nat | BufferLength <= byteCap && BufferLength <= charCap ::
              (Text(output), failed)
              == Report(Capture(Config(rule, marker, byteCap, charCap), old(stream.Remaining())).outcome)
  {
    var byteBuffer := bytePool.Rent(BufferLength);
    var charBuffer := charPool.Rent(BufferLength);
    output, failed := ReadOutputWithBuffers(stream, marker, byteBuffer, charBuffer, rule);
    bytePool.Return(byteBuffer);
    charPool.Return(charBuffer);
  }

  /** What the next renter of the char pool does to a successful result of
      `ReadOutputAsWritten`, which shows the array last given back to the pool: the
      renter is handed that very array, and what it writes there is what the result
      shows from then on. */
  method NextRenterOverwrites(charPool: Buffers.ArrayPool<CodeUnit>, output: Memory, x: CodeUnit)
    returns (next: array<CodeUnit>)
    requires charPool.Valid() && output.OverArray? && 0 < output.length <= output.buffer.Length
    requires output.buffer.Length >= BufferLength
    requires |charPool.shelf| > 0 && charPool.shelf[|charPool.shelf| - 1] == output.buffer
    modifies charPool, charPool.shelf
    ensures next == output.buffer && next in charPool.lent
    ensures Text(output)[0] == x
  {
    next := charPool.Rent(BufferLength);
    next[0] := x;
  }

  /** `ReadOutputAsync` with the two corrections: the scan window of the corrected
      rule, and the success text copied out of the char buffer before the buffer
      goes back to the pool. The result then no longer depends on what the pool's
      later renters do. */
  method ReadOutput(stream: OutputStream, marker: seq<CodeUnit>,
                    bytePool: Buffers.ArrayPool<byte>, charPool: Buffers.ArrayPool<CodeUnit>)
    returns (output: seq<CodeUnit>, failed: bool)
    requires stream.Valid() && 1 <= |marker| && bytePool.Valid() && charPool.Valid()
    modifies stream, bytePool, charPool, bytePool.shelf, charPool.shelf
    ensures stream.Valid() && bytePool.Valid() && charPool.Valid()
    ensures bytePool.lent == old(bytePool.lent) && charPool.lent == old(charPool.lent)
    ensures forall i | 0 <= i < |old(bytePool.shelf)| ::
              i < |old(bytePool.shelf)| - 1 || old(bytePool.shelf[i].Length) < BufferLength ==>
                old(bytePool.shelf)[i][..] == old(bytePool.shelf[i][..])
    ensures forall i | 0 <= i < |old(charPool.shelf)| ::
              i < |old(charPool.shelf)| - 1 || old(charPool.shelf[i].Length) < BufferLength ==>
                old(charPool.shelf)[i][..] == old(charPool.shelf[i][..])
    ensures exists byteCap: nat, charCap: nat | BufferLength <= byteCap && BufferLength <= charCap ::
              (output, failed)
              == Report(Capture(Config(Corrected, marker, byteCap, charCap), old(stream.Remaining())).outcome)
  {
    var byteBuffer := bytePool.Rent(BufferLength);
    var charBuffer := charPool.Rent(BufferLength);
    var memory;
    memory, failed := ReadOutputWithBuffers(stream, marker, byteBuffer, charBuffer, Corrected);
    output := Text(memory);
    bytePool.Return(byteBuffer);
    charPool.Return(charBuffer);
  }
}
