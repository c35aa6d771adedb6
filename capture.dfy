// What one capture session computes, stated on values: the rounds of the
// read-decode-scan loop of `ReadOutputWithBuffersAsync` and the mapping of its
// terminal state to the `(output, failed)` pair.

module CaptureSpec {
  import opened Unicode
  import opened Utf8
  import opened MarkerSearch
  import opened Transport

  /** Where the marker scan of a round starts. `AsWritten` is the source's
      `Math.Min(charIndex, totalCharCount - outputEndMarker.Length)`; `Corrected`
      starts early enough to see a marker that began in an earlier round. */
  datatype WindowRule = AsWritten | Corrected

  function WindowStart(rule: WindowRule, charIndex: nat, total: nat, m: nat): (start: nat)
    requires charIndex <= total && 1 <= m <= total
    ensures start <= charIndex
    ensures rule == AsWritten ==> start + m <= total
    ensures rule == Corrected && start > 0 ==> start + m == charIndex + 1
  {
    match rule
    case AsWritten => if charIndex <= total - m then charIndex else total - m
    case Corrected => if charIndex + 1 >= m then charIndex + 1 - m else 0
  }

  /** The scan of one round over `total`, the chars decoded so far, of which the
      first `charIndex` were there before the round: the absolute index of the
      first occurrence inside the window, or -1. */
  function Scan(rule: WindowRule, total: seq<CodeUnit>, charIndex: nat, marker: seq<CodeUnit>): (r: int)
    requires charIndex <= |total| && 1 <= |marker|
    ensures r == -1 || OccursAt(total, marker, r)
  {
    if |total| < |marker| then -1
    else
      var start := WindowStart(rule, charIndex, |total|, |marker|);
      var rel := FirstIndexOf(total[start..], marker);
      if rel < 0 then -1
      else
        OccursInSuffix(total, marker, start, rel);
        start + rel
  }

  /** When the chars before the round hold no marker, the corrected scan finds the
      first occurrence in the whole text, wherever it begins. */
  lemma {:induction false} CorrectedScanIsFirst(total: seq<CodeUnit>, charIndex: nat, marker: seq<CodeUnit>)
    requires charIndex <= |total| && 1 <= |marker|
    requires !Contains(total[..charIndex], marker)
    ensures Scan(Corrected, total, charIndex, marker) == FirstIndexOf(total, marker)
  {
    if |total| < |marker| {
      assert !Contains(total, marker);
    } else {
      var start := WindowStart(Corrected, charIndex, |total|, |marker|);
      var rel := FirstIndexOf(total[start..], marker);
      forall j | 0 <= j < start
        ensures !OccursAt(total, marker, j)
      {
        OccursInPrefix(total, marker, charIndex, j);
      }
      if rel < 0 {
        forall j ensures !OccursAt(total, marker, j) {
          if j >= start {
            OccursInSuffix(total, marker, start, j - start);
          }
        }
      } else {
        forall j | start <= j < start + rel
          ensures !OccursAt(total, marker, j)
        {
          OccursInSuffix(total, marker, start, j - start);
        }
        OccursInSuffix(total, marker, start, rel);
        FirstIndexOfIs(total, marker, start + rel);
      }
    }
  }

  // ---------------------------------------------------------------------------
  // Sessions and rounds.

  /** The fixed parameters of a session: the window rule, the end marker and the
      lengths of the byte and char buffers. */
  datatype Config = Config(rule: WindowRule, marker: seq<CodeUnit>, byteCap: nat, charCap: nat)

  /** The state between rounds: the bytes read into the byte buffer so far
      (`byteBuffer[..byteIndex]`), the chars decoded into the char buffer so far
      (`charBuffer[..charIndex]`) and the decoder's pending bytes. */
  datatype Session = Session(received: seq<byte>, decoded: seq<CodeUnit>, pending: seq<byte>)

  /** How a session ends, with the text it has to show for it. */
  datatype Outcome =
    | MarkerFound(text: seq<CodeUnit>)
    | Cancelled(text: seq<CodeUnit>)
    | EndOfStream(text: seq<CodeUnit>)
    | BufferExhausted(text: seq<CodeUnit>)

  /** The outcome together with the session state the last round reached. */
  datatype Final = Final(outcome: Outcome, last: Session)

  datatype Progress = Continue(next: Session) | Stop(final: Final)

  /** The cursors are within the buffers and the decoder state is one it can be in. */
  ghost predicate Fits(c: Config, s: Session) {
    |s.received| <= c.byteCap && |s.decoded| <= c.charCap && IsPendingPrefix(s.pending)
  }

  /** One pass of the loop body, for a read that ends with `e`: read into the rest
      of the byte buffer, decode into the rest of the char buffer, scan, then
      advance the cursors or stop. */
  function Round(c: Config, s: Session, e: ReadEvent): (r: Progress)
    requires 1 <= |c.marker| && Fits(c, s)
    ensures r.Continue? ==> e.Data? && Fits(c, r.next)
    ensures r.Continue? ==> |r.next.received| < c.byteCap && |r.next.decoded| < c.charCap
    ensures r.Continue? ==> s.received <= r.next.received && s.decoded <= r.next.decoded
    ensures r.Continue? ==>
              |r.next.received| == |s.received| + ReadOutcome(e, c.byteCap - |s.received|).0.count
    ensures r.Stop? ==> Fits(c, r.final.last)
  {
    match e
    case CancelFirst => Stop(Final(Cancelled(s.decoded), s))
    case EndOfFile => Stop(Final(EndOfStream(s.decoded), s))
    case Data(bytes) =>
      var data := Delivered(bytes, c.byteCap - |s.received|);
      var conv := DecodeWithin(s.pending, data, c.charCap - |s.decoded|);
      var total := s.decoded + conv.chars;
      var next := Session(s.received + data, total, conv.pending);
      var found := Scan(c.rule, total, |s.decoded|, c.marker);
      if found >= 0 then Stop(Final(MarkerFound(total[..found]), next))
      else if |next.received| >= c.byteCap || |total| >= c.charCap then
        Stop(Final(BufferExhausted(total), next))
      else Continue(next)
  }

  /** The rounds of a session over the reads still to come. */
  function Run(c: Config, events: seq<ReadEvent>, s: Session): (f: Final)
    requires 1 <= |c.marker| && Fits(c, s)
    ensures Fits(c, f.last)
    decreases |events|
  {
    match Round(c, s, NextEvent(events))
    case Stop(f) => f
    case Continue(next) => Run(c, AfterNext(events), next)
  }

  /** How a session goes on after a read that ended without data. */
  lemma {:induction false} RunOnSignal(c: Config, events: seq<ReadEvent>, s: Session)
    requires 1 <= |c.marker| && Fits(c, s)
    ensures NextEvent(events).CancelFirst? ==> Run(c, events, s) == Final(Cancelled(s.decoded), s)
    ensures NextEvent(events).EndOfFile? ==> Run(c, events, s) == Final(EndOfStream(s.decoded), s)
  {
  }

  /** A round over a read that delivered data, given its conversion and the result
      of the end-marker check. */
  lemma {:induction false} RoundOnData(c: Config, s: Session, bytes: seq<byte>, conv: Conversion, found: int)
    requires 1 <= |c.marker| && Fits(c, s)
    requires conv == DecodeWithin(s.pending, Delivered(bytes, c.byteCap - |s.received|), c.charCap - |s.decoded|)
    requires found == Scan(c.rule, s.decoded + conv.chars, |s.decoded|, c.marker)
    ensures var next := Session(s.received + Delivered(bytes, c.byteCap - |s.received|), s.decoded + conv.chars, conv.pending);
            Round(c, s, Data(bytes)) ==
              if found >= 0 then Stop(Final(MarkerFound(next.decoded[..found]), next))
              else if |next.received| >= c.byteCap || |next.decoded| >= c.charCap then
                Stop(Final(BufferExhausted(next.decoded), next))
              else Continue(next)
  {
  }

  /** How a session goes on after a read that delivered data, given its conversion
      and the result of the end-marker check. */
  lemma {:induction false} RunOnData(c: Config, events: seq<ReadEvent>, s: Session, conv: Conversion, found: int)
    requires 1 <= |c.marker| && Fits(c, s) && NextEvent(events).Data?
    requires conv == DecodeWithin(s.pending, Delivered(NextEvent(events).bytes, c.byteCap - |s.received|),
                                  c.charCap - |s.decoded|)
    requires found == Scan(c.rule, s.decoded + conv.chars, |s.decoded|, c.marker)
    ensures var next := Session(s.received + Delivered(NextEvent(events).bytes, c.byteCap - |s.received|),
                                s.decoded + conv.chars, conv.pending);
            && (found >= 0 ==> Run(c, events, s) == Final(MarkerFound(next.decoded[..found]), next))
            && (found < 0 && (|next.received| >= c.byteCap || |next.decoded| >= c.charCap) ==>
                  Run(c, events, s) == Final(BufferExhausted(next.decoded), next))
            && (found < 0 && |next.received| < c.byteCap && |next.decoded| < c.charCap ==>
                  Fits(c, next) && Run(c, events, s) == Run(c, AfterNext(events), next))
  {
    RoundOnData(c, s, NextEvent(events).bytes, conv, found);
  }

  /** The text of a session's outcome is what it decoded: on success the chars
      before the marker, otherwise all of them. */
  lemma {:induction false} RunText(c: Config, events: seq<ReadEvent>, s: Session)
    requires 1 <= |c.marker| && Fits(c, s)
    ensures var f := Run(c, events, s);
            f.outcome.text <= f.last.decoded && (!f.outcome.MarkerFound? ==> f.outcome.text == f.last.decoded)
    decreases |events|
  {
    match Round(c, s, NextEvent(events))
    case Stop(f) =>
    case Continue(next) => RunText(c, AfterNext(events), next);
  }

  /** A whole session: both cursors at 0 and a fresh decoder. It ends with the
      cursors within the buffers, and its text is a prefix of the chars decoded,
      all of them unless the marker was found. */
  function Capture(c: Config, events: seq<ReadEvent>): (f: Final)
    requires 1 <= |c.marker|
    ensures Fits(c, f.last)
    ensures f.outcome.text <= f.last.decoded
    ensures !f.outcome.MarkerFound? ==> f.outcome.text == f.last.decoded
  {
    RunText(c, events, Session([], [], []));
    Run(c, events, Session([], [], []))
  }

  /** The notes appended to the text of a failed session. */
  const TimedOutNote: seq<CodeUnit> := Ascii("\n(Execution timed out)")
  const UnexpectedEndNote: seq<CodeUnit> := Ascii("\n(Unexpected end of output)")

  /** The `(output, failed)` pair of each outcome: the text before the marker on
      success; otherwise the chars decoded so far followed by a note, the same note
      for an ended stream and for a full buffer. */
  function Report(o: Outcome): (r: (seq<CodeUnit>, bool))
    ensures r.1 <==> !o.MarkerFound?
    ensures o.MarkerFound? ==> r.0 == o.text
  {
    match o
    case MarkerFound(text) => (text, false)
    case Cancelled(text) => (text + TimedOutNote, true)
    case EndOfStream(text) => (text + UnexpectedEndNote, true)
    case BufferExhausted(text) => (text + UnexpectedEndNote, true)
  }

  // ---------------------------------------------------------------------------
  // What a session guarantees.

  /** What holds between rounds: the cursors are in range, no byte has produced
      more than one char, the accepted chars hold no marker (under the corrected
      rule), and, when the char buffer is at least as long as the byte buffer,
      the chars are exactly the decoding of the bytes read. */
  ghost predicate Coherent(c: Config, s: Session) {
    Fits(c, s)
    && |s.decoded| + |s.pending| <= |s.received|
    && (c.rule == Corrected ==> !Contains(s.decoded, c.marker))
    && (c.byteCap <= c.charCap ==> Decode([], s.received) == Decoded(s.pending, s.decoded))
  }

  /** What a session's end guarantees: the text is the decoded chars (on success
      up to an occurrence of the marker, the first one under the corrected rule),
      the cursors are in range, and a full buffer is why a session ends with
      `BufferExhausted`. */
  ghost predicate Sound(c: Config, f: Final) {
    Fits(c, f.last)
    && |f.last.decoded| + |f.last.pending| <= |f.last.received|
    && (c.byteCap <= c.charCap ==> Decode([], f.last.received) == Decoded(f.last.pending, f.last.decoded))
    && (f.outcome.MarkerFound? ==>
          exists k :: OccursAt(f.last.decoded, c.marker, k) && f.outcome.text == f.last.decoded[..k])
    && (f.outcome.MarkerFound? && c.rule == Corrected ==>
          var k := FirstIndexOf(f.last.decoded, c.marker);
          k >= 0 && f.outcome.text == f.last.decoded[..k])
    && (!f.outcome.MarkerFound? ==> f.outcome.text == f.last.decoded)
    && (!f.outcome.MarkerFound? && c.rule == Corrected ==> !Contains(f.last.decoded, c.marker))
    && (f.outcome.BufferExhausted? ==> |f.last.received| >= c.byteCap || |f.last.decoded| >= c.charCap)
  }

  /** The decoder's output for one round, and its relation to decoding without a
      limit. */
  lemma {:induction false} RoundDecodes(c: Config, s: Session, data: seq<byte>)
    requires Coherent(c, s) && |s.received| + |data| <= c.byteCap
    ensures var conv := DecodeWithin(s.pending, data, c.charCap - |s.decoded|);
            |s.decoded| + |conv.chars| + |conv.pending| <= |s.received| + |data|
            && (c.byteCap <= c.charCap ==>
                  Decode([], s.received + data) == Decoded(conv.pending, s.decoded + conv.chars))
  {
    var conv := DecodeWithin(s.pending, data, c.charCap - |s.decoded|);
    DecodeWithinIsDecode(s.pending, data, c.charCap - |s.decoded|);
    var used := Decode(s.pending, data[..conv.bytesUsed]);
    assert used == Decoded(conv.pending, conv.chars);
    if c.byteCap <= c.charCap {
      DecodeWithinComplete(s.pending, data, c.charCap - |s.decoded|);
      assert data[..conv.bytesUsed] == data;
      DecodeAppend([], s.received, data);
      var before := Decode([], s.received);
      assert before == Decoded(s.pending, s.decoded);
      assert Decode([], s.received + data) == Decoded(used.pending, before.chars + used.chars);
    }
  }

  /** A round keeps the session coherent, or ends it soundly. */
  lemma {:induction false} RoundKeepsCoherent(c: Config, s: Session, e: ReadEvent)
    requires 1 <= |c.marker| && Coherent(c, s)
    ensures var r := Round(c, s, e);
            (r.Continue? ==> Coherent(c, r.next)) && (r.Stop? ==> Sound(c, r.final))
  {
    var r := Round(c, s, e);
    if e.Data? {
      var data := Delivered(e.bytes, c.byteCap - |s.received|);
      var conv := DecodeWithin(s.pending, data, c.charCap - |s.decoded|);
      var total := s.decoded + conv.chars;
      RoundDecodes(c, s, data);
      assert total[..|s.decoded|] == s.decoded;
      var found := Scan(c.rule, total, |s.decoded|, c.marker);
      if c.rule == Corrected {
        CorrectedScanIsFirst(total, |s.decoded|, c.marker);
      }
      if found >= 0 {
        assert OccursAt(total, c.marker, found) && r.final.outcome.text == total[..found];
      }
    }
  }

  /** Every session that starts coherent ends soundly. */
  lemma {:induction false} RunSound(c: Config, events: seq<ReadEvent>, s: Session)
    requires 1 <= |c.marker| && Coherent(c, s)
    ensures Sound(c, Run(c, events, s))
    decreases |events|
  {
    RoundKeepsCoherent(c, s, NextEvent(events));
    match Round(c, s, NextEvent(events))
    case Stop(f) =>
    case Continue(next) => RunSound(c, AfterNext(events), next);
  }

  /** The cursors never move back: every later state extends the earlier one. */
  lemma {:induction false} RunExtends(c: Config, events: seq<ReadEvent>, s: Session)
    requires 1 <= |c.marker| && Fits(c, s)
    ensures var f := Run(c, events, s);
            s.received <= f.last.received && s.decoded <= f.last.decoded
    decreases |events|
  {
    match Round(c, s, NextEvent(events))
    case Stop(f) =>
    case Continue(next) => RunExtends(c, AfterNext(events), next);
  }

  /** The end of a session, as its caller sees it. With the corrected window:
      success returns exactly the decoded chars before the first occurrence of the
      marker, which therefore never contain it; a failure returns all chars decoded
      before the session ended, which hold no marker, followed by its note. */
  lemma {:induction false} CaptureResult(c: Config, events: seq<ReadEvent>)
    requires 1 <= |c.marker| && c.rule == Corrected
    ensures var f := Capture(c, events);
            var k := FirstIndexOf(f.last.decoded, c.marker);
            var output := Report(f.outcome).0;
            var failed := Report(f.outcome).1;
            (!failed ==> k >= 0 && output == f.last.decoded[..k] && !Contains(output, c.marker))
            && (f.outcome.Cancelled? ==> output == f.last.decoded + TimedOutNote)
            && (f.outcome.EndOfStream? || f.outcome.BufferExhausted? ==>
                  output == f.last.decoded + UnexpectedEndNote)
            && (failed ==> !Contains(f.last.decoded, c.marker))
  {
    RunSound(c, events, Session([], [], []));
    var f := Capture(c, events);
    if f.outcome.MarkerFound? {
      BeforeFirstIsFree(f.last.decoded, c.marker);
    }
  }

  /** When the byte buffer is no longer than the char buffer, the decoder always
      has room: the chars a session ends with are the decoding of all the bytes it
      read, however the stream split them into reads. */
  lemma {:induction false} CaptureDecodesEverything(c: Config, events: seq<ReadEvent>)
    requires 1 <= |c.marker| && c.byteCap <= c.charCap
    ensures var f := Capture(c, events);
            Decode([], f.last.received) == Decoded(f.last.pending, f.last.decoded)
  {
    RunSound(c, events, Session([], [], []));
  }

  /** Decoding more bytes never moves the first occurrence of the marker in the
      decoded text, once there is one. */
  lemma {:induction false} FirstMarkerStays(marker: seq<CodeUnit>, received1: seq<byte>, received2: seq<byte>, p1: seq<byte>,
                         d1: seq<CodeUnit>, p2: seq<byte>, d2: seq<CodeUnit>)
    requires Decode([], received1) == Decoded(p1, d1) && Decode([], received2) == Decoded(p2, d2)
    requires received1 <= received2 && FirstIndexOf(d1, marker) >= 0
    ensures FirstIndexOf(d2, marker) == FirstIndexOf(d1, marker)
    ensures d2[..FirstIndexOf(d1, marker)] == d1[..FirstIndexOf(d1, marker)]
  {
    var more := received2[|received1|..];
    assert received2 == received1 + more;
    DecodeAppend([], received1, more);
    var tail := Decode(p1, more).chars;
    assert d2 == d1 + tail;
    FirstIndexOfExtended(d1, tail, marker);
    var k := FirstIndexOf(d1, marker);
    assert (d1 + tail)[..k] == d1[..k];
  }

  /** Two sessions over streams that deliver the same bytes in different reads
      return the same text when both find the marker: the first occurrence found
      early does not move when more bytes are decoded after it. */
  lemma {:induction false} FoundTextIndependentOfChunking(c: Config, events1: seq<ReadEvent>, events2: seq<ReadEvent>)
    requires 1 <= |c.marker| && c.rule == Corrected && c.byteCap <= c.charCap
    requires Capture(c, events1).outcome.MarkerFound? && Capture(c, events2).outcome.MarkerFound?
    requires Capture(c, events1).last.received <= Capture(c, events2).last.received
    ensures Capture(c, events1).outcome.text == Capture(c, events2).outcome.text
  {
    RunSound(c, events1, Session([], [], []));
    RunSound(c, events2, Session([], [], []));
    var f1, f2 := Capture(c, events1), Capture(c, events2);
    FirstMarkerStays(c.marker, f1.last.received, f2.last.received, f1.last.pending, f1.last.decoded,
                     f2.last.pending, f2.last.decoded);
  }
}
