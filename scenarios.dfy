// Sessions over streams of plain ASCII output: the marker in one read, the marker
// split over two reads, end of file and cancellation before the marker, a read
// that fills the buffers, the split marker that the window of the source misses
// while the corrected window finds it, and one character outside the Basic
// Multilingual Plane that does not fit.

module Scenarios {
  import opened Unicode
  import opened Utf8
  import opened MarkerSearch
  import opened Transport
  import opened CaptureSpec
  import Reader

  /** The end marker of the scenarios. */
  const Marker: seq<CodeUnit> := Ascii("<<END>>")

  /** ASCII text with no `<`, the first unit of the marker: no marker can start in it. */
  predicate Plain(t: string) {
    forall i :: 0 <= i < |t| ==> t[i] as int < 0x80 && t[i] != '<'
  }

  /** A session with the buffer lengths `ReadOutputAsync` rents. */
  function Rented(rule: WindowRule): Config {
    Config(rule, Marker, Reader.BufferLength, Reader.BufferLength)
  }

  /** An occurrence with no unit before it that could start the marker is the first. */
  lemma {:induction false} FirstOccurrenceAt(text: seq<CodeUnit>, marker: seq<CodeUnit>, i: int)
    requires 1 <= |marker| && OccursAt(text, marker, i)
    requires forall j :: 0 <= j < i ==> text[j] != marker[0]
    ensures FirstIndexOf(text, marker) == i
  {
    forall j | 0 <= j < i
      ensures !OccursAt(text, marker, j)
    {
      if j + |marker| <= |text| {
        assert text[j..j + |marker|][0] == text[j];
      }
    }
    FirstIndexOfIs(text, marker, i);
  }

  /** A text in which no unit where the marker would fit could start it holds no marker. */
  lemma {:induction false} NoOccurrence(text: seq<CodeUnit>, marker: seq<CodeUnit>)
    requires 1 <= |marker|
    requires forall j :: 0 <= j && j + |marker| <= |text| ==> text[j] != marker[0]
    ensures FirstIndexOf(text, marker) == -1
  {
    forall j
      ensures !OccursAt(text, marker, j)
    {
      if 0 <= j && j + |marker| <= |text| {
        assert text[j..j + |marker|][0] == text[j];
      }
    }
  }

  /** The scan of the first round covers the whole text. */
  lemma {:induction false} ScanFromStart(rule: WindowRule, total: seq<CodeUnit>, marker: seq<CodeUnit>)
    requires 1 <= |marker|
    ensures Scan(rule, total, 0, marker) == FirstIndexOf(total, marker)
  {
    if |total| >= |marker| {
      assert total[0..] == total;
    } else {
      assert !OccursAt(total, marker, FirstIndexOf(total, marker));
    }
  }

  /** A read that the decoder takes in whole, leaving no partial character, and in
      which the scan finds the marker: the session ends with the text before it. */
  lemma {:induction false} WholeReadFound(c: Config, events: seq<ReadEvent>, s: Session, bytes: seq<byte>, units: seq<CodeUnit>, room: nat)
    requires 1 <= |c.marker| && Fits(c, s) && s.pending == []
    requires events != [] && events[0] == Data(bytes) && |s.received| + |bytes| <= c.byteCap
    requires room == c.charCap - |s.decoded| && DecodeWithin([], bytes, room) == Conversion([], units, |bytes|)
    requires Scan(c.rule, s.decoded + units, |s.decoded|, c.marker) >= 0
    ensures Run(c, events, s) ==
            Final(MarkerFound((s.decoded + units)[..Scan(c.rule, s.decoded + units, |s.decoded|, c.marker)]),
                  Session(s.received + bytes, s.decoded + units, []))
  {
    var conv := DecodeWithin(s.pending, Delivered(bytes, c.byteCap - |s.received|), c.charCap - |s.decoded|);
    assert Delivered(bytes, c.byteCap - |s.received|) == bytes && conv == Conversion([], units, |bytes|);
    assert NextEvent(events).bytes == bytes;
    RunOnData(c, events, s, conv, Scan(c.rule, s.decoded + units, |s.decoded|, c.marker));
  }

  /** A read taken in whole in which the scan finds nothing and that fills a buffer:
      the session ends with everything decoded. */
  lemma {:induction false} WholeReadFills(c: Config, events: seq<ReadEvent>, s: Session, bytes: seq<byte>, units: seq<CodeUnit>, room: nat)
    requires 1 <= |c.marker| && Fits(c, s) && s.pending == []
    requires events != [] && events[0] == Data(bytes) && |s.received| + |bytes| <= c.byteCap
    requires room == c.charCap - |s.decoded| && DecodeWithin([], bytes, room) == Conversion([], units, |bytes|)
    requires Scan(c.rule, s.decoded + units, |s.decoded|, c.marker) < 0
    requires |s.received| + |bytes| >= c.byteCap || |s.decoded| + |units| >= c.charCap
    ensures Run(c, events, s) ==
            Final(BufferExhausted(s.decoded + units), Session(s.received + bytes, s.decoded + units, []))
  {
    var conv := DecodeWithin(s.pending, Delivered(bytes, c.byteCap - |s.received|), c.charCap - |s.decoded|);
    assert Delivered(bytes, c.byteCap - |s.received|) == bytes && conv == Conversion([], units, |bytes|);
    assert NextEvent(events).bytes == bytes;
    RunOnData(c, events, s, conv, Scan(c.rule, s.decoded + units, |s.decoded|, c.marker));
  }

  /** A read taken in whole in which the scan finds nothing and that leaves room in
      both buffers: the session goes on with the decoded chars appended. */
  lemma {:induction false} WholeReadContinues(c: Config, events: seq<ReadEvent>, s: Session, bytes: seq<byte>, units: seq<CodeUnit>, room: nat)
    requires 1 <= |c.marker| && Fits(c, s) && s.pending == []
    requires events != [] && events[0] == Data(bytes)
    requires room == c.charCap - |s.decoded| && DecodeWithin([], bytes, room) == Conversion([], units, |bytes|)
    requires Scan(c.rule, s.decoded + units, |s.decoded|, c.marker) < 0
    requires |s.received| + |bytes| < c.byteCap && |s.decoded| + |units| < c.charCap
    ensures Fits(c, Session(s.received + bytes, s.decoded + units, []))
    ensures Run(c, events, s) == Run(c, events[1..], Session(s.received + bytes, s.decoded + units, []))
  {
    var conv := DecodeWithin(s.pending, Delivered(bytes, c.byteCap - |s.received|), c.charCap - |s.decoded|);
    assert Delivered(bytes, c.byteCap - |s.received|) == bytes && conv == Conversion([], units, |bytes|);
    assert NextEvent(events).bytes == bytes && AfterNext(events) == events[1..];
    RunOnData(c, events, s, conv, Scan(c.rule, s.decoded + units, |s.decoded|, c.marker));
  }

  /** The first unit of the marker is `<`, and no unit of plain text is. */
  lemma {:induction false} PlainUnits(t: string)
    requires Plain(t)
    ensures |Marker| == 7 && Marker[0] as int == '<' as int
    ensures forall j :: 0 <= j < |t| ==> Ascii(t)[j] != Marker[0]
  {
    assert "<<END>>"[0] == '<';
  }

  // ---------------------------------------------------------------------------
  // The reference scenarios, for either window rule.

  /** A session whose only read the decoder takes in whole, and in which the first
      scan finds the marker: it succeeds with the text before it. */
  lemma {:induction false} OneReadFound(c: Config, events: seq<ReadEvent>, b: seq<byte>, u: seq<CodeUnit>)
    requires 1 <= |c.marker| && |b| <= c.byteCap && events != [] && events[0] == Data(b)
    requires DecodeWithin([], b, c.charCap) == Conversion([], u, |b|)
    requires Scan(c.rule, u, 0, c.marker) >= 0
    ensures Capture(c, events).outcome == MarkerFound(u[..Scan(c.rule, u, 0, c.marker)])
  {
    var s0 := Session([], [], []);
    assert s0.decoded + u == u && |s0.decoded| == 0;
    WholeReadFound(c, events, s0, b, u, c.charCap);
  }

  /** A session whose first read the decoder takes in whole, holds no marker and
      fills a buffer: it fails with everything decoded. */
  lemma {:induction false} OneReadFills(c: Config, events: seq<ReadEvent>, b: seq<byte>, u: seq<CodeUnit>)
    requires 1 <= |c.marker| && |b| <= c.byteCap && events != [] && events[0] == Data(b)
    requires DecodeWithin([], b, c.charCap) == Conversion([], u, |b|)
    requires Scan(c.rule, u, 0, c.marker) < 0 && (|b| >= c.byteCap || |u| >= c.charCap)
    ensures Capture(c, events).outcome == BufferExhausted(u)
  {
    var s0 := Session([], [], []);
    assert s0.decoded + u == u && |s0.decoded| == 0;
    WholeReadFills(c, events, s0, b, u, c.charCap);
  }

  /** Plain text followed by the marker: the first round's scan finds the marker
      right after the text. */
  lemma {:induction false} PlainThenMarker(rule: WindowRule, pre: string)
    requires Plain(pre)
    ensures forall i :: 0 <= i < |pre + "<<END>>"| ==> (pre + "<<END>>")[i] as int < 0x80
    ensures Scan(rule, Ascii(pre + "<<END>>"), 0, Marker) == |pre|
    ensures Ascii(pre + "<<END>>")[..|pre|] == Ascii(pre)
  {
    PlainUnits(pre);
    var text := pre + "<<END>>";
    assert forall i :: 0 <= i < |text| ==> text[i] as int < 0x80;
    AsciiAppend(pre, "<<END>>");
    var total := Ascii(text);
    assert total[|pre|..|pre| + 7] == Marker;
    FirstOccurrenceAt(total, Marker, |pre|);
    ScanFromStart(rule, total, Marker);
    assert total[..|pre|] == Ascii(pre);
  }

  /** The whole output and the marker arrive in one read: the output is the text
      before the marker and the session has not failed. */
  lemma {:induction false} MarkerInOneRead(rule: WindowRule, pre: string)
    requires Plain(pre) && |pre| + 7 <= Reader.BufferLength
    ensures Report(Capture(Rented(rule), [Data(Encode(pre + "<<END>>"))]).outcome) == (Ascii(pre), false)
  {
    PlainThenMarker(rule, pre);
    DecodeWithinAscii(pre + "<<END>>", Reader.BufferLength);
    OneReadFound(Rented(rule), [Data(Encode(pre + "<<END>>"))], Encode(pre + "<<END>>"), Ascii(pre + "<<END>>"));
  }

  /** Plain text holds no marker, so the first round's scan finds nothing. */
  lemma {:induction false} PlainHasNoMarker(rule: WindowRule, text: string)
    requires Plain(text)
    ensures Scan(rule, Ascii(text), 0, Marker) == -1
  {
    PlainUnits(text);
    NoOccurrence(Ascii(text), Marker);
    ScanFromStart(rule, Ascii(text), Marker);
  }

  /** Plain text followed by the first three units of the marker holds no marker. */
  lemma {:induction false} PlainThenPartial(rule: WindowRule, pre: string)
    requires Plain(pre)
    ensures forall i :: 0 <= i < |pre + "<<E"| ==> (pre + "<<E")[i] as int < 0x80
    ensures Scan(rule, Ascii(pre + "<<E"), 0, Marker) == -1
  {
    PlainUnits(pre);
    var text := pre + "<<E";
    assert forall i :: 0 <= i < |text| ==> text[i] as int < 0x80;
    forall j | 0 <= j && j + 7 <= |text|
      ensures Ascii(text)[j] != Marker[0]
    {
      assert text[j] == pre[j];
    }
    NoOccurrence(Ascii(text), Marker);
    ScanFromStart(rule, Ascii(text), Marker);
  }

  /** The marker opens with two `<` and holds no other. */
  lemma {:induction false} MarkerUnits()
    ensures |Marker| == 7 && Marker[0] == Marker[1] && Marker[0] as int == '<' as int
    ensures Marker[2] != Marker[0]
    ensures forall j :: 2 <= j < 7 ==> Marker[j] != Marker[0]
  {
    assert "<<END>>"[0] == '<' && "<<END>>"[1] == '<';
    forall j | 2 <= j < 7
      ensures Marker[j] != Marker[0]
    {
      assert "<<END>>"[j] != '<';
    }
  }

  /** In plain text, the marker, and plain text again, the marker occurs at one
      index only: right after the first text. */
  lemma {:induction false} MarkerOnlyAt(pre: string, post: string)
    requires Plain(pre) && Plain(post)
    ensures forall k :: OccursAt(Ascii(pre) + Marker + Ascii(post), Marker, k) <==> k == |pre|
  {
    PlainUnits(pre);
    PlainUnits(post);
    MarkerUnits();
    var total := Ascii(pre) + Marker + Ascii(post);
    assert total[|pre|..|pre| + 7] == Marker;
    forall k | 0 <= k && k + 7 <= |total|
      ensures OccursAt(total, Marker, k) ==> k == |pre|
    {
      assert total[k..k + 7][0] == total[k] && total[k..k + 7][1] == total[k + 1];
      if k < |pre| {
        assert total[k] == Ascii(pre)[k];
      } else if k >= |pre| + 7 {
        assert total[k] == Ascii(post)[k - |pre| - 7];
      } else if k == |pre| + 1 {
        assert total[k + 1] == Marker[2];
      } else if k > |pre| + 1 {
        assert total[k] == Marker[k - |pre|];
      }
    }
  }

  /** The scan of a round over a text whose only occurrence of the marker is at `p`
      finds it exactly when the window starts at or before `p`. */
  lemma {:induction false} ScanSingleOccurrence(rule: WindowRule, total: seq<CodeUnit>, charIndex: nat, p: nat)
    requires charIndex <= |total| && p + |Marker| <= |total|
    requires forall k :: OccursAt(total, Marker, k) <==> k == p
    ensures Scan(rule, total, charIndex, Marker) ==
            (if WindowStart(rule, charIndex, |total|, |Marker|) <= p then p else -1)
  {
    MarkerUnits();
    var start := WindowStart(rule, charIndex, |total|, |Marker|);
    var rest := total[start..];
    if start <= p {
      OccursInSuffix(total, Marker, start, p - start);
      forall j | 0 <= j < p - start
        ensures !OccursAt(rest, Marker, j)
      {
        OccursInSuffix(total, Marker, start, j);
      }
      FirstIndexOfIs(rest, Marker, p - start);
    } else {
      forall j: nat
        ensures !OccursAt(rest, Marker, j)
      {
        OccursInSuffix(total, Marker, start, j);
      }
      assert !Contains(rest, Marker);
    }
  }

  /** The units of the two halves of a split marker, with the text around them,
      join up to the text, the marker and the text. */
  lemma {:induction false} SplitMarkerJoins(pre: string, post: string)
    requires Plain(pre) && Plain(post)
    ensures forall i :: 0 <= i < |pre + "<<E"| ==> (pre + "<<E")[i] as int < 0x80
    ensures forall i :: 0 <= i < |"ND>>" + post| ==> ("ND>>" + post)[i] as int < 0x80
    ensures Ascii(pre + "<<E") + Ascii("ND>>" + post) == Ascii(pre) + Marker + Ascii(post)
  {
    assert forall i :: 0 <= i < |pre + "<<E"| ==> (pre + "<<E")[i] as int < 0x80;
    assert forall i :: 0 <= i < |"ND>>" + post| ==> ("ND>>" + post)[i] as int < 0x80;
    AsciiAppend(pre, "<<E");
    AsciiAppend("ND>>", post);
    AsciiAppend("<<E", "ND>>");
    assert "<<E" + "ND>>" == "<<END>>";
  }

  /** The decoded text after the second half of a split marker arrives, and what
      the second round's scan finds in it. */
  lemma {:induction false} SecondHalfScan(rule: WindowRule, pre: string, post: string)
    requires Plain(pre) && Plain(post)
    ensures forall i :: 0 <= i < |"ND>>" + post| ==> ("ND>>" + post)[i] as int < 0x80
    ensures var total := Ascii(pre + "<<E") + Ascii("ND>>" + post);
            && total == Ascii(pre) + Marker + Ascii(post)
            && total[..|pre|] == Ascii(pre)
            && Scan(rule, total, |pre| + 3, Marker) ==
               (if WindowStart(rule, |pre| + 3, |total|, 7) <= |pre| then |pre| else -1)
  {
    PlainThenPartial(rule, pre);
    MarkerOnlyAt(pre, post);
    SplitMarkerJoins(pre, post);
    var total := Ascii(pre) + Marker + Ascii(post);
    assert total[..|pre|] == Ascii(pre);
    ScanSingleOccurrence(rule, total, |pre| + 3, |pre|);
  }

  /** A session whose first read the decoder takes in whole, holds no marker and
      leaves room in both buffers: it goes on to the second read. */
  lemma {:induction false} FirstReadContinues(c: Config, events: seq<ReadEvent>, b: seq<byte>, u: seq<CodeUnit>)
    requires 1 <= |c.marker| && events != [] && events[0] == Data(b)
    requires DecodeWithin([], b, c.charCap) == Conversion([], u, |b|)
    requires Scan(c.rule, u, 0, c.marker) < 0 && |b| < c.byteCap && |u| < c.charCap
    ensures Fits(c, Session(b, u, []))
    ensures Capture(c, events) == Run(c, events[1..], Session(b, u, []))
  {
    var s0 := Session([], [], []);
    assert s0.received + b == b && s0.decoded + u == u;
    WholeReadContinues(c, events, s0, b, u, c.charCap);
  }

  /** A session whose first two reads the decoder takes in whole, with the marker
      found in the second: it succeeds with the text before it. */
  lemma {:induction false} SecondReadFound(c: Config, events: seq<ReadEvent>, b1: seq<byte>, u1: seq<CodeUnit>, b2: seq<byte>, u2: seq<CodeUnit>)
    requires 1 <= |c.marker| && |events| >= 2 && events[0] == Data(b1) && events[1] == Data(b2)
    requires |b1| + |b2| < c.byteCap && |u1| + |u2| < c.charCap
    requires DecodeWithin([], b1, c.charCap) == Conversion([], u1, |b1|)
    requires DecodeWithin([], b2, c.charCap - |u1|) == Conversion([], u2, |b2|)
    requires Scan(c.rule, u1, 0, c.marker) == -1 && Scan(c.rule, u1 + u2, |u1|, c.marker) >= 0
    ensures Capture(c, events).outcome == MarkerFound((u1 + u2)[..Scan(c.rule, u1 + u2, |u1|, c.marker)])
  {
    FirstReadContinues(c, events, b1, u1);
    var rest, s := events[1..], Session(b1, u1, []);
    assert rest[0] == events[1] && s.received == b1 && s.decoded == u1 && s.pending == [];
    WholeReadFound(c, rest, s, b2, u2, c.charCap - |u1|);
    var f := Run(c, rest, s);
    assert Capture(c, events) == f;
  }

  /** A session whose first two reads the decoder takes in whole, with no marker
      found in either: it goes on to the remaining reads. */
  lemma {:induction false} SecondReadContinues(c: Config, events: seq<ReadEvent>, b1: seq<byte>, u1: seq<CodeUnit>, b2: seq<byte>, u2: seq<CodeUnit>)
    requires 1 <= |c.marker| && |events| >= 2 && events[0] == Data(b1) && events[1] == Data(b2)
    requires |b1| + |b2| < c.byteCap && |u1| + |u2| < c.charCap
    requires DecodeWithin([], b1, c.charCap) == Conversion([], u1, |b1|)
    requires DecodeWithin([], b2, c.charCap - |u1|) == Conversion([], u2, |b2|)
    requires Scan(c.rule, u1, 0, c.marker) == -1 && Scan(c.rule, u1 + u2, |u1|, c.marker) < 0
    ensures Fits(c, Session(b1 + b2, u1 + u2, []))
    ensures Capture(c, events) == Run(c, events[2..], Session(b1 + b2, u1 + u2, []))
  {
    var rest, s := events[1..], Session(b1, u1, []);
    assert rest[0] == events[1] && rest[1..] == events[2..];
    assert s.received == b1 && s.decoded == u1 && s.pending == [];
    FirstReadContinues(c, events, b1, u1);
    WholeReadContinues(c, rest, s, b2, u2, c.charCap - |u1|);
  }

  /** The two reads of a split marker: each is decoded in whole within the room
      the rented buffers leave, the first holds no marker, and the second round's
      scan finds the marker exactly when its window reaches back to it. */
  lemma {:induction false} SplitReads(rule: WindowRule, pre: string, post: string)
    requires Plain(pre) && Plain(post) && |pre| + 7 + |post| < Reader.BufferLength
    ensures forall i :: 0 <= i < |pre + "<<E"| ==> (pre + "<<E")[i] as int < 0x80
    ensures forall i :: 0 <= i < |"ND>>" + post| ==> ("ND>>" + post)[i] as int < 0x80
    ensures var b1, u1, b2, u2 := Encode(pre + "<<E"), Ascii(pre + "<<E"), Encode("ND>>" + post), Ascii("ND>>" + post);
            && |b1| == |u1| == |pre| + 3 && |b2| == |u2| == 4 + |post|
            && DecodeWithin([], b1, Reader.BufferLength) == Conversion([], u1, |b1|)
            && DecodeWithin([], b2, Reader.BufferLength - |u1|) == Conversion([], u2, |b2|)
            && Scan(rule, u1, 0, Marker) == -1
            && u1 + u2 == Ascii(pre) + Marker + Ascii(post)
            && (u1 + u2)[..|pre|] == Ascii(pre)
            && Scan(rule, u1 + u2, |u1|, Marker) ==
               (if WindowStart(rule, |pre| + 3, |pre| + 7 + |post|, 7) <= |pre| then |pre| else -1)
  {
    PlainThenPartial(rule, pre);
    SecondHalfScan(rule, pre, post);
    DecodeWithinAscii(pre + "<<E", Reader.BufferLength);
    DecodeWithinAscii("ND>>" + post, Reader.BufferLength - |pre| - 3);
  }

  /** Two whole reads, `n` units of text and the first three of the marker, then
      the marker's last four and `m` more: the session succeeds with the text when
      the second round's window reaches back to the marker, and otherwise goes on
      with all of it decoded. */
  lemma {:induction false} SplitRunOn(rule: WindowRule, rest: seq<ReadEvent>, b1: seq<byte>, u1: seq<CodeUnit>,
                                      b2: seq<byte>, u2: seq<CodeUnit>, text: seq<CodeUnit>, whole: seq<CodeUnit>, n: nat, m: nat)
    requires |b1| == |u1| == n + 3 && |b2| == |u2| == 4 + m && n + 7 + m < Reader.BufferLength
    requires DecodeWithin([], b1, Reader.BufferLength) == Conversion([], u1, |b1|)
    requires DecodeWithin([], b2, Reader.BufferLength - |u1|) == Conversion([], u2, |b2|)
    requires Scan(rule, u1, 0, Marker) == -1 && u1 + u2 == whole && (u1 + u2)[..n] == text
    requires Scan(rule, u1 + u2, |u1|, Marker) == (if WindowStart(rule, n + 3, n + 7 + m, 7) <= n then n else -1)
    ensures var c, events := Rented(rule), [Data(b1), Data(b2)] + rest;
            && (WindowStart(rule, n + 3, n + 7 + m, 7) <= n ==> Capture(c, events).outcome == MarkerFound(text))
            && (WindowStart(rule, n + 3, n + 7 + m, 7) > n ==>
                  Fits(c, Session(b1 + b2, whole, [])) && Capture(c, events) == Run(c, rest, Session(b1 + b2, whole, [])))
  {
    var c, events := Rented(rule), [Data(b1), Data(b2)] + rest;
    assert events[0] == Data(b1) && events[1] == Data(b2) && events[2..] == rest;
    if WindowStart(rule, n + 3, n + 7 + m, 7) <= n {
      SecondReadFound(c, events, b1, u1, b2, u2);
    } else {
      SecondReadContinues(c, events, b1, u1, b2, u2);
    }
  }

  /** A session whose first read ends inside the marker and whose second read
      brings the rest of it followed by `post`: it succeeds in the second round
      when that round's window reaches back to the marker's start, and otherwise
      goes on to the remaining reads with all of the text decoded. */
  lemma {:induction false} SplitRun(rule: WindowRule, pre: string, post: string, rest: seq<ReadEvent>)
    requires Plain(pre) && Plain(post) && |pre| + 7 + |post| < Reader.BufferLength
    ensures var c := Rented(rule);
            var events := [Data(Encode(pre + "<<E")), Data(Encode("ND>>" + post))] + rest;
            var after := Session(Encode(pre + "<<E") + Encode("ND>>" + post), Ascii(pre) + Marker + Ascii(post), []);
            && (WindowStart(rule, |pre| + 3, |pre| + 7 + |post|, 7) <= |pre| ==>
                  Capture(c, events).outcome == MarkerFound(Ascii(pre)))
            && (WindowStart(rule, |pre| + 3, |pre| + 7 + |post|, 7) > |pre| ==>
                  Fits(c, after) && Capture(c, events) == Run(c, rest, after))
  {
    SplitReads(rule, pre, post);
    SplitRunOn(rule, rest, Encode(pre + "<<E"), Ascii(pre + "<<E"), Encode("ND>>" + post), Ascii("ND>>" + post),
               Ascii(pre), Ascii(pre) + Marker + Ascii(post), |pre|, |post|);
  }

  /** The marker split over two reads, the second ending with it: the output is
      the text before the marker under either window rule. */
  lemma {:induction false} MarkerSplitAcrossReads(rule: WindowRule, pre: string)
    requires Plain(pre) && |pre| + 7 < Reader.BufferLength
    ensures Report(Capture(Rented(rule), [Data(Encode(pre + "<<E")), Data(Encode("ND>>"))]).outcome) == (Ascii(pre), false)
  {
    SplitRun(rule, pre, "", []);
    assert "ND>>" + "" == "ND>>";
    assert [Data(Encode(pre + "<<E")), Data(Encode("ND>>"))] + [] == [Data(Encode(pre + "<<E")), Data(Encode("ND>>"))];
  }

  /** Output without the marker, then end of file or cancellation: the session
      fails with the decoded text and the matching note. */
  lemma {:induction false} SignalAfterPlainRead(rule: WindowRule, text: string, signal: ReadEvent)
    requires Plain(text) && |text| < Reader.BufferLength && !signal.Data?
    ensures Report(Capture(Rented(rule), [Data(Encode(text)), signal]).outcome) ==
            (Ascii(text) + (if signal.CancelFirst? then TimedOutNote else UnexpectedEndNote), true)
  {
    var c := Rented(rule);
    var events := [Data(Encode(text)), signal];
    PlainHasNoMarker(rule, text);
    var s0 := Session([], [], []);
    DecodeWithinAscii(text, c.charCap);
    assert s0.decoded + Ascii(text) == Ascii(text);
    WholeReadContinues(c, events, s0, Encode(text), Ascii(text), c.charCap);
    var s1 := Session(s0.received + Encode(text), s0.decoded + Ascii(text), []);
    assert s1.decoded == Ascii(text);
    assert events[1..] == [signal];
    RunOnSignal(c, events[1..], s1);
  }

  /** Output without the marker that fills the buffers in one read: the session
      fails with everything decoded and the unexpected-end note. */
  lemma {:induction false} FullBufferFails(rule: WindowRule, text: string)
    requires Plain(text) && |text| == Reader.BufferLength
    ensures Report(Capture(Rented(rule), [Data(Encode(text))]).outcome) == (Ascii(text) + UnexpectedEndNote, true)
  {
    PlainHasNoMarker(rule, text);
    DecodeWithinAscii(text, Reader.BufferLength);
    OneReadFills(Rented(rule), [Data(Encode(text))], Encode(text), Ascii(text));
  }

  // ---------------------------------------------------------------------------
  // The window of the source against the corrected one.

  /** A failure report built from text that holds the marker still holds it. */
  lemma {:induction false} NoteKeepsMarker(pre: string, post: string)
    requires Plain(pre) && Plain(post)
    ensures Contains(Ascii(pre) + Marker + Ascii(post) + UnexpectedEndNote, Marker)
  {
    PlainUnits(pre);
    var text := Ascii(pre) + Marker + Ascii(post) + UnexpectedEndNote;
    assert text[|pre|..|pre| + 7] == Marker;
    assert OccursAt(text, Marker, |pre|);
  }

  /** The window of the source misses a marker that straddles two reads whenever
      anything follows it in the second read: the stream then ends, and the session
      reports a failure whose text holds the marker. */
  lemma {:induction false} StraddlingMarkerMissed(pre: string, post: string)
    requires Plain(pre) && Plain(post) && 1 <= |post| && |pre| + 7 + |post| < Reader.BufferLength
    ensures var r := Report(Capture(Rented(AsWritten),
                              [Data(Encode(pre + "<<E")), Data(Encode("ND>>" + post)), EndOfFile]).outcome);
            && r == (Ascii(pre) + Marker + Ascii(post) + UnexpectedEndNote, true)
            && Contains(r.0, Marker)
  {
    SplitRun(AsWritten, pre, post, [EndOfFile]);
    assert WindowStart(AsWritten, |pre| + 3, |pre| + 7 + |post|, 7) > |pre|;
    var after := Session(Encode(pre + "<<E") + Encode("ND>>" + post), Ascii(pre) + Marker + Ascii(post), []);
    var events := [Data(Encode(pre + "<<E")), Data(Encode("ND>>" + post))] + [EndOfFile];
    assert Fits(Rented(AsWritten), after);
    assert Capture(Rented(AsWritten), events) == Run(Rented(AsWritten), [EndOfFile], after);
    RunOnSignal(Rented(AsWritten), [EndOfFile], after);
    assert Capture(Rented(AsWritten), events).outcome == EndOfStream(Ascii(pre) + Marker + Ascii(post));
    assert events == [Data(Encode(pre + "<<E")), Data(Encode("ND>>" + post)), EndOfFile];
    NoteKeepsMarker(pre, post);
  }

  /** The corrected window finds the same straddling marker, whatever follows. */
  lemma {:induction false} StraddlingMarkerFound(pre: string, post: string, rest: seq<ReadEvent>)
    requires Plain(pre) && Plain(post) && |pre| + 7 + |post| < Reader.BufferLength
    ensures Report(Capture(Rented(Corrected),
                           [Data(Encode(pre + "<<E")), Data(Encode("ND>>" + post))] + rest).outcome) == (Ascii(pre), false)
  {
    SplitRun(Corrected, pre, post, rest);
  }

  // ---------------------------------------------------------------------------
  // A character that does not fit in what is left of the char buffer.

  /** A first read the decoder need not take in whole, in which the scan finds
      nothing and that leaves room in both buffers: every delivered byte counts as
      received, and the session goes on. */
  lemma {:induction false} FirstReadPartlyTaken(c: Config, events: seq<ReadEvent>, b: seq<byte>, u: seq<CodeUnit>, used: nat)
    requires 1 <= |c.marker| && events != [] && events[0] == Data(b)
    requires DecodeWithin([], b, c.charCap) == Conversion([], u, used)
    requires Scan(c.rule, u, 0, c.marker) < 0 && |b| < c.byteCap && |u| < c.charCap
    ensures Fits(c, Session(b, u, []))
    ensures Capture(c, events) == Run(c, events[1..], Session(b, u, []))
  {
    var s0 := Session([], [], []);
    assert s0.received + b == b && s0.decoded + u == u;
    assert NextEvent(events).bytes == b && AfterNext(events) == events[1..];
    RunOnData(c, events, s0, Conversion([], u, used), Scan(c.rule, u, 0, c.marker));
  }

  /** The facts of the wide-character session: the first read writes the text and
      drops the wide character, which is four bytes; the second read writes its one
      char, and the joined text holds no marker. */
  lemma {:induction false} WideFacts(rule: WindowRule, text: string, wide: char, after: string)
    requires Plain(text) && Plain(after) && |after| == 1 && wide as int >= 0x1_0000
    ensures |Encode(text) + EncodeScalar(wide)| == |text| + 4 && |Encode(after)| == 1
    ensures DecodeWithin([], Encode(text) + EncodeScalar(wide), |text| + 1) == Conversion([], Ascii(text), |Encode(text)|)
    ensures Scan(rule, Ascii(text), 0, Marker) < 0
    ensures DecodeWithin([], Encode(after), 1) == Conversion([], Ascii(after), 1)
    ensures Ascii(text) + Ascii(after) == Ascii(text + after)
    ensures Scan(rule, Ascii(text) + Ascii(after), |Ascii(text)|, Marker) < 0
  {
    DecodeEncode(text);
    AsciiIsUtf16(text);
    EncodeAsciiLength(text);
    EncodeScalarWellFormed(wide);
    assert |Utf16(CodePoint(EncodeScalar(wide)))| == 2;
    DecodeWithinLeavesWide(Encode(text), Ascii(text), EncodeScalar(wide), |text| + 1);
    PlainHasNoMarker(rule, text);
    DecodeWithinAscii(after, 1);
    AsciiAppend(text, after);
    PlainUnits(text + after);
    NoOccurrence(Ascii(text + after), Marker);
  }

  /** Non-empty plain text that leaves room for one code unit, then in the same read
      a character outside the Basic Multilingual Plane, then a read of one plain char.
      The wide character needs two units and is dropped whole, so the next read's
      char takes the last slot and the full char buffer ends the session. (With no
      text before it, the conversion could not write even its first character.) */
  lemma {:induction false} WideCharacterLeavesRoom(rule: WindowRule, text: string, wide: char, after: string, byteCap: nat)
    requires Plain(text) && 1 <= |text| && Plain(after) && |after| == 1 && wide as int >= 0x1_0000
    requires |text| + 5 < byteCap
    ensures Report(Capture(Config(rule, Marker, byteCap, |text| + 1),
                           [Data(Encode(text) + EncodeScalar(wide)), Data(Encode(after))]).outcome)
            == (Ascii(text + after) + UnexpectedEndNote, true)
  {
    WideFacts(rule, text, wide, after);
    var c := Config(rule, Marker, byteCap, |text| + 1);
    var b1, b2 := Encode(text) + EncodeScalar(wide), Encode(after);
    var u1, u2 := Ascii(text), Ascii(after);
    var events := [Data(b1), Data(b2)];
    FirstReadPartlyTaken(c, events, b1, u1, |Encode(text)|);
    var s1 := Session(b1, u1, []);
    assert events[1..] == [Data(b2)];
    WholeReadFills(c, [Data(b2)], s1, b2, u2, 1);
  }
}
