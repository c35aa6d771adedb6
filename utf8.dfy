// The incremental UTF-8 decoder behind `Encoding.UTF8.GetDecoder()`: bytes go in,
// UTF-16 code units come out, and the bytes of a character that is not yet complete
// are carried over to the next call.

module Utf8 {
  import opened Unicode
  import Buffers

  /** The number of bytes in the sequence that `lead` starts, by the well-formed
      lead bytes of section 4 of RFC 3629; 0 when `lead` cannot start one. */
  function SequenceLength(lead: byte): (n: nat)
    ensures n <= 4
    ensures n == 1 <==> lead < 0x80
  {
    if lead < 0x80 then 1
    else if 0xC2 <= lead <= 0xDF then 2
    else if 0xE0 <= lead <= 0xEF then 3
    else if 0xF0 <= lead <= 0xF4 then 4
    else 0
  }

  /** Whether `b` may stand at `position` (1, 2 or 3) of a sequence that starts
      with `lead` (section 4 of RFC 3629): the range of the second byte depends on
      the lead byte, later bytes are 80..BF. */
  predicate Follows(lead: byte, position: nat, b: byte) {
    if position == 1 then
      if lead == 0xE0 then 0xA0 <= b <= 0xBF
      else if lead == 0xED then 0x80 <= b <= 0x9F
      else if lead == 0xF0 then 0x90 <= b <= 0xBF
      else if lead == 0xF4 then 0x80 <= b <= 0x8F
      else 0x80 <= b <= 0xBF
    else
      0x80 <= b <= 0xBF
  }

  /** Every byte after the first may stand where it does. */
  ghost predicate WellFormedTail(p: seq<byte>) {
    (|p| > 1 ==> Follows(p[0], 1, p[1]))
    && (|p| > 2 ==> Follows(p[0], 2, p[2]))
    && (|p| > 3 ==> Follows(p[0], 3, p[3]))
  }

  /** What the decoder may carry between calls: the start of a well-formed
      multi-byte sequence that is not complete yet. */
  ghost predicate IsPendingPrefix(p: seq<byte>) {
    p == [] || (2 <= SequenceLength(p[0]) && |p| < SequenceLength(p[0]) && WellFormedTail(p))
  }

  /** One complete well-formed UTF-8 sequence. */
  ghost predicate IsSequence(p: seq<byte>) {
    1 <= |p| && |p| == SequenceLength(p[0]) && WellFormedTail(p)
  }

  /** The scalar value a complete sequence encodes (the bit layout of section 3
      of RFC 3629). */
  function CodePoint(p: seq<byte>): (cp: int)
    requires IsSequence(p)
    ensures IsScalar(cp)
    ensures cp < 0x1_0000 <==> |p| < 4
  {
    if |p| == 1 then p[0] as int
    else if |p| == 2 then (p[0] as int - 0xC0) * 0x40 + (p[1] as int - 0x80)
    else if |p| == 3 then
      (p[0] as int - 0xE0) * 0x1000 + (p[1] as int - 0x80) * 0x40 + (p[2] as int - 0x80)
    else
      (p[0] as int - 0xF0) * 0x4_0000 + (p[1] as int - 0x80) * 0x1000
        + (p[2] as int - 0x80) * 0x40 + (p[3] as int - 0x80)
  }

  /** Decoding a byte with nothing pending: ASCII is one unit, a lead byte is kept,
      any other byte is replaced by U+FFFD. */
  function Start(b: byte): (r: (seq<byte>, seq<CodeUnit>))
    ensures IsPendingPrefix(r.0)
    ensures |r.0| + |r.1| == 1
  {
    if b < 0x80 then ([], [b as int as CodeUnit])
    else if SequenceLength(b) >= 2 then ([b], [])
    else ([], [Replacement])
  }

  /** Decoding one byte: a byte that continues the pending sequence is added to it
      and a completed sequence is written as UTF-16; a byte that does not continue
      it ends the ill-formed part with one U+FFFD and is then decoded afresh. */
  function Step(pending: seq<byte>, b: byte): (r: (seq<byte>, seq<CodeUnit>))
    requires IsPendingPrefix(pending)
    ensures IsPendingPrefix(r.0)
    ensures |r.0| + |r.1| <= |pending| + 1
    ensures |r.1| <= 2
  {
    if pending == [] then Start(b)
    else if Follows(pending[0], |pending|, b) then
      var p := pending + [b];
      assert p[0] == pending[0] && p[|pending|] == b;
      assert forall i :: 0 <= i < |pending| ==> p[i] == pending[i];
      if |p| == SequenceLength(p[0]) then ([], Utf16(CodePoint(p))) else (p, [])
    else
      var (p, u) := Start(b);
      (p, [Replacement] + u)
  }

  /** The decoder's state after some bytes, and the code units they produced. */
  datatype Decoded = Decoded(pending: seq<byte>, chars: seq<CodeUnit>)

  /** Decoding without an output limit and without flushing: what is still
      incomplete at the end stays pending. No byte ever yields more than one
      code unit beyond what it and the pending bytes account for. */
  function Decode(pending: seq<byte>, bytes: seq<byte>): (r: Decoded)
    requires IsPendingPrefix(pending)
    ensures IsPendingPrefix(r.pending)
    ensures |r.chars| + |r.pending| <= |pending| + |bytes|
    decreases |bytes|
  {
    if bytes == [] then Decoded(pending, [])
    else
      var first := Step(pending, bytes[0]);
      var rest := Decode(first.0, bytes[1..]);
      Decoded(rest.pending, first.1 + rest.chars)
  }

  /** Decoding is independent of how the bytes are split between calls: decoding
      `a + b` is decoding `a`, then `b` from the state `a` left. */
  lemma {:induction false} DecodeAppend(pending: seq<byte>, a: seq<byte>, b: seq<byte>)
    requires IsPendingPrefix(pending)
    ensures var first := Decode(pending, a);
            var second := Decode(first.pending, b);
            Decode(pending, a + b) == Decoded(second.pending, first.chars + second.chars)
    decreases |a|
  {
    var whole := a + b;
    if a == [] {
      assert whole == b;
    } else {
      assert whole[0] == a[0];
      assert whole[1..] == a[1..] + b;
      var st := Step(pending, a[0]);
      DecodeAppend(st.0, a[1..], b);
      var rest := Decode(st.0, a[1..]);
      var second := Decode(rest.pending, b);
      assert Decode(st.0, whole[1..]) == Decoded(second.pending, rest.chars + second.chars);
      var x, y, z := st.1, rest.chars, second.chars;
      assert x + (y + z) == (x + y) + z;
      assert Decode(pending, whole) == Decoded(second.pending, x + (y + z));
    }
  }

  /** Decoding one more byte is one more step from the state the others left. */
  lemma {:induction false} DecodeSnoc(pending: seq<byte>, a: seq<byte>, x: byte)
    requires IsPendingPrefix(pending)
    ensures var d := Decode(pending, a);
            var st := Step(d.pending, x);
            Decode(pending, a + [x]) == Decoded(st.0, d.chars + st.1)
  {
    DecodeAppend(pending, a, [x]);
    var d := Decode(pending, a);
    var st := Step(d.pending, x);
    assert [x][1..] == [];
    assert Decode(d.pending, [x]) == Decoded(st.0, st.1 + []);
  }

  /** What a `Decoder.Convert` call with room for `capacity` code units produces. */
  datatype Conversion = Conversion(pending: seq<byte>, chars: seq<CodeUnit>, bytesUsed: nat)

  /** The first `n` bytes end on a character boundary: after them nothing is
      pending, or none of them were taken at all. */
  predicate AtBoundary(pending: seq<byte>, bytes: seq<byte>, n: nat)
    requires IsPendingPrefix(pending) && n <= |bytes|
  {
    n == 0 || Decode(pending, bytes[..n]).pending == []
  }

  /** Decoding into a destination of `capacity` code units, one byte after the
      other. When the output of all of `bytes` fits, all of them are taken, and an
      incomplete character at the end stays pending. Otherwise the conversion stops
      after the last complete character that fits: a byte inside a character whose
      output does not fit is given back, so not even the leading bytes of that
      character are taken. */
  function DecodeWithin(pending: seq<byte>, bytes: seq<byte>, capacity: nat): (r: Conversion)
    requires IsPendingPrefix(pending)
    ensures IsPendingPrefix(r.pending)
    ensures r.bytesUsed <= |bytes| && |r.chars| <= capacity
    decreases |bytes|
  {
    if bytes == [] then Conversion(pending, [], 0)
    else
      var step := Step(pending, bytes[0]);
      if |step.1| > capacity then Conversion(pending, [], 0)
      else
        var rest := DecodeWithin(step.0, bytes[1..], capacity - |step.1|);
        if step.0 != [] && rest.bytesUsed == 0 && |bytes| > 1 then Conversion(pending, [], 0)
        else Conversion(rest.pending, step.1 + rest.chars, rest.bytesUsed + 1)
  }

  /** What a capacity-limited conversion produces is exactly the unlimited decoding
      of the bytes it used. */
  lemma {:induction false} DecodeWithinIsDecode(pending: seq<byte>, bytes: seq<byte>, capacity: nat)
    requires IsPendingPrefix(pending)
    ensures var r := DecodeWithin(pending, bytes, capacity);
            Decode(pending, bytes[..r.bytesUsed]) == Decoded(r.pending, r.chars)
    decreases |bytes|
  {
    if bytes != [] {
      var step := Step(pending, bytes[0]);
      var r := DecodeWithin(pending, bytes, capacity);
      if r.bytesUsed == 0 {
        assert bytes[..0] == [];
      } else {
        DecodeWithinIsDecode(step.0, bytes[1..], capacity - |step.1|);
        DecodePrefix(pending, bytes, r.bytesUsed);
      }
    }
  }

  /** Decoding a non-empty prefix is the first byte's step and then the rest. */
  lemma {:induction false} DecodePrefix(pending: seq<byte>, bytes: seq<byte>, j: nat)
    requires IsPendingPrefix(pending) && 1 <= j <= |bytes|
    ensures var step := Step(pending, bytes[0]);
            var rest := Decode(step.0, bytes[1..][..j - 1]);
            Decode(pending, bytes[..j]) == Decoded(rest.pending, step.1 + rest.chars)
  {
    assert bytes[..j][0] == bytes[0] && bytes[..j][1..] == bytes[1..][..j - 1];
  }

  /** A capacity-limited conversion stops early only when the output of all its
      input would not fit. It then stops on a character boundary, and no later
      boundary's output fits. */
  lemma {:induction false} DecodeWithinStopsWhenFull(pending: seq<byte>, bytes: seq<byte>, capacity: nat)
    requires IsPendingPrefix(pending)
    ensures var r := DecodeWithin(pending, bytes, capacity);
            r.bytesUsed < |bytes| ==>
              && |Decode(pending, bytes).chars| > capacity
              && (r.bytesUsed == 0 || r.pending == [])
              && forall j :: r.bytesUsed < j <= |bytes| && AtBoundary(pending, bytes, j) ==>
                   |Decode(pending, bytes[..j]).chars| > capacity
    decreases |bytes|
  {
    var r := DecodeWithin(pending, bytes, capacity);
    if r.bytesUsed < |bytes| {
      var step := Step(pending, bytes[0]);
      if |step.1| > capacity {
        forall j | 1 <= j <= |bytes|
          ensures |Decode(pending, bytes[..j]).chars| > capacity
        {
          DecodePrefix(pending, bytes, j);
        }
        assert bytes[..|bytes|] == bytes;
      } else {
        var room := capacity - |step.1|;
        var rest := DecodeWithin(step.0, bytes[1..], room);
        DecodeWithinStopsWhenFull(step.0, bytes[1..], room);
        forall j | r.bytesUsed < j <= |bytes| && AtBoundary(pending, bytes, j)
          ensures |Decode(pending, bytes[..j]).chars| > capacity
        {
          DecodePrefix(pending, bytes, j);
          if j > 1 {
            assert AtBoundary(step.0, bytes[1..], j - 1);
          }
        }
        assert bytes[..|bytes|] == bytes && bytes[1..][..|bytes| - 1] == bytes[1..];
        DecodePrefix(pending, bytes, |bytes|);
      }
    }
  }

  /** When the output of all the input does not fit, a conversion stops at a
      boundary whose output fits if no later prefix but the whole ends on one. */
  lemma {:induction false} DecodeWithinStopsAt(pending: seq<byte>, bytes: seq<byte>, capacity: nat, k: nat)
    requires IsPendingPrefix(pending) && k < |bytes|
    requires |Decode(pending, bytes).chars| > capacity
    requires AtBoundary(pending, bytes, k) && |Decode(pending, bytes[..k]).chars| <= capacity
    requires forall j :: k < j < |bytes| ==> Decode(pending, bytes[..j]).pending != []
    ensures var d := Decode(pending, bytes[..k]);
            DecodeWithin(pending, bytes, capacity) == Conversion(d.pending, d.chars, k)
  {
    DecodeWithinStopsWhenFull(pending, bytes, capacity);
    DecodeWithinIsDecode(pending, bytes, capacity);
    assert bytes[..|bytes|] == bytes;
  }

  /** Before its last byte, a well-formed sequence is what the decoder keeps pending. */
  lemma {:induction false} SequencePrefixPending(w: seq<byte>, i: nat)
    requires IsSequence(w) && 1 <= i < |w|
    ensures IsPendingPrefix(w[..i]) && Decode([], w[..i]) == Decoded(w[..i], [])
    decreases i
  {
    var p := w[..i - 1];
    if i == 1 {
      assert p == [];
    } else {
      SequencePrefixPending(w, i - 1);
      assert p[0] == w[0] && Follows(p[0], |p|, w[i - 1]);
    }
    DecodeSnoc([], p, w[i - 1]);
    assert p + [w[i - 1]] == w[..i];
  }

  /** A maximal ill-formed subpart: the start of a well-formed sequence cut short by
      a byte that cannot continue it is replaced by exactly one U+FFFD, and that byte
      is then decoded afresh. */
  lemma {:induction false} TruncatedSequenceReplaced(w: seq<byte>, i: nat, x: byte)
    requires IsSequence(w) && 1 <= i < |w| && !Follows(w[0], i, x)
    ensures Decode([], w[..i] + [x]) == Decoded(Start(x).0, [Replacement] + Start(x).1)
  {
    SequencePrefixPending(w, i);
    DecodeSnoc([], w[..i], x);
  }

  /** Two instances: E2 41 and F0 9F 41 each decode to U+FFFD followed by `A`. */
  lemma TruncatedExamples()
    ensures Decode([], [0xE2, 0x41]) == Decoded([], [Replacement, 0x41])
    ensures Decode([], [0xF0, 0x9F, 0x41]) == Decoded([], [Replacement, 0x41])
  {
    var euro: seq<byte> := [0xE2, 0x82, 0xAC];
    assert IsSequence(euro);
    TruncatedSequenceReplaced(euro, 1, 0x41);
    assert euro[..1] + [0x41] == [0xE2, 0x41];
    var grin: seq<byte> := [0xF0, 0x9F, 0x98, 0x80];
    assert IsSequence(grin);
    TruncatedSequenceReplaced(grin, 2, 0x41);
    assert grin[..2] + [0x41] == [0xF0, 0x9F, 0x41];
  }

  /** Inside a well-formed sequence that follows complete characters, the decoder
      has something pending. */
  lemma {:induction false} PendingInsideSequence(pre: seq<byte>, chars: seq<CodeUnit>, w: seq<byte>, j: nat)
    requires Decode([], pre) == Decoded([], chars)
    requires IsSequence(w) && |pre| < j < |pre| + |w|
    ensures Decode([], (pre + w)[..j]).pending == w[..j - |pre|] != []
  {
    SequencePrefixPending(w, j - |pre|);
    DecodeAppend([], pre, w[..j - |pre|]);
    assert (pre + w)[..j] == pre + w[..j - |pre|];
  }

  /** After complete characters, a character whose UTF-16 form does not fit in the
      room left is not taken at all: the conversion ends before its first byte, with
      nothing pending. */
  lemma {:induction false} DecodeWithinLeavesWide(pre: seq<byte>, chars: seq<CodeUnit>, w: seq<byte>, capacity: nat)
    requires Decode([], pre) == Decoded([], chars) && |chars| <= capacity
    requires IsSequence(w) && |chars| + |Utf16(CodePoint(w))| > capacity
    ensures DecodeWithin([], pre + w, capacity) == Conversion([], chars, |pre|)
  {
    var b := pre + w;
    DecodeAppend([], pre, w);
    DecodeSequence(w);
    assert b[..|pre|] == pre;
    forall j | |pre| < j < |b|
      ensures Decode([], b[..j]).pending != []
    {
      PendingInsideSequence(pre, chars, w, j);
    }
    assert b[..|b|] == b;
    DecodeWithinStopsAt([], b, capacity, |pre|);
  }

  /** With room for one unit per byte (pending bytes included), nothing is left
      unconverted. */
  lemma {:induction false} DecodeWithinComplete(pending: seq<byte>, bytes: seq<byte>, capacity: nat)
    requires IsPendingPrefix(pending)
    requires |pending| + |bytes| <= capacity
    ensures DecodeWithin(pending, bytes, capacity).bytesUsed == |bytes|
  {
    DecodeWithinStopsWhenFull(pending, bytes, capacity);
  }

  // ---------------------------------------------------------------------------
  // The encoder of section 3 of RFC 3629, the inverse of the decoder.

  /** The UTF-8 encoding of one scalar value. */
  function EncodeScalar(c: char): (bs: seq<byte>)
    ensures 1 <= |bs| <= 4
  {
    var cp := c as int;
    if cp < 0x80 then [cp as byte]
    else if cp < 0x800 then [(0xC0 + cp / 0x40) as byte, (0x80 + cp % 0x40) as byte]
    else if cp < 0x1_0000 then
      [(0xE0 + cp / 0x1000) as byte, (0x80 + (cp / 0x40) % 0x40) as byte, (0x80 + cp % 0x40) as byte]
    else
      [(0xF0 + cp / 0x4_0000) as byte, (0x80 + (cp / 0x1000) % 0x40) as byte,
       (0x80 + (cp / 0x40) % 0x40) as byte, (0x80 + cp % 0x40) as byte]
  }

  /** The UTF-8 encoding of a string. */
  function Encode(s: string): (bs: seq<byte>)
    ensures |s| <= |bs| <= 4 * |s|
  {
    if s == [] then [] else EncodeScalar(s[0]) + Encode(s[1..])
  }

  /** Encoding distributes over concatenation. */
  lemma {:induction false} EncodeAppend(s: string, t: string)
    ensures Encode(s + t) == Encode(s) + Encode(t)
  {
    if s == [] {
      assert s + t == t;
    } else {
      assert (s + t)[0] == s[0];
      assert (s + t)[1..] == s[1..] + t;
      EncodeAppend(s[1..], t);
      calc {
        Encode(s + t);
        EncodeScalar(s[0]) + Encode(s[1..] + t);
        EncodeScalar(s[0]) + (Encode(s[1..]) + Encode(t));
        (EncodeScalar(s[0]) + Encode(s[1..])) + Encode(t);
      }
    }
  }

  /** The rest of a well-formed sequence completes what is pending: the decoder
      collects it and writes the sequence's scalar value. */
  lemma {:induction false} DecodeCompletes(pending: seq<byte>, rest: seq<byte>)
    requires pending != [] && IsPendingPrefix(pending)
    requires IsSequence(pending + rest)
    ensures Decode(pending, rest) == Decoded([], Utf16(CodePoint(pending + rest)))
    decreases |rest|
  {
    var whole := pending + rest;
    assert whole[0] == pending[0];
    assert rest != [];
    assert forall i :: 0 <= i < |pending| ==> whole[i] == pending[i];
    assert whole[|pending|] == rest[0];
    var st := Step(pending, rest[0]);
    var next := pending + [rest[0]];
    assert next + rest[1..] == whole;
    if |next| == SequenceLength(next[0]) {
      assert rest[1..] == [];
      assert st == ([], Utf16(CodePoint(whole)));
    } else {
      assert st == (next, []);
      DecodeCompletes(next, rest[1..]);
    }
  }

  /** A complete well-formed sequence decodes to its scalar value. */
  lemma {:induction false} DecodeSequence(p: seq<byte>)
    requires IsSequence(p)
    ensures Decode([], p) == Decoded([], Utf16(CodePoint(p)))
  {
    if |p| == 1 {
      assert Step([], p[0]) == ([], Utf16(CodePoint(p)));
    } else {
      assert Step([], p[0]) == ([p[0]], []);
      assert [p[0]] + p[1..] == p;
      DecodeCompletes([p[0]], p[1..]);
    }
  }

  /** The encoding of a scalar value is one well-formed sequence for that value. */
  lemma {:induction false} EncodeScalarWellFormed(c: char)
    ensures IsSequence(EncodeScalar(c)) && CodePoint(EncodeScalar(c)) == c as int
  {
    var cp := c as int;
    var bs := EncodeScalar(c);
    if cp < 0x80 {
    } else if cp < 0x800 {
      TwoByteForm(cp, bs);
    } else if cp < 0x1_0000 {
      ThreeByteForm(cp, bs);
    } else {
      FourByteForm(cp, bs);
    }
  }

  lemma {:induction false} TwoByteForm(cp: int, bs: seq<byte>)
    requires 0x80 <= cp < 0x800
    requires bs == [(0xC0 + cp / 0x40) as byte, (0x80 + cp % 0x40) as byte]
    ensures IsSequence(bs) && CodePoint(bs) == cp
  {
  }

  lemma {:induction false} ThreeByteForm(cp: int, bs: seq<byte>)
    requires 0x800 <= cp < 0x1_0000 && IsScalar(cp)
    requires bs == [(0xE0 + cp / 0x1000) as byte, (0x80 + (cp / 0x40) % 0x40) as byte, (0x80 + cp % 0x40) as byte]
    ensures IsSequence(bs) && CodePoint(bs) == cp
  {
    var hi, mid, lo := cp / 0x1000, (cp / 0x40) % 0x40, cp % 0x40;
    assert cp / 0x40 == hi * 0x40 + mid;
    assert cp == hi * 0x1000 + mid * 0x40 + lo;
  }

  lemma {:induction false} FourByteForm(cp: int, bs: seq<byte>)
    requires 0x1_0000 <= cp < 0x11_0000
    requires bs == [(0xF0 + cp / 0x4_0000) as byte, (0x80 + (cp / 0x1000) % 0x40) as byte,
                    (0x80 + (cp / 0x40) % 0x40) as byte, (0x80 + cp % 0x40) as byte]
    ensures IsSequence(bs) && CodePoint(bs) == cp
  {
    var top, hi, mid, lo := cp / 0x4_0000, (cp / 0x1000) % 0x40, (cp / 0x40) % 0x40, cp % 0x40;
    assert cp / 0x1000 == top * 0x40 + hi;
    assert cp / 0x40 == (cp / 0x1000) * 0x40 + mid;
    assert cp == top * 0x4_0000 + hi * 0x1000 + mid * 0x40 + lo;
  }

  /** Decoding the encoding of one scalar value yields its UTF-16 form and leaves
      nothing pending. */
  lemma {:induction false} DecodeEncodeScalar(c: char)
    ensures Decode([], EncodeScalar(c)) == Decoded([], Utf16(c as int))
  {
    EncodeScalarWellFormed(c);
    DecodeSequence(EncodeScalar(c));
  }

  /** Round trip: decoding the UTF-8 encoding of any string yields exactly its
      UTF-16 form, with nothing left pending. */
  lemma {:induction false} DecodeEncode(s: string)
    ensures Decode([], Encode(s)) == Decoded([], Utf16String(s))
  {
    if s != [] {
      DecodeAppend([], EncodeScalar(s[0]), Encode(s[1..]));
      DecodeEncodeScalar(s[0]);
      DecodeEncode(s[1..]);
    }
  }

  /** ASCII text is one byte per character. */
  lemma {:induction false} EncodeAsciiLength(s: string)
    requires forall i :: 0 <= i < |s| ==> s[i] as int < 0x80
    ensures |Encode(s)| == |s|
  {
    if s != [] {
      EncodeAsciiLength(s[1..]);
    }
  }

  /** With room for all of it, the decoder returns one unit per byte of ASCII text
      and keeps nothing pending. */
  lemma {:induction false} DecodeWithinAscii(s: string, capacity: nat)
    requires forall i :: 0 <= i < |s| ==> s[i] as int < 0x80
    requires |s| <= capacity
    ensures |Encode(s)| == |s|
    ensures DecodeWithin([], Encode(s), capacity) == Conversion([], Ascii(s), |s|)
  {
    EncodeAsciiLength(s);
    DecodeEncode(s);
    AsciiIsUtf16(s);
    DecodeWithinComplete([], Encode(s), capacity);
    DecodeWithinIsDecode([], Encode(s), capacity);
    assert Encode(s)[..|Encode(s)|] == Encode(s);
  }

  // ---------------------------------------------------------------------------
  // The decoder object: one per capture session, called once per read.

  /** A stateful decoder that carries the bytes of an incomplete character from
      one call to the next, as `System.Text.Decoder` does. */
  class Decoder {
    var pending: seq<byte>

    ghost predicate Valid()
      reads this
    {
      IsPendingPrefix(pending)
    }

    /** A fresh decoder has nothing pending. */
    constructor ()
      ensures Valid() && pending == []
    {
      pending := [];
    }

    /** `Convert(bytes, byteIndex, byteCount, chars, charIndex, charCount, flush: false, ...)`:
        decodes `bytes[byteIndex..byteIndex + byteCount]` after whatever is pending,
        writing at most `charCount` code units from `chars[charIndex]` on; when not
        everything fits it stops after the last complete character that does. */
    method Convert(bytes: array<byte>, byteIndex: nat, byteCount: nat,
                   chars: array<CodeUnit>, charIndex: nat, charCount: nat)
      returns (bytesUsed: nat, charsUsed: nat)
      requires Valid()
      requires byteIndex + byteCount <= bytes.Length
      requires charIndex + charCount <= chars.Length
      modifies this, chars
      ensures Valid()
      ensures bytesUsed <= byteCount && charsUsed <= charCount
      ensures var r := DecodeWithin(old(pending), bytes[byteIndex..byteIndex + byteCount], charCount);
              pending == r.pending && bytesUsed == r.bytesUsed && charsUsed == |r.chars|
              && chars[..charIndex + charsUsed] == old(chars[..charIndex]) + r.chars
      ensures chars[charIndex + charsUsed..] == old(chars[charIndex + charsUsed..])
    {
      var r := DecodeWithin(pending, bytes[byteIndex..byteIndex + byteCount], charCount);
      Buffers.CopyInto(r.chars, chars, charIndex);
      pending, bytesUsed, charsUsed := r.pending, r.bytesUsed, |r.chars|;
    }
  }
}
