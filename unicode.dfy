// Code units of the two encodings the capture loop works with: the raw bytes a
// container writes (UTF-8) and the chars of a .NET string (UTF-16 code units).

module Unicode {

  /** One octet of the container's output stream. */
  newtype byte = x: int | 0 <= x < 0x100

  /** One UTF-16 code unit, the element type of a .NET `char[]` and `string`.
      (A Dafny `char` is a Unicode scalar value and cannot hold a surrogate.) */
  newtype CodeUnit = x: int | 0 <= x < 0x1_0000

  /** The character U+FFFD, written in place of ill-formed input. */
  const Replacement: CodeUnit := 0xFFFD

  /** A Unicode scalar value: a code point that is not a surrogate. */
  predicate IsScalar(cp: int) {
    (0 <= cp < 0xD800) || (0xE000 <= cp < 0x11_0000)
  }

  /** The UTF-16 encoding of one scalar value (section 2.1 of RFC 2781):
      one unit below U+10000, otherwise a high surrogate followed by a low one. */
  function Utf16(cp: int): (u: seq<CodeUnit>)
    requires IsScalar(cp)
    ensures cp < 0x1_0000 <==> |u| == 1
    ensures 0x1_0000 <= cp <==> |u| == 2
    ensures |u| == 1 ==> u[0] as int == cp
    ensures |u| == 2 ==> 0xD800 <= u[0] as int < 0xDC00 && 0xDC00 <= u[1] as int < 0xE000
    ensures |u| == 2 ==> (u[0] as int - 0xD800) * 0x400 + (u[1] as int - 0xDC00) + 0x1_0000 == cp
  {
    if cp < 0x1_0000 then
      [cp as CodeUnit]
    else
      var v := cp - 0x1_0000;
      [(0xD800 + v / 0x400) as CodeUnit, (0xDC00 + v % 0x400) as CodeUnit]
  }

  /** The UTF-16 form of a string, as a .NET string literal holds it. */
  function Utf16String(s: string): (u: seq<CodeUnit>)
    ensures |s| <= |u| <= 2 * |s|
  {
    if s == [] then [] else Utf16(s[0] as int) + Utf16String(s[1..])
  }

  /** On ASCII text the UTF-16 form is the characters themselves, one unit each. */
  lemma {:induction false} Utf16StringAscii(s: string)
    requires forall i :: 0 <= i < |s| ==> s[i] as int < 0x80
    ensures |Utf16String(s)| == |s|
    ensures forall i :: 0 <= i < |s| ==> Utf16String(s)[i] as int == s[i] as int
  {
    if s != [] {
      Utf16StringAscii(s[1..]);
      assert Utf16String(s) == [s[0] as int as CodeUnit] + Utf16String(s[1..]);
    }
  }

  /** The code units of an ASCII string, one per character. */
  function Ascii(s: string): (u: seq<CodeUnit>)
    requires forall i :: 0 <= i < |s| ==> s[i] as int < 0x80
    ensures |u| == |s|
    ensures forall i :: 0 <= i < |s| ==> u[i] as int == s[i] as int
  {
    seq(|s|, i requires 0 <= i < |s| => s[i] as int as CodeUnit)
  }

  /** The code units of ASCII text are its UTF-16 form. */
  lemma AsciiIsUtf16(s: string)
    requires forall i :: 0 <= i < |s| ==> s[i] as int < 0x80
    ensures Ascii(s) == Utf16String(s)
  {
    Utf16StringAscii(s);
  }

  /** The units of two ASCII strings side by side are the units of the joined string. */
  lemma AsciiAppend(s: string, t: string)
    requires forall i :: 0 <= i < |s| ==> s[i] as int < 0x80
    requires forall i :: 0 <= i < |t| ==> t[i] as int < 0x80
    ensures Ascii(s) + Ascii(t) == Ascii(s + t)
  {
    assert forall i :: 0 <= i < |s + t| ==> (s + t)[i] as int < 0x80;
    assert forall i :: 0 <= i < |s + t| ==> (Ascii(s) + Ascii(t))[i] == Ascii(s + t)[i];
  }
}
