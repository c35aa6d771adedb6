// Ordinal substring search, the specification of the end-marker scan: exact
// element-by-element comparison, no culture rules and no case folding.

module MarkerSearch {

  /** `marker` occurs in `text` starting at index `i`. */
  predicate OccursAt<T(==)>(text: seq<T>, marker: seq<T>, i: int) {
    0 <= i && i + |marker| <= |text| && text[i..i + |marker|] == marker
  }

  /** `marker` occurs somewhere in `text`. */
  ghost predicate Contains<T>(text: seq<T>, marker: seq<T>) {
    exists i :: OccursAt(text, marker, i)
  }

  /** The index of the first occurrence of `marker` in `text`, or -1 when there is
      none; this is what `IndexOf(marker, StringComparison.Ordinal)` returns. */
  function FirstIndexOf<T(==)>(text: seq<T>, marker: seq<T>): (r: int)
    ensures -1 <= r
    ensures r >= 0 ==> OccursAt(text, marker, r)
    ensures r < 0 <==> !Contains(text, marker)
    ensures forall j :: 0 <= j < r ==> !OccursAt(text, marker, j)
  {
    IndexFrom(text, marker, 0)
  }

  /** The first occurrence at or after `from`, or -1. */
  function IndexFrom<T(==)>(text: seq<T>, marker: seq<T>, from: nat): (r: int)
    ensures r == -1 || (from <= r && OccursAt(text, marker, r))
    ensures forall j :: from <= j && (r < 0 || j < r) ==> !OccursAt(text, marker, j)
    decreases |text| - from
  {
    if from + |marker| > |text| then -1
    else if text[from..from + |marker|] == marker then from
    else IndexFrom(text, marker, from + 1)
  }

  /** An occurrence inside a prefix is an occurrence that ends within it. */
  lemma {:induction false} OccursInPrefix<T>(text: seq<T>, marker: seq<T>, n: nat, j: int)
    requires n <= |text|
    ensures OccursAt(text[..n], marker, j) <==> OccursAt(text, marker, j) && j + |marker| <= n
  {
    if 0 <= j && j + |marker| <= n {
      assert text[..n][j..j + |marker|] == text[j..j + |marker|];
    }
  }

  /** An occurrence inside a suffix is an occurrence shifted by the suffix's start. */
  lemma {:induction false} OccursInSuffix<T>(text: seq<T>, marker: seq<T>, s: nat, j: nat)
    requires s <= |text|
    ensures OccursAt(text[s..], marker, j) <==> OccursAt(text, marker, s + j)
  {
    if 0 <= j && s + j + |marker| <= |text| {
      assert text[s..][j..j + |marker|] == text[s + j..s + j + |marker|];
    }
  }

  /** The text that precedes the first occurrence of a non-empty marker does not
      contain the marker. */
  lemma {:induction false} BeforeFirstIsFree<T>(text: seq<T>, marker: seq<T>)
    requires |marker| > 0
    requires FirstIndexOf(text, marker) >= 0
    ensures !Contains(text[..FirstIndexOf(text, marker)], marker)
  {
    var k := FirstIndexOf(text, marker);
    forall j ensures !OccursAt(text[..k], marker, j) {
      OccursInPrefix(text, marker, k, j);
    }
  }

  /** Once a marker has been seen, reading further text never moves its first
      occurrence: the first index is the same in every extension. */
  lemma {:induction false} FirstIndexOfExtended<T>(text: seq<T>, more: seq<T>, marker: seq<T>)
    requires FirstIndexOf(text, marker) >= 0
    ensures FirstIndexOf(text + more, marker) == FirstIndexOf(text, marker)
  {
    var k := FirstIndexOf(text, marker);
    var whole := text + more;
    assert whole[..|text|] == text;
    OccursInPrefix(whole, marker, |text|, k);
    forall j | 0 <= j < k ensures !OccursAt(whole, marker, j) {
      OccursInPrefix(whole, marker, |text|, j);
    }
    var r := FirstIndexOf(whole, marker);
    assert r >= 0 && r <= k;
  }

  /** An occurrence with none before it is the first one. */
  lemma {:induction false} FirstIndexOfIs<T>(text: seq<T>, marker: seq<T>, i: int)
    requires OccursAt(text, marker, i)
    requires forall j :: 0 <= j < i ==> !OccursAt(text, marker, j)
    ensures FirstIndexOf(text, marker) == i
  {
    var r := FirstIndexOf(text, marker);
    assert r >= 0;
    assert !(i < r) && !(r < i);
  }
}
