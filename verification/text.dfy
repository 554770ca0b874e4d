/**
 * The character-level helpers the parser borrows from its string-piece type:
 * whitespace stripping, `find_first_of` and the bounds-tolerant `get`.
 * Their definitions are not part of this model's sources, so each is given
 * here by the property the parser relies on.
 */
module Text {
  import opened Wrappers

  /** Whitespace, taken to be what C's `isspace` accepts in the "C" locale. */
  predicate IsSpace(c: char) {
    c == ' ' || c == '\t' || c == '\n' || c == '\r' || c == 11 as char || c == 12 as char
  }

  predicate AllSpace(s: string) {
    forall k :: 0 <= k < |s| ==> IsSpace(s[k])
  }

  /** Neither end of `s` is whitespace. */
  predicate Stripped(s: string) {
    s == [] || (!IsSpace(s[0]) && !IsSpace(s[|s| - 1]))
  }

  /** `s` does not start with whitespace. */
  predicate LeftStripped(s: string) {
    s == [] || !IsSpace(s[0])
  }

  /** The end of the whitespace run that starts at `i`, given that `s[..i]` is whitespace. */
  function LeftSpaceFrom(s: string, i: nat): (e: nat)
    requires i <= |s| && forall k :: 0 <= k < i ==> IsSpace(s[k])
    ensures i <= e <= |s|
    ensures forall k :: 0 <= k < e ==> IsSpace(s[k])
    ensures e < |s| ==> !IsSpace(s[e])
    decreases |s| - i
  {
    if i == |s| || !IsSpace(s[i]) then i else LeftSpaceFrom(s, i + 1)
  }

  /** Length of the longest all-whitespace prefix of `s`. */
  function LeftSpaceEnd(s: string): (i: nat)
    ensures i <= |s|
    ensures AllSpace(s[..i])
    ensures i < |s| ==> !IsSpace(s[i])
  {
    LeftSpaceFrom(s, 0)
  }

  /** The start of the whitespace run that ends at `j`, given that `s[j..]` is whitespace. */
  function RightSpaceFrom(s: string, j: nat): (b: nat)
    requires j <= |s| && forall k :: j <= k < |s| ==> IsSpace(s[k])
    ensures b <= j
    ensures forall k :: b <= k < |s| ==> IsSpace(s[k])
    ensures 0 < b ==> !IsSpace(s[b - 1])
  {
    if j == 0 || !IsSpace(s[j - 1]) then j else RightSpaceFrom(s, j - 1)
  }

  /** Start of the longest all-whitespace suffix of `s`. */
  function RightSpaceStart(s: string): (j: nat)
    ensures j <= |s|
    ensures AllSpace(s[j..])
    ensures 0 < j ==> !IsSpace(s[j - 1])
  {
    RightSpaceFrom(s, |s|)
  }

  /** `StringPiece::StripLeftSpaces`: drop the leading whitespace. */
  function StripLeftSpaces(s: string): (r: string)
    ensures |r| <= |s| && r == s[|s| - |r|..]
    ensures AllSpace(s[..|s| - |r|])
    ensures LeftStripped(r)
  {
    s[LeftSpaceEnd(s)..]
  }

  /** `StringPiece::StripSpaces`: drop the leading and the trailing whitespace. */
  function StripSpaces(s: string): (r: string)
    ensures LeftSpaceEnd(s) + |r| <= |s|
    ensures r == s[LeftSpaceEnd(s)..LeftSpaceEnd(s) + |r|]
    ensures AllSpace(s[LeftSpaceEnd(s) + |r|..])
    ensures Stripped(r)
  {
    var t := StripLeftSpaces(s);
    var r := t[..RightSpaceStart(t)];
    assert r == [] || r[0] == t[0];
    assert s[LeftSpaceEnd(s) + |r|..] == t[|r|..];
    r
  }

  /** Text wrapped in whitespace on both sides strips back to that text. */
  lemma {:induction false} StripSpacesOfPadded(w1: string, x: string, w2: string)
    requires AllSpace(w1) && AllSpace(w2) && Stripped(x)
    ensures StripSpaces(w1 + x + w2) == x
  {
    var s := w1 + x + w2;
    var r := StripSpaces(s);
    if x == [] {
      assert AllSpace(s);
    } else {
      assert s[|w1|] == x[0];
      assert s[|w1| + |x| - 1] == x[|x| - 1];
      assert r == s[|w1|..|w1| + |x|];
    }
  }

  /** Text preceded by whitespace left-strips back to that text. */
  lemma {:induction false} StripLeftSpacesOfPadded(w: string, x: string)
    requires AllSpace(w) && LeftStripped(x)
    ensures StripLeftSpaces(w + x) == x
  {
    var s := w + x;
    assert x != [] ==> s[|w|] == x[0];
    assert s[|w|..] == x;
  }

  /** Text with no whitespace at either end is left as it is. */
  lemma StrippedIsFixed(x: string)
    requires Stripped(x)
    ensures StripSpaces(x) == x
  {
    assert LeftSpaceEnd(x) == 0;
    assert StripLeftSpaces(x) == x;
    assert RightSpaceStart(x) == |x|;
  }

  /**
   * `StringPiece::find_first_of` starting at `from`: the first index at or
   * after `from` holding one of `chars`, or `None` for `npos`.
   */
  function FindFirstOf(s: string, from: nat, chars: string): (r: Option<nat>)
    ensures r.None? <==> forall k :: from <= k < |s| ==> s[k] !in chars
    ensures r.Some? ==> from <= r.value < |s| && s[r.value] in chars
    ensures r.Some? ==> forall k :: from <= k < r.value ==> s[k] !in chars
    decreases |s| - from
  {
    if from >= |s| then None
    else if s[from] in chars then Some(from)
    else FindFirstOf(s, from + 1, chars)
  }

  /** `StringPiece::get`: the character at `i`, or NUL past the end. */
  function Get(s: string, i: nat): (c: char)
    ensures i < |s| ==> c == s[i]
    ensures i >= |s| ==> c == '\0'
  {
    if i < |s| then s[i] else '\0'
  }
}
