/** The string operations the routers use: `str.strip()`, `str.lower()` and
    the `in` substring test. Strings are sequences of Unicode scalar values,
    as Python's `str` is. */
module Text {

  /** Python's `str.isspace()` for one character: the ASCII whitespace
      characters, the information separators U+001C..U+001F, and the Unicode
      space and line/paragraph separators. */
  predicate IsSpace(c: char) {
    c == ' ' || ('\U{0009}' <= c <= '\U{000D}') || ('\U{001C}' <= c <= '\U{001F}')
    || c == '\U{0085}' || c == '\U{00A0}' || c == '\U{1680}'
    || ('\U{2000}' <= c <= '\U{200A}') || c == '\U{2028}' || c == '\U{2029}'
    || c == '\U{202F}' || c == '\U{205F}' || c == '\U{3000}'
  }

  /** The first index at or after `i` that does not hold whitespace. */
  function SkipSpaces(s: string, i: nat): (j: nat)
    requires i <= |s|
    ensures i <= j <= |s|
    ensures forall k :: i <= k < j ==> IsSpace(s[k])
    ensures j == |s| || !IsSpace(s[j])
    decreases |s| - i
  {
    if i < |s| && IsSpace(s[i]) then SkipSpaces(s, i + 1) else i
  }

  /** The end of `s[lo..j]` once its trailing whitespace is dropped. */
  function SkipSpacesBack(s: string, lo: nat, j: nat): (i: nat)
    requires lo <= j <= |s|
    ensures lo <= i <= j
    ensures forall k :: i <= k < j ==> IsSpace(s[k])
    ensures i == lo || !IsSpace(s[i - 1])
    decreases j
  {
    if j > lo && IsSpace(s[j - 1]) then SkipSpacesBack(s, lo, j - 1) else j
  }

  /** `r` is `s` at offset `a` with only whitespace around it. */
  ghost predicate IsStripOf(s: string, r: string, a: int) {
    && 0 <= a && a + |r| <= |s| && r == s[a..a + |r|]
    && (forall k :: 0 <= k < a ==> IsSpace(s[k]))
    && (forall k :: a + |r| <= k < |s| ==> IsSpace(s[k]))
  }

  /** Python's `str.strip()`: `s` with its leading and trailing whitespace
      removed; what remains neither starts nor ends with whitespace, and it is
      empty exactly when `s` is all whitespace. */
  function Trim(s: string): (r: string)
    ensures r == [] || (!IsSpace(r[0]) && !IsSpace(r[|r| - 1]))
    ensures r == [] <==> forall k :: 0 <= k < |s| ==> IsSpace(s[k])
    ensures IsStripOf(s, r, SkipSpaces(s, 0))
  {
    var a := SkipSpaces(s, 0);
    var b := SkipSpacesBack(s, a, |s|);
    s[a..b]
  }

  /** A string that neither starts nor ends with whitespace is its own strip;
      in particular stripping is idempotent. */
  lemma TrimOfTrimmed(s: string)
    requires s == [] || (!IsSpace(s[0]) && !IsSpace(s[|s| - 1]))
    ensures Trim(s) == s
  {
    assert SkipSpaces(s, 0) == 0;
    assert SkipSpacesBack(s, 0, |s|) == |s|;
  }

  /** `str.lower()` on one character, for the ASCII letters. */
  function LowerChar(c: char): (r: char)
    ensures 'A' <= c <= 'Z' ==> r as int == c as int + 32
    ensures !('A' <= c <= 'Z') ==> r == c
  {
    if 'A' <= c <= 'Z' then (c as int + 32) as char else c
  }

  /** `str.lower()`, character by character over ASCII letters. */
  function Lower(s: string): (r: string)
    ensures |r| == |s|
    ensures forall i :: 0 <= i < |s| ==> r[i] == LowerChar(s[i])
  {
    seq(|s|, i requires 0 <= i < |s| => LowerChar(s[i]))
  }

  /** Stripping and lower-casing a stripped, lower-cased string changes
      nothing. */
  lemma LowerTrimIdempotent(s: string)
    ensures Lower(Trim(Lower(Trim(s)))) == Lower(Trim(s))
  {
    var c := Lower(Trim(s));
    if c != [] {
      assert c[0] == LowerChar(Trim(s)[0]) && c[|c| - 1] == LowerChar(Trim(s)[|c| - 1]);
      TrimOfTrimmed(c);
      forall i | 0 <= i < |c|
        ensures Lower(c)[i] == c[i]
      {
        assert c[i] == LowerChar(Trim(s)[i]);
      }
    } else {
      TrimOfTrimmed(c);
    }
  }

  /** `p` is a prefix of `s`. */
  predicate StartsWith(s: string, p: string) {
    |p| <= |s| && s[..|p|] == p
  }

  /** `s` ends with `p`. */
  predicate EndsWith(s: string, p: string) {
    |p| <= |s| && s[|s| - |p|..] == p
  }

  /** Python's substring test `sub in s`. */
  predicate Contains(s: string, sub: string)
    decreases |s|
  {
    StartsWith(s, sub) || (|s| > 0 && Contains(s[1..], sub))
  }

  /** `sub` occurs in `s` at offset `k`. */
  predicate OccursAt(s: string, sub: string, k: int) {
    0 <= k && k + |sub| <= |s| && s[k..k + |sub|] == sub
  }

  /** `sub in s` holds exactly when `sub` occurs at some offset of `s`. */
  lemma {:induction false} ContainsAt(s: string, sub: string)
    ensures Contains(s, sub) <==> exists k :: OccursAt(s, sub, k)
    decreases |s|
  {
    if StartsWith(s, sub) {
      assert OccursAt(s, sub, 0);
    } else if |s| > 0 {
      ContainsAt(s[1..], sub);
      if Contains(s[1..], sub) {
        var k :| OccursAt(s[1..], sub, k);
        SliceOfTail(s, k, k + |sub|);
        assert OccursAt(s, sub, k + 1);
      } else {
        forall k | OccursAt(s, sub, k) ensures false {
          if k > 0 {
            SliceOfTail(s, k - 1, k - 1 + |sub|);
            assert OccursAt(s[1..], sub, k - 1);
          }
        }
      }
    }
  }

  /** A slice of the tail is the slice of the whole shifted by one. */
  lemma SliceOfTail(s: string, a: int, b: int)
    requires 0 <= a <= b < |s|
    ensures s[1..][a..b] == s[a + 1..b + 1]
  {
    assert forall i :: 0 <= i < b - a ==> s[1..][a..b][i] == s[a + 1 + i];
  }

  /** A string cannot occur where its first character does not. */
  lemma {:induction false} NotContainsWithoutHead(s: string, sub: string)
    requires sub != [] && sub[0] !in s
    ensures !Contains(s, sub)
    decreases |s|
  {
    if |s| > 0 {
      assert s[1..] == s[1..] && forall c :: c in s[1..] ==> c in s;
      NotContainsWithoutHead(s[1..], sub);
    }
  }
}
