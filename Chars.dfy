/**
 * Character classes and string searches shared by the extractor, the reinjector
 * and the metadata code. Strings are sequences of Unicode scalar values.
 */
module Chars {
  import opened Wrappers

  const NBSP: char := '\U{00A0}'

  /** ASCII case folding: the only folding that matters for the letters of the
      patterns this program matches case-insensitively. */
  function Lower(c: char): char {
    if 'A' <= c <= 'Z' then (c as int + 32) as char else c
  }

  /** `a` and `b` are equal when compared case-insensitively. */
  predicate EqualsIgnoringCase(a: string, b: string) {
    |a| == |b| && forall k :: 0 <= k < |a| ==> Lower(a[k]) == Lower(b[k])
  }

  /** `pat` occurs at offset `i` of `s`, compared case-insensitively. */
  predicate HasAt(s: string, i: nat, pat: string) {
    i + |pat| <= |s| && EqualsIgnoringCase(s[i..i + |pat|], pat)
  }

  /** Unicode general category Zs (space separators). */
  predicate IsSpaceSeparator(c: char) {
    c == ' ' || c == NBSP || c == '\U{1680}' || ('\U{2000}' <= c <= '\U{200A}')
    || c == '\U{202F}' || c == '\U{205F}' || c == '\U{3000}'
  }

  /** Foundation's `whitespacesAndNewlines`: Zs, tab, U+000A through U+000D,
      NEL, LINE SEPARATOR and PARAGRAPH SEPARATOR. */
  predicate IsTrimSpace(c: char) {
    IsSpaceSeparator(c) || ('\t' <= c <= '\r') || c == '\U{0085}'
    || c == '\U{2028}' || c == '\U{2029}'
  }

  /** ICU's `\s`: tab, newline, form feed, carriage return and category Z. */
  predicate IsRegexSpace(c: char) {
    c == '\t' || c == '\n' || c == '\U{000C}' || c == '\r' || IsSpaceSeparator(c)
    || c == '\U{2028}' || c == '\U{2029}'
  }

  /** ICU line terminators, as recognised by `$` at the end of the input. */
  predicate IsLineTerminator(c: char) {
    ('\n' <= c <= '\r') || c == '\U{0085}' || c == '\U{2028}' || c == '\U{2029}'
  }

  /** Word characters for `\b`, restricted to ASCII letters, digits and underscore. */
  predicate IsWordChar(c: char) {
    ('a' <= c <= 'z') || ('A' <= c <= 'Z') || ('0' <= c <= '9') || c == '_'
  }

  /** First offset at or after `from` holding `c`. */
  function FindChar(s: string, c: char, from: nat): (r: Option<nat>)
    requires from <= |s|
    ensures r.Some? ==> from <= r.value < |s| && s[r.value] == c
    ensures r.Some? ==> forall k :: from <= k < r.value ==> s[k] != c
    ensures r.None? ==> forall k :: from <= k < |s| ==> s[k] != c
    decreases |s| - from
  {
    if from == |s| then None
    else if s[from] == c then Some(from)
    else FindChar(s, c, from + 1)
  }

  /** First offset at or after `from` where `pat` occurs case-insensitively. */
  function Find(s: string, pat: string, from: nat): (r: Option<nat>)
    requires from <= |s|
    ensures r.Some? ==> from <= r.value && HasAt(s, r.value, pat)
    ensures r.Some? ==> forall k :: from <= k < r.value ==> !HasAt(s, k, pat)
    ensures r.None? ==> forall k :: from <= k ==> !HasAt(s, k, pat)
    decreases |s| - from
  {
    if HasAt(s, from, pat) then Some(from)
    else if from == |s| then None
    else Find(s, pat, from + 1)
  }

  /** The first occurrence is where FindChar stops. */
  lemma FindCharIs(s: string, c: char, from: nat, g: nat)
    requires from <= g < |s| && s[g] == c
    requires forall k :: from <= k < g ==> s[k] != c
    ensures FindChar(s, c, from) == Some(g)
  {
  }

  /** The first occurrence is where Find stops. */
  lemma FindIs(s: string, pat: string, from: nat, g: nat)
    requires from <= g && HasAt(s, g, pat)
    requires forall k :: from <= k < g ==> !HasAt(s, k, pat)
    ensures Find(s, pat, from) == Some(g)
  {
  }

  /** Number of leading characters of `s` from `from` on that trimming removes. */
  function TrimLo(s: string, from: nat): (a: nat)
    requires from <= |s|
    ensures from <= a <= |s|
    ensures forall k :: from <= k < a ==> IsTrimSpace(s[k])
    ensures a < |s| ==> !IsTrimSpace(s[a])
    decreases |s| - from
  {
    if from == |s| || !IsTrimSpace(s[from]) then from else TrimLo(s, from + 1)
  }

  /** End of the kept part: trailing trim spaces between `a` and `hi` are dropped. */
  function TrimHi(s: string, a: nat, hi: nat): (b: nat)
    requires a <= hi <= |s|
    ensures a <= b <= hi
    ensures forall k :: b <= k < hi ==> IsTrimSpace(s[k])
    ensures a < b ==> !IsTrimSpace(s[b - 1])
    decreases hi
  {
    if hi == a || !IsTrimSpace(s[hi - 1]) then hi else TrimHi(s, a, hi - 1)
  }

  /** Swift's `trimmingCharacters(in: .whitespacesAndNewlines)`. */
  function Trim(s: string): (r: string)
  {
    var a := TrimLo(s, 0);
    s[a..TrimHi(s, a, |s|)]
  }

  /** `t` has no leading and no trailing whitespace. */
  predicate IsTrimmed(t: string) {
    |t| == 0 || (!IsTrimSpace(t[0]) && !IsTrimSpace(t[|t| - 1]))
  }

  /** Trimming keeps one contiguous piece of the input, drops only whitespace
      around it, and leaves nothing to trim. */
  lemma TrimSpec(s: string)
    ensures IsTrimmed(Trim(s))
    ensures exists a, b :: 0 <= a <= b <= |s| && Trim(s) == s[a..b]
                           && (forall k :: 0 <= k < a ==> IsTrimSpace(s[k]))
                           && (forall k :: b <= k < |s| ==> IsTrimSpace(s[k]))
  {
    var a := TrimLo(s, 0);
    var b := TrimHi(s, a, |s|);
    assert Trim(s) == s[a..b];
    if a < b {
      assert Trim(s)[0] == s[a];
    }
  }

  /** Every occurrence of `c` replaced by `d`. */
  function ReplaceChar(s: string, c: char, d: char): (r: string)
    ensures |r| == |s|
    ensures forall k :: 0 <= k < |s| ==> r[k] == (if s[k] == c then d else s[k])
  {
    seq(|s|, k requires 0 <= k < |s| => if s[k] == c then d else s[k])
  }

  /** Every occurrence of `c` removed. */
  function RemoveChar(s: string, c: char): (r: string)
    ensures c !in r
    ensures |r| <= |s|
    ensures forall x :: x in r ==> x in s
    ensures c !in s ==> r == s
  {
    if s == [] then []
    else if s[0] == c then RemoveChar(s[1..], c)
    else [s[0]] + RemoveChar(s[1..], c)
  }

  /** Removal works piece by piece, so every other character is kept in order. */
  lemma {:induction false} RemoveCharAppend(a: string, b: string, c: char)
    ensures RemoveChar(a + b, c) == RemoveChar(a, c) + RemoveChar(b, c)
    decreases |a|
  {
    if a != [] {
      assert (a + b)[1..] == a[1..] + b;
      RemoveCharAppend(a[1..], b, c);
    } else {
      assert a + b == b;
    }
  }

  /** The parts separated by `sep`, as Swift's `joined(separator:)`. */
  function Join(parts: seq<string>, sep: string): string
  {
    if |parts| == 0 then ""
    else if |parts| == 1 then parts[0]
    else Join(parts[..|parts| - 1], sep) + sep + parts[|parts| - 1]
  }
}
