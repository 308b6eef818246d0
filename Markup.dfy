/**
 * The element pattern the program matches with regular expressions, written as a
 * scanner: `<tag[^>]*>(.*?)</tag>`, case-insensitive, with `.` matching newlines.
 * The paragraph extractor uses tag `p` with a word boundary after the name
 * (`<p\b[^>]*>`); the OPF code uses `dc:title` and `dc:language` without one.
 */
module Markup {
  import opened Wrappers
  import opened Chars

  /** One match, as offsets into the scanned text: the open tag is
      [start, innerLo), the inner text [innerLo, innerHi), the close tag
      [innerHi, end). */
  datatype Element = Element(start: nat, innerLo: nat, innerHi: nat, end: nat)

  function Open(tag: string): string { "<" + tag }

  function Close(tag: string): string { "</" + tag + ">" }

  /** Tag names used here: non-empty, no angle brackets, no line feed, lower case. */
  predicate IsTagName(tag: string) {
    |tag| > 0 && forall c :: c in tag ==> c != '<' && c != '>' && c != '\n' && Lower(c) == c
  }

  predicate Fits(e: Element, n: nat) {
    e.start < e.innerLo <= e.innerHi < e.end <= n
  }

  /** `e` is the match the pattern finds when it starts at `e.start`: the open
      tag ends at the first `>` after the name, the inner text ends at the first
      close tag after that. */
  predicate IsElementAt(s: string, e: Element, tag: string, wordBoundary: bool) {
    && Fits(e, |s|)
    && HasAt(s, e.start, Open(tag))
    && (wordBoundary ==> e.start + |tag| + 1 == |s| || !IsWordChar(s[e.start + |tag| + 1]))
    && e.start + |tag| + 1 < e.innerLo
    && s[e.innerLo - 1] == '>'
    && (forall k :: e.start + |tag| + 1 <= k < e.innerLo - 1 ==> s[k] != '>')
    && HasAt(s, e.innerHi, Close(tag))
    && (forall k :: e.innerLo <= k < e.innerHi ==> !HasAt(s, k, Close(tag)))
    && e.end == e.innerHi + |tag| + 3
  }

  /** The match attempted at offset `i`, if any. */
  function ElementAt(s: string, i: nat, tag: string, wordBoundary: bool): (r: Option<Element>)
    requires i <= |s|
    ensures r.Some? ==> r.value.start == i && Fits(r.value, |s|)
  {
    var o := i + |tag| + 1;
    if !HasAt(s, i, Open(tag)) then None
    else if wordBoundary && o < |s| && IsWordChar(s[o]) then None
    else ElementAfterName(s, i, tag)
  }

  /** The rest of a match once the open tag's name is recognised: the first `>`
      closes the open tag, the first close tag after it ends the inner text. */
  function ElementAfterName(s: string, i: nat, tag: string): (r: Option<Element>)
    requires i + |tag| + 1 <= |s|
    ensures r.Some? ==> r.value.start == i && Fits(r.value, |s|)
  {
    match FindChar(s, '>', i + |tag| + 1)
    case None => None
    case Some(g) => ElementAfterOpenTag(s, i, tag, g)
  }

  /** The rest of a match once its open tag ends at `g`. */
  function ElementAfterOpenTag(s: string, i: nat, tag: string, g: nat): (r: Option<Element>)
    requires i + |tag| + 1 <= g < |s|
    ensures r.Some? ==> r.value.start == i && Fits(r.value, |s|)
  {
    match Find(s, Close(tag), g + 1)
    case None => None
    case Some(c) => Some(Element(i, g + 1, c, c + |tag| + 3))
  }

  /** What the scanner reports is a match as the pattern describes it. */
  lemma ElementAtSound(s: string, i: nat, tag: string, wordBoundary: bool, e: Element)
    requires i <= |s| && ElementAt(s, i, tag, wordBoundary) == Some(e)
    ensures IsElementAt(s, e, tag, wordBoundary)
  {
    var g := FindChar(s, '>', i + |tag| + 1).value;
    var c := Find(s, Close(tag), g + 1).value;
    assert e == Element(i, g + 1, c, c + |tag| + 3);
  }

  /** The description of a match determines it: whenever `e` satisfies
      IsElementAt, the scanner finds exactly `e` at `e.start`. */
  lemma ElementAtIntro(s: string, e: Element, tag: string, wordBoundary: bool)
    requires IsElementAt(s, e, tag, wordBoundary)
    ensures ElementAt(s, e.start, tag, wordBoundary) == Some(e)
  {
    ElementSearchesAt(s, e, tag, wordBoundary);
    ElementAtIs(s, e.start, tag, wordBoundary, e.innerLo - 1, e.innerHi);
    assert e == Element(e.start, e.innerLo - 1 + 1, e.innerHi, e.innerHi + |tag| + 3);
  }

  /** The two searches inside the scanner stop where the description says. */
  lemma ElementSearchesAt(s: string, e: Element, tag: string, wordBoundary: bool)
    requires IsElementAt(s, e, tag, wordBoundary)
    ensures FindChar(s, '>', e.start + |tag| + 1) == Some(e.innerLo - 1)
    ensures Find(s, Close(tag), e.innerLo) == Some(e.innerHi)
  {
    var o := e.start + |tag| + 1;
    var close := Close(tag);
    FindCharIs(s, '>', o, e.innerLo - 1);
    FindIs(s, close, e.innerLo, e.innerHi);
  }

  /** The scanner's result, given where the open tag's `>` and the close tag are. */
  lemma ElementAtIs(s: string, i: nat, tag: string, wordBoundary: bool, g: nat, c: nat)
    requires i + |tag| + 1 <= |s| && HasAt(s, i, Open(tag))
    requires wordBoundary ==> i + |tag| + 1 == |s| || !IsWordChar(s[i + |tag| + 1])
    requires FindChar(s, '>', i + |tag| + 1) == Some(g) && Find(s, Close(tag), g + 1) == Some(c)
    ensures ElementAt(s, i, tag, wordBoundary) == Some(Element(i, g + 1, c, c + |tag| + 3))
  {
    var o := i + |tag| + 1;
    ElementAfterNameIs(s, i, tag, g, c);
    assert !(wordBoundary && o < |s| && IsWordChar(s[o]));
  }

  /** The part of ElementAtIs after the open tag's name. */
  lemma ElementAfterNameIs(s: string, i: nat, tag: string, g: nat, c: nat)
    requires i + |tag| + 1 <= |s|
    requires FindChar(s, '>', i + |tag| + 1) == Some(g) && Find(s, Close(tag), g + 1) == Some(c)
    ensures ElementAfterName(s, i, tag) == Some(Element(i, g + 1, c, c + |tag| + 3))
  {
    AfterOpenTag(s, i, tag, g);
    AfterCloseTag(s, i, tag, g, c);
  }

  lemma AfterOpenTag(s: string, i: nat, tag: string, g: nat)
    requires i + |tag| + 1 <= |s|
    requires FindChar(s, '>', i + |tag| + 1) == Some(g)
    ensures ElementAfterName(s, i, tag) == ElementAfterOpenTag(s, i, tag, g)
  {
  }

  lemma AfterCloseTag(s: string, i: nat, tag: string, g: nat, c: nat)
    requires i + |tag| + 1 <= g < |s|
    requires Find(s, Close(tag), g + 1) == Some(c)
    ensures ElementAfterOpenTag(s, i, tag, g) == Some(Element(i, g + 1, c, c + |tag| + 3))
  {
  }

  /** NSRegularExpression's `firstMatch`: the match at the lowest offset from `from` on. */
  function FirstElement(s: string, tag: string, from: nat): (r: Option<Element>)
    requires from <= |s|
    ensures r.Some? ==> from <= r.value.start < |s| && ElementAt(s, r.value.start, tag, false) == r
    decreases |s| - from
  {
    match ElementAt(s, from, tag, false)
    case Some(e) => Some(e)
    case None => if from == |s| then None else FirstElement(s, tag, from + 1)
  }

  /** No match starts between `from` and the one FirstElement reports, and
      when it reports none there is no match from `from` on. */
  lemma {:induction false} FirstElementIsFirst(s: string, tag: string, from: nat, j: nat)
    requires from <= j <= |s|
    requires FirstElement(s, tag, from).Some? ==> j < FirstElement(s, tag, from).value.start
    ensures ElementAt(s, j, tag, false).None?
    decreases |s| - from
  {
    if j > from {
      assert ElementAt(s, from, tag, false).None?;
      FirstElementSkips(s, tag, from);
      FirstElementIsFirst(s, tag, from + 1, j);
    }
  }

  lemma FirstElementSkips(s: string, tag: string, from: nat)
    requires from < |s| && ElementAt(s, from, tag, false).None?
    ensures FirstElement(s, tag, from) == FirstElement(s, tag, from + 1)
  {
  }

  /** Conversely, a match with no match before it (from `from` on) is the one
      FirstElement reports. */
  lemma {:induction false} FirstElementIs(s: string, tag: string, from: nat, e: Element)
    requires from <= e.start && IsElementAt(s, e, tag, false)
    requires forall j :: from <= j < e.start ==> ElementAt(s, j, tag, false).None?
    ensures FirstElement(s, tag, from) == Some(e)
    decreases e.start - from
  {
    ElementAtIntro(s, e, tag, false);
    if from < e.start {
      FirstElementIs(s, tag, from + 1, e);
    }
  }

  /** NSRegularExpression's `matches`: all matches, left to right, each search
      resuming where the previous match ended. */
  function AllElements(s: string, tag: string, wordBoundary: bool, from: nat): (r: seq<Element>)
    requires from <= |s|
    ensures forall k :: 0 <= k < |r| ==> from <= r[k].start && Fits(r[k], |s|)
    decreases |s| - from
  {
    if from == |s| then []
    else match ElementAt(s, from, tag, wordBoundary)
      case Some(e) => [e] + AllElements(s, tag, wordBoundary, e.end)
      case None => AllElements(s, tag, wordBoundary, from + 1)
  }

  /** Every reported match is the match the scanner finds at its start. */
  lemma {:induction false} AllElementsFound(s: string, tag: string, wordBoundary: bool, from: nat, k: nat, e: Element)
    requires from <= |s| && k < |AllElements(s, tag, wordBoundary, from)|
    requires e == AllElements(s, tag, wordBoundary, from)[k]
    ensures e.start <= |s| && ElementAt(s, e.start, tag, wordBoundary) == Some(e)
    decreases |s| - from
  {
    match ElementAt(s, from, tag, wordBoundary)
    case Some(m) =>
      AllElementsStep(s, tag, wordBoundary, from, m);
      if k > 0 {
        AllElementsFound(s, tag, wordBoundary, m.end, k - 1, e);
      }
    case None =>
      AllElementsSkip(s, tag, wordBoundary, from);
      AllElementsFound(s, tag, wordBoundary, from + 1, k, e);
  }

  /** A match at `from` is reported first, and the scan resumes at its end. */
  lemma AllElementsStep(s: string, tag: string, wordBoundary: bool, from: nat, m: Element)
    requires from <= |s| && ElementAt(s, from, tag, wordBoundary) == Some(m)
    ensures m.end <= |s| && AllElements(s, tag, wordBoundary, from) == [m] + AllElements(s, tag, wordBoundary, m.end)
  {
  }

  /** Without a match at `from` the scan moves on by one. */
  lemma AllElementsSkip(s: string, tag: string, wordBoundary: bool, from: nat)
    requires from < |s| && ElementAt(s, from, tag, wordBoundary).None?
    ensures AllElements(s, tag, wordBoundary, from) == AllElements(s, tag, wordBoundary, from + 1)
  {
  }

  /** Matches do not overlap: each search resumes where the previous match ended. */
  lemma {:induction false} AllElementsOrdered(s: string, tag: string, wordBoundary: bool, from: nat, k: nat,
                                              a: Element, b: Element)
    requires from <= |s| && k + 1 < |AllElements(s, tag, wordBoundary, from)|
    requires a == AllElements(s, tag, wordBoundary, from)[k]
    requires b == AllElements(s, tag, wordBoundary, from)[k + 1]
    ensures a.end <= b.start
    decreases |s| - from
  {
    match ElementAt(s, from, tag, wordBoundary)
    case Some(m) =>
      AllElementsStep(s, tag, wordBoundary, from, m);
      if k > 0 {
        AllElementsOrdered(s, tag, wordBoundary, m.end, k - 1, a, b);
      }
    case None =>
      AllElementsSkip(s, tag, wordBoundary, from);
      AllElementsOrdered(s, tag, wordBoundary, from + 1, k, a, b);
  }

  /** `j` lies inside one of the matches of `r`. */
  ghost predicate Covered(r: seq<Element>, j: nat) {
    exists k :: 0 <= k < |r| && r[k].start <= j < r[k].end
  }

  /** The scan misses nothing: every offset where a match could start lies
      inside a reported match (it is a reported start, or it was skipped because
      an earlier match already covered it). */
  lemma {:induction false} AllElementsIsLeftmost(s: string, tag: string, wordBoundary: bool, from: nat, j: nat)
    requires from <= j < |s|
    requires ElementAt(s, j, tag, wordBoundary).Some?
    ensures Covered(AllElements(s, tag, wordBoundary, from), j)
    decreases |s| - from
  {
    match ElementAt(s, from, tag, wordBoundary)
    case Some(m) =>
      AllElementsStep(s, tag, wordBoundary, from, m);
      if j < m.end {
        CoveredByHead(AllElements(s, tag, wordBoundary, m.end), m, j);
      } else {
        AllElementsIsLeftmost(s, tag, wordBoundary, m.end, j);
        CoveredByTail(AllElements(s, tag, wordBoundary, m.end), m, j);
      }
    case None =>
      AllElementsIsLeftmost(s, tag, wordBoundary, from + 1, j);
  }

  lemma CoveredByHead(tail: seq<Element>, m: Element, j: nat)
    requires m.start <= j < m.end
    ensures Covered([m] + tail, j)
  {
    assert ([m] + tail)[0] == m;
  }

  lemma CoveredByTail(tail: seq<Element>, m: Element, j: nat)
    requires Covered(tail, j)
    ensures Covered([m] + tail, j)
  {
    var k :| 0 <= k < |tail| && tail[k].start <= j < tail[k].end;
    assert ([m] + tail)[k + 1] == tail[k];
  }

  /** A match of `pat` inside `x` is a match inside `pre + x`, and back. */
  lemma HasAtShift(pre: string, x: string, j: nat, pat: string)
    ensures HasAt(pre + x, |pre| + j, pat) <==> HasAt(x, j, pat)
  {
    if j + |pat| <= |x| {
      assert (pre + x)[|pre| + j..|pre| + j + |pat|] == x[j..j + |pat|];
    }
  }

  /** A `<` in `w` facing a character other than `<` in `pat` rules out a match. */
  lemma StraddleMismatch(w: string, pat: string, k: nat, j: nat)
    requires 0 < j < |pat| && k + j < |w| && w[k + j] == '<' && pat[j] != '<'
    ensures !HasAt(w, k, pat)
  {
    if k + |pat| <= |w| {
      assert w[k..k + |pat|][j] == '<';
    }
  }

  /** A pattern whose only `<` is its first character cannot match across the
      start of a text that begins with `<`: a match starting in `a` lies within `a`. */
  lemma NoStraddle(a: string, b: string, pat: string, k: nat)
    requires |pat| > 0 && pat[0] == '<' && forall j :: 1 <= j < |pat| ==> pat[j] != '<'
    requires |b| > 0 && b[0] == '<'
    requires k < |a| && HasAt(a + b, k, pat)
    ensures HasAt(a, k, pat)
  {
    var w := a + b;
    if k + |pat| > |a| {
      StraddleMismatch(w, pat, k, |a| - k);
    } else {
      assert w[k..k + |pat|] == a[k..k + |pat|];
    }
  }
}
