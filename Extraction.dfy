/**
 * Paragraph extraction from an HTML/XHTML content document
 * (`EpubIO.extractParagraphs`): every `<p…>…</p>` match with its span and
 * its plain text, optionally merged into runs of twenty.
 */
module Extraction {
  import opened Wrappers
  import opened Chars
  import opened Markup

  /** A half-open range of character offsets into a document. */
  datatype Span = Span(lo: nat, hi: nat)

  /** One extracted unit: where it sits in the document and its plain text. */
  datatype Paragraph = Paragraph(span: Span, text: string)

  /** Paragraphs merged into one unit when batching is on. */
  const ChunkSize: nat := 20

  /** Separator placed between merged paragraph texts. */
  const BatchSeparator: string := "\n\n"

  function Min(a: int, b: int): int { if a <= b then a else b }

  // ---------------------------------------------------------------------------
  // Plain-text normalisation of a paragraph's inner markup
  // ---------------------------------------------------------------------------

  /** First offset at or after `from` that is not matched by `\s`. */
  function SkipRegexSpace(s: string, from: nat): (j: nat)
    requires from <= |s|
    ensures from <= j <= |s|
    ensures forall k :: from <= k < j ==> IsRegexSpace(s[k])
    ensures j < |s| ==> !IsRegexSpace(s[j])
    decreases |s| - from
  {
    if from == |s| || !IsRegexSpace(s[from]) then from else SkipRegexSpace(s, from + 1)
  }

  /** Length of a match of `(?i)<br\s*\/?>` at the start of `s`. */
  function BreakLength(s: string): (r: Option<nat>)
    ensures r.Some? ==> 4 <= r.value <= |s| && HasAt(s, 0, "<br") && s[r.value - 1] == '>'
  {
    if !HasAt(s, 0, "<br") then None
    else
      var j := SkipRegexSpace(s, 3);
      if j < |s| && s[j] == '>' then Some(j + 1)
      else if j + 1 < |s| && s[j] == '/' && s[j + 1] == '>' then Some(j + 2)
      else None
  }

  /** Every line-break tag replaced by a newline, scanning left to right. */
  function ReplaceBreaks(s: string): string
    decreases |s|
  {
    if s == [] then []
    else match BreakLength(s)
      case Some(n) => "\n" + ReplaceBreaks(s[n..])
      case None => [s[0]] + ReplaceBreaks(s[1..])
  }

  /** Length of a match of `<[^>]+>` at the start of `s`. */
  function TagLength(s: string): (r: Option<nat>)
    ensures r.Some? ==> 3 <= r.value <= |s| && s[0] == '<' && s[r.value - 1] == '>'
  {
    if |s| >= 2 && s[0] == '<' && s[1] != '>' then
      match FindChar(s, '>', 2)
      case Some(g) => Some(g + 1)
      case None => None
    else None
  }

  /** Every remaining tag removed, scanning left to right. */
  function StripTags(s: string): (r: string)
    ensures forall x :: x in r ==> x in s
    decreases |s|
  {
    if s == [] then []
    else match TagLength(s)
      case Some(n) => StripTags(s[n..])
      case None => [s[0]] + StripTags(s[1..])
  }

  /** `t` contains nothing matched by `<[^>]+>`: after any `<`, the first `>`
      (if there is one) comes immediately. */
  predicate TagFree(t: string) {
    forall i, j :: 0 <= i < j < |t| && t[i] == '<' && t[j] == '>' ==> t[i + 1] == '>'
  }

  /** The text recorded for a paragraph's inner markup: line breaks become
      newlines, other tags vanish, non-breaking spaces become spaces, and the
      result is trimmed. */
  function PlainText(content: string): string {
    Trim(ReplaceChar(StripTags(ReplaceBreaks(content)), NBSP, ' '))
  }

  lemma {:induction false} StripTagsIsTagFree(s: string)
    ensures TagFree(StripTags(s))
    decreases |s|
  {
    if s != [] {
      match TagLength(s)
      case Some(n) =>
        StripTagsIsTagFree(s[n..]);
      case None =>
        var rest := StripTags(s[1..]);
        StripTagsIsTagFree(s[1..]);
        var r := [s[0]] + rest;
        assert StripTags(s) == r;
        if s[0] == '<' {
          if |s| >= 2 && s[1] == '>' {
            assert TagLength(s[1..]).None?;
            assert rest[0] == '>';
          } else if |s| >= 2 {
            assert FindChar(s, '>', 2).None?;
            assert '>' !in s[1..];
            assert '>' !in rest;
          }
        }
        forall i, j | 0 <= i < j < |r| && r[i] == '<' && r[j] == '>'
          ensures r[i + 1] == '>'
        {
          if i > 0 {
            assert rest[i - 1] == '<' && rest[j - 1] == '>';
          } else {
            assert rest[j - 1] == '>';
          }
        }
    }
  }

  lemma TagFreeSlice(t: string, a: nat, b: nat)
    requires TagFree(t) && a <= b <= |t|
    ensures TagFree(t[a..b])
  {
    var u := t[a..b];
    forall i, j | 0 <= i < j < |u| && u[i] == '<' && u[j] == '>'
      ensures u[i + 1] == '>'
    {
      assert t[a + i] == '<' && t[a + j] == '>';
    }
  }

  /** What every extracted text satisfies: no leading or trailing whitespace,
      no non-breaking space, no tag left. */
  lemma PlainTextIsPlain(content: string)
    ensures IsTrimmed(PlainText(content))
    ensures NBSP !in PlainText(content)
    ensures TagFree(PlainText(content))
  {
    var stripped := StripTags(ReplaceBreaks(content));
    StripTagsIsTagFree(ReplaceBreaks(content));
    var spaced := ReplaceChar(stripped, NBSP, ' ');
    assert TagFree(spaced) by {
      forall i, j | 0 <= i < j < |spaced| && spaced[i] == '<' && spaced[j] == '>'
        ensures spaced[i + 1] == '>'
      {
        assert stripped[i] == '<' && stripped[j] == '>';
      }
    }
    TrimSpec(spaced);
    var a := TrimLo(spaced, 0);
    var b := TrimHi(spaced, a, |spaced|);
    TagFreeSlice(spaced, a, b);
    assert NBSP !in spaced;
  }

  /** Inner markup without tags or non-breaking spaces is only trimmed. */
  lemma {:induction false} PlainTextOfPlainContent(content: string)
    requires '<' !in content && NBSP !in content
    ensures PlainText(content) == Trim(content)
  {
    NoBreaksUnchanged(content);
    NoTagsUnchanged(content);
    assert ReplaceChar(content, NBSP, ' ') == content;
  }

  /** No match of either pattern can start at a character other than `<`. */
  lemma NoMatchWithoutBracket(s: string)
    requires |s| > 0 && s[0] != '<'
    ensures BreakLength(s).None? && TagLength(s).None?
  {
  }

  lemma {:induction false} NoBreaksUnchanged(s: string)
    requires '<' !in s
    ensures ReplaceBreaks(s) == s
    decreases |s|
  {
    if s != [] {
      NoMatchWithoutBracket(s);
      NoBreaksUnchanged(s[1..]);
      assert s == [s[0]] + s[1..];
    }
  }

  lemma {:induction false} NoTagsUnchanged(s: string)
    requires '<' !in s
    ensures StripTags(s) == s
    decreases |s|
  {
    if s != [] {
      NoMatchWithoutBracket(s);
      NoTagsUnchanged(s[1..]);
      assert s == [s[0]] + s[1..];
    }
  }

  /** A line-break tag after tag-free text turns into exactly one newline. */
  lemma {:induction false} BreakBecomesNewline(pre: string, br: string, post: string)
    requires '<' !in pre
    requires BreakLength(br + post) == Some(|br|)
    ensures ReplaceBreaks(pre + br + post) == pre + "\n" + ReplaceBreaks(post)
    decreases |pre|
  {
    if pre == [] {
      assert pre + br + post == br + post;
      ReplaceBreaksAtBreak(br + post, |br|);
      assert (br + post)[|br|..] == post;
    } else {
      var c, tail := pre[0], pre[1..];
      var rest := tail + br + post;
      assert pre + br + post == [c] + rest;
      ReplaceBreaksPlainHead(c, rest);
      BreakBecomesNewline(tail, br, post);
      ConsAppend(c, tail, pre, "\n", ReplaceBreaks(post));
    }
  }

  lemma ConsAppend(c: char, tail: string, pre: string, x: string, y: string)
    requires pre == [c] + tail
    ensures [c] + (tail + x + y) == pre + x + y
  {
  }

  /** A line-break tag at the start becomes one newline. */
  lemma ReplaceBreaksAtBreak(s: string, n: nat)
    requires BreakLength(s) == Some(n)
    ensures n <= |s| && ReplaceBreaks(s) == "\n" + ReplaceBreaks(s[n..])
  {
  }

  /** A character other than `<` is copied as it is. */
  lemma ReplaceBreaksPlainHead(c: char, rest: string)
    requires c != '<'
    ensures ReplaceBreaks([c] + rest) == [c] + ReplaceBreaks(rest)
  {
    NoMatchWithoutBracket([c] + rest);
    assert ([c] + rest)[1..] == rest;
  }

  // ---------------------------------------------------------------------------
  // Matching paragraphs and batching them
  // ---------------------------------------------------------------------------

  /** The matches of `(?is)<p\b[^>]*>([\s\S]*?)</p>`, in document order. */
  function ParagraphMatches(html: string): (r: seq<Element>)
    ensures forall k :: 0 <= k < |r| ==> Fits(r[k], |html|)
    ensures forall k :: 0 <= k < |r| - 1 ==> r[k].end <= r[k + 1].start
  {
    var r := AllElements(html, "p", true, 0);
    forall k | 0 <= k < |r| - 1
      ensures r[k].end <= r[k + 1].start
    {
      AllElementsOrdered(html, "p", true, 0, k, r[k], r[k + 1]);
    }
    r
  }

  /** Each match is a `<p…>…</p>` element as the pattern describes it. */
  lemma ParagraphMatchIsElement(html: string, k: nat)
    requires k < |ParagraphMatches(html)|
    ensures IsElementAt(html, ParagraphMatches(html)[k], "p", true)
  {
    var e := ParagraphMatches(html)[k];
    AllElementsFound(html, "p", true, 0, k, e);
    ElementAtSound(html, e.start, "p", true, e);
  }

  /** The unit recorded for one match: the full match span and the plain text
      of its inner part. */
  function ParagraphOf(html: string, e: Element): Paragraph
    requires Fits(e, |html|)
  {
    Paragraph(Span(e.start, e.end), PlainText(html[e.innerLo..e.innerHi]))
  }

  function Texts(ps: seq<Paragraph>): (r: seq<string>)
    ensures |r| == |ps|
  {
    seq(|ps|, k requires 0 <= k < |ps| => ps[k].text)
  }

  /** One batch: from the first paragraph's start to the last one's end, texts
      joined with a blank line. */
  function Merge(chunk: seq<Paragraph>): Paragraph
    requires |chunk| > 0
  {
    Paragraph(Span(chunk[0].span.lo, chunk[|chunk| - 1].span.hi), Join(Texts(chunk), BatchSeparator))
  }

  /** Consecutive runs of ChunkSize paragraphs merged; the last run may be shorter. */
  function Batch(ps: seq<Paragraph>): seq<Paragraph>
    decreases |ps|
  {
    if |ps| == 0 then []
    else if |ps| <= ChunkSize then [Merge(ps)]
    else [Merge(ps[..ChunkSize])] + Batch(ps[ChunkSize..])
  }

  /** The paragraphs of unmerged extraction. */
  function Unbatched(html: string): seq<Paragraph>
  {
    var ms := ParagraphMatches(html);
    seq(|ms|, k requires 0 <= k < |ms| => ParagraphOf(html, ms[k]))
  }

  /** What `extractParagraphs(from:wideMatch:)` returns. */
  function Paragraphs(html: string, wideMatch: bool): seq<Paragraph>
  {
    var ps := Unbatched(html);
    if wideMatch && |ps| > 0 then Batch(ps) else ps
  }

  /** Spans inside a document of length `n`, non-empty, in document order and
      not overlapping. */
  predicate OrderedSpans(ps: seq<Paragraph>, n: nat) {
    && (forall k :: 0 <= k < |ps| ==> ps[k].span.lo < ps[k].span.hi <= n)
    && (forall k :: 0 <= k < |ps| - 1 ==> ps[k].span.hi <= ps[k + 1].span.lo)
  }

  /** In ordered spans every earlier span ends before every later one starts. */
  lemma {:induction false} OrderedSpansDisjoint(ps: seq<Paragraph>, n: nat, a: nat, b: nat)
    requires OrderedSpans(ps, n) && a < b < |ps|
    ensures ps[a].span.hi <= ps[b].span.lo
    decreases b - a
  {
    if a + 1 < b {
      OrderedSpansDisjoint(ps, n, a + 1, b);
    }
  }

  /** Without batching, units come in document order, their spans do not
      overlap, and each span is a whole `<p…>…</p>` element whose inner part
      gave the unit's text. */
  lemma UnbatchedShape(html: string)
    ensures OrderedSpans(Unbatched(html), |html|)
    ensures forall k :: 0 <= k < |Unbatched(html)| ==>
      var p := Unbatched(html)[k];
      HasAt(html, p.span.lo, Open("p")) && 4 <= p.span.hi && HasAt(html, p.span.hi - 4, Close("p"))
    ensures forall k :: 0 <= k < |Unbatched(html)| ==>
      var p := Unbatched(html)[k];
      IsTrimmed(p.text) && NBSP !in p.text && TagFree(p.text)
  {
    var ps := Unbatched(html);
    forall k | 0 <= k < |ps|
      ensures HasAt(html, ps[k].span.lo, Open("p")) && 4 <= ps[k].span.hi && HasAt(html, ps[k].span.hi - 4, Close("p"))
      ensures IsTrimmed(ps[k].text) && NBSP !in ps[k].text && TagFree(ps[k].text)
    {
      UnbatchedUnit(html, k);
    }
  }

  /** One unit of UnbatchedShape. */
  lemma UnbatchedUnit(html: string, k: nat)
    requires k < |Unbatched(html)|
    ensures var p := Unbatched(html)[k];
      HasAt(html, p.span.lo, Open("p")) && 4 <= p.span.hi && HasAt(html, p.span.hi - 4, Close("p"))
      && IsTrimmed(p.text) && NBSP !in p.text && TagFree(p.text)
  {
    var e := ParagraphMatches(html)[k];
    ParagraphMatchIsElement(html, k);
    assert Unbatched(html)[k] == ParagraphOf(html, e);
    PlainTextIsPlain(html[e.innerLo..e.innerHi]);
  }

  /** Batching n paragraphs gives ceil(n/20) units. */
  lemma {:induction false} BatchCount(ps: seq<Paragraph>)
    ensures |Batch(ps)| == (|ps| + ChunkSize - 1) / ChunkSize
    decreases |ps|
  {
    if |ps| > ChunkSize {
      BatchCount(ps[ChunkSize..]);
    }
  }

  /** Unit k of a batching merges the run of paragraphs that starts at 20k and
      ends 20 paragraphs later or at the last paragraph. */
  /** A slice of a suffix is a slice of the whole, shifted. */
  lemma DropSlice(ps: seq<Paragraph>, c: nat, lo: nat, hi: nat)
    requires c <= |ps| && lo <= hi <= |ps| - c
    ensures ps[c..][lo..hi] == ps[c + lo .. c + hi]
  {
  }

  lemma {:induction false} BatchEntry(ps: seq<Paragraph>, k: nat)
    requires k < |Batch(ps)|
    ensures ChunkSize * k < |ps|
    ensures Batch(ps)[k] == Merge(ps[ChunkSize * k .. Min(ChunkSize * k + ChunkSize, |ps|)])
    decreases k
  {
    if k == 0 {
      if |ps| <= ChunkSize {
        assert ps[0..|ps|] == ps;
      } else {
        assert ps[0..ChunkSize] == ps[..ChunkSize];
      }
    } else {
      var rest := ps[ChunkSize..];
      assert Batch(ps)[k] == Batch(rest)[k - 1];
      BatchEntry(rest, k - 1);
      var lo := ChunkSize * (k - 1);
      var hi := Min(lo + ChunkSize, |rest|);
      DropSlice(ps, ChunkSize, lo, hi);
      assert ChunkSize + lo == ChunkSize * k;
      assert ChunkSize + hi == Min(ChunkSize * k + ChunkSize, |ps|);
    }
  }

  lemma OrderedSlice(ps: seq<Paragraph>, n: nat, a: nat, b: nat)
    requires OrderedSpans(ps, n) && a <= b <= |ps|
    ensures OrderedSpans(ps[a..b], n)
  {
    var q := ps[a..b];
    forall k | 0 <= k < |q| - 1
      ensures q[k].span.hi <= q[k + 1].span.lo
    {
      assert q[k] == ps[a + k] && q[k + 1] == ps[a + k + 1];
    }
  }

  /** A merged run spans from its first paragraph's start to its last one's end. */
  lemma MergeSpan(chunk: seq<Paragraph>, n: nat)
    requires OrderedSpans(chunk, n) && |chunk| > 0
    ensures Merge(chunk).span.lo == chunk[0].span.lo
    ensures Merge(chunk).span.hi == chunk[|chunk| - 1].span.hi
    ensures Merge(chunk).span.lo < Merge(chunk).span.hi <= n
  {
    if |chunk| > 1 {
      OrderedSpansDisjoint(chunk, n, 0, |chunk| - 1);
    }
  }

  /** An ordered sequence stays ordered with a unit put before it that ends
      before the sequence starts. */
  lemma OrderedCons(p: Paragraph, tail: seq<Paragraph>, n: nat)
    requires OrderedSpans(tail, n) && p.span.lo < p.span.hi <= n
    requires |tail| > 0 ==> p.span.hi <= tail[0].span.lo
    ensures OrderedSpans([p] + tail, n)
  {
    var b := [p] + tail;
    forall k | 0 <= k < |b| - 1
      ensures b[k].span.hi <= b[k + 1].span.lo
    {
      if k > 0 {
        assert b[k] == tail[k - 1] && b[k + 1] == tail[k];
      }
    }
    forall k | 0 <= k < |b|
      ensures b[k].span.lo < b[k].span.hi <= n
    {
      if k > 0 {
        assert b[k] == tail[k - 1];
      }
    }
  }

  /** Batching keeps units in document order without overlap. */
  lemma {:induction false} BatchOrdered(ps: seq<Paragraph>, n: nat)
    requires OrderedSpans(ps, n)
    ensures OrderedSpans(Batch(ps), n)
    ensures |ps| > 0 ==> Batch(ps)[0].span.lo == ps[0].span.lo
    decreases |ps|
  {
    if 0 < |ps| <= ChunkSize {
      MergeSpan(ps, n);
    } else if |ps| > ChunkSize {
      var head := ps[..ChunkSize];
      var rest := ps[ChunkSize..];
      OrderedSlice(ps, n, 0, ChunkSize);
      OrderedSlice(ps, n, ChunkSize, |ps|);
      assert ps[0..ChunkSize] == head && ps[ChunkSize..|ps|] == rest;
      BatchOrdered(rest, n);
      MergeSpan(head, n);
      var tail := Batch(rest);
      assert Batch(ps) == [Merge(head)] + tail;
      assert Merge(head).span.hi <= tail[0].span.lo by {
        assert ps[ChunkSize - 1].span.hi <= ps[ChunkSize].span.lo;
      }
      OrderedCons(Merge(head), tail, n);
    }
  }

  /** With or without batching, extracted units are ordered and disjoint, as
      reinjection requires. */
  lemma ParagraphsOrdered(html: string, wideMatch: bool)
    ensures OrderedSpans(Paragraphs(html, wideMatch), |html|)
  {
    UnbatchedShape(html);
    BatchOrdered(Unbatched(html), |html|);
  }

  /** Batching from offset `start` merges one run and continues after it. */
  lemma BatchStep(ps: seq<Paragraph>, start: nat)
    requires start < |ps|
    ensures Batch(ps[start..])
         == [Merge(ps[start..Min(start + ChunkSize, |ps|)])] + Batch(ps[Min(start + ChunkSize, |ps|)..])
  {
    var q := ps[start..];
    var end := Min(start + ChunkSize, |ps|);
    if |q| <= ChunkSize {
      assert q == ps[start..end];
      assert ps[end..] == [];
    } else {
      assert q[..ChunkSize] == ps[start..end];
      assert q[ChunkSize..] == ps[end..];
    }
  }

  /** `ps` holds the units of the first `|ps|` paragraph matches, unmerged. */
  predicate UnbatchedPrefix(html: string, ps: seq<Paragraph>) {
    var ms := ParagraphMatches(html);
    |ps| <= |ms| && forall k :: 0 <= k < |ps| ==> ps[k] == ParagraphOf(html, ms[k])
  }

  lemma UnbatchedGrow(html: string, ps: seq<Paragraph>, p: Paragraph)
    requires UnbatchedPrefix(html, ps) && |ps| < |ParagraphMatches(html)|
    requires p == ParagraphOf(html, ParagraphMatches(html)[|ps|])
    ensures UnbatchedPrefix(html, ps + [p])
  {
  }

  lemma UnbatchedAt(html: string, ps: seq<Paragraph>)
    requires UnbatchedPrefix(html, ps) && |ps| == |ParagraphMatches(html)|
    ensures ps == Unbatched(html)
  {
  }

  /** The batching stride loop of `extractParagraphs`: one merged unit per
      run of ChunkSize paragraphs, in order. */
  method MergeRuns(paragraphs: seq<Paragraph>) returns (merged: seq<Paragraph>)
    ensures merged == Batch(paragraphs)
  {
    merged := [];
    var start := 0;
    while start < |paragraphs|
      invariant start <= |paragraphs| + ChunkSize
      invariant merged + Batch(paragraphs[Min(start, |paragraphs|)..]) == Batch(paragraphs)
    {
      var end := Min(start + ChunkSize, |paragraphs|);
      var chunk := paragraphs[start..end];
      BatchStep(paragraphs, start);
      merged := merged + [Merge(chunk)];
      start := start + ChunkSize;
    }
  }

  /** `EpubIO.extractParagraphs`: collects one unit per match, then, when
      `wideMatch` is on and there is at least one unit, merges runs of
      ChunkSize units. */
  method ExtractParagraphs(html: string, wideMatch: bool) returns (ps: seq<Paragraph>)
    ensures ps == Paragraphs(html, wideMatch)
  {
    var matches := ParagraphMatches(html);
    var paragraphs: seq<Paragraph> := [];
    var i := 0;
    while i < |matches|
      invariant 0 <= i <= |matches|
      invariant |paragraphs| == i
      invariant UnbatchedPrefix(html, paragraphs)
    {
      var m := matches[i];
      var text := PlainText(html[m.innerLo..m.innerHi]);
      var p := Paragraph(Span(m.start, m.end), text);
      assert p == ParagraphOf(html, m);
      UnbatchedGrow(html, paragraphs, p);
      paragraphs := paragraphs + [p];
      i := i + 1;
    }
    UnbatchedAt(html, paragraphs);
    if !wideMatch || |paragraphs| == 0 {
      return paragraphs;
    }
    ps := MergeRuns(paragraphs);
  }

  /** A document that is a single paragraph element, with attributes that
      keep the word boundary and inner markup without a close tag, gives one
      unit spanning the whole document, batched or not. */
  lemma SingleParagraph(attrs: string, inner: string, wideMatch: bool)
    requires '>' !in attrs
    requires attrs == [] || !IsWordChar(attrs[0])
    requires forall k :: 0 <= k < |inner| ==> !HasAt(inner, k, "</p>")
    ensures var html := "<p" + attrs + ">" + inner + "</p>";
      Paragraphs(html, wideMatch) == [Paragraph(Span(0, |html|), PlainText(inner))]
  {
    var html := "<p" + attrs + ">" + inner + "</p>";
    var lo := |attrs| + 3;
    var e := Element(0, lo, lo + |inner|, |html|);
    SingleParagraphMatch(attrs, inner);
    assert html[lo..lo + |inner|] == inner;
    var p := Paragraph(Span(0, |html|), PlainText(inner));
    assert Unbatched(html) == [p];
    assert Merge([p]) == p;
  }

  lemma SingleParagraphMatch(attrs: string, inner: string)
    requires '>' !in attrs
    requires attrs == [] || !IsWordChar(attrs[0])
    requires forall k :: 0 <= k < |inner| ==> !HasAt(inner, k, "</p>")
    ensures var html := "<p" + attrs + ">" + inner + "</p>";
      var lo := |attrs| + 3;
      ParagraphMatches(html) == [Element(0, lo, lo + |inner|, |html|)]
  {
    var html := "<p" + attrs + ">" + inner + "</p>";
    var lo := |attrs| + 3;
    var e := Element(0, lo, lo + |inner|, |html|);
    SingleParagraphElement(attrs, inner);
    ElementAtIntro(html, e, "p", true);
    assert AllElements(html, "p", true, e.end) == [];
    assert AllElements(html, "p", true, 0) == [e];
  }

  lemma SingleParagraphElement(attrs: string, inner: string)
    requires '>' !in attrs
    requires attrs == [] || !IsWordChar(attrs[0])
    requires forall k :: 0 <= k < |inner| ==> !HasAt(inner, k, "</p>")
    ensures var html := "<p" + attrs + ">" + inner + "</p>";
      var lo := |attrs| + 3;
      IsElementAt(html, Element(0, lo, lo + |inner|, |html|), "p", true)
  {
    var pre, close := "<p" + attrs + ">", "</p>";
    var html := pre + inner + close;
    var lo := |pre|;
    var hi := lo + |inner|;
    assert Open("p") == "<p" && Close("p") == close;
    assert html[0..2] == "<p";
    assert html[hi..hi + 4] == close;
    OpenTagHasOneBracket(attrs, inner + close);
    assert html == pre + (inner + close);
    NoCloseInside(pre, inner);
  }

  lemma OpenTagHasOneBracket(attrs: string, rest: string)
    requires '>' !in attrs
    ensures var s := "<p" + attrs + ">" + rest;
      forall k :: 2 <= k < |attrs| + 2 ==> s[k] != '>'
  {
    var s := "<p" + attrs + ">" + rest;
    forall k | 2 <= k < |attrs| + 2
      ensures s[k] != '>'
    {
      assert s[k] == attrs[k - 2];
    }
  }

  lemma NoCloseInside(pre: string, inner: string)
    requires forall k :: 0 <= k < |inner| ==> !HasAt(inner, k, "</p>")
    ensures forall k :: |pre| <= k < |pre| + |inner| ==> !HasAt(pre + (inner + "</p>"), k, "</p>")
  {
    var close := "</p>";
    forall k | |pre| <= k < |pre| + |inner|
      ensures !HasAt(pre + (inner + close), k, close)
    {
      HasAtShift(pre, inner + close, k - |pre|, close);
      if HasAt(inner + close, k - |pre|, close) {
        NoStraddle(inner, close, close, k - |pre|);
      }
    }
  }

  /** Text around a line break, with no other tag and no non-breaking space,
      becomes the two parts joined by a newline, trimmed. */
  lemma PlainTextAroundBreak(a: string, br: string, b: string)
    requires '<' !in a && '<' !in b && NBSP !in a && NBSP !in b
    requires BreakLength(br + b) == Some(|br|)
    ensures PlainText(a + br + b) == Trim(a + "\n" + b)
  {
    BreakBecomesNewline(a, br, b);
    NoBreaksUnchanged(b);
    var t := a + "\n" + b;
    assert '<' !in t && NBSP !in t;
    NoTagsUnchanged(t);
    assert ReplaceChar(t, NBSP, ' ') == t;
  }

  /** The spellings of a line break the pattern accepts, in any letter case,
      with optional spaces before the slash. */
  lemma BreakSpellings(b: string)
    ensures BreakLength("<br>" + b) == Some(4)
    ensures BreakLength("<br/>" + b) == Some(5)
    ensures BreakLength("<BR />" + b) == Some(6)
  {
    var s := "<BR />" + b;
    assert SkipRegexSpace(s, 4) == 4;
  }
}
