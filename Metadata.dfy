/**
 * The string side of the package metadata code: the rootfile path in
 * `META-INF/container.xml` (`findOPFURL`), and reading and writing the
 * `dc:title` and `dc:language` elements of the OPF package document
 * (`readTitle`, `writeTitle`, `writeLanguage`).
 */
module Metadata {
  import opened Wrappers
  import opened Chars
  import opened Markup

  /** The literal the rootfile pattern `full-path="(.*?)"` starts with. */
  const FullPathAttribute: string := "full-path=\""

  const TitleTag: string := "dc:title"

  const LanguageTag: string := "dc:language"

  /** What the fallback insertion looks for, case-insensitively. */
  const MetadataOpen: string := "<metadata"

  // ---------------------------------------------------------------------------
  // container.xml
  // ---------------------------------------------------------------------------

  /** The value of the first `full-path="…"` attribute, up to the next quote.
      A later attribute cannot match where the first one fails: it would
      itself supply the missing quote. */
  function RootfilePath(container: string): (r: Option<string>)
    ensures r.Some? ==> '"' !in r.value
    ensures r.None? ==> forall i: nat, k :: i + |FullPathAttribute| <= k < |container| && HasAt(container, i, FullPathAttribute)
                                       ==> container[k] != '"'
  {
    match Find(container, FullPathAttribute, 0)
    case None => None
    case Some(i) =>
      match FindChar(container, '"', i + |FullPathAttribute|)
      case None => None
      case Some(q) =>
        var v := container[i + |FullPathAttribute|..q];
        assert forall k :: 0 <= k < |v| ==> v[k] == container[i + |FullPathAttribute| + k];
        Some(v)
  }

  /** A container whose first rootfile attribute, at offset `i`, holds the
      quote-free `path` followed by a quote yields `path`. */
  lemma RootfilePathOf(c: string, i: nat, path: string)
    requires HasAt(c, i, FullPathAttribute)
    requires forall j :: 0 <= j < i ==> !HasAt(c, j, FullPathAttribute)
    requires i + |FullPathAttribute| + |path| < |c| && '"' !in path
    requires c[i + |FullPathAttribute|..i + |FullPathAttribute| + |path|] == path
    requires c[i + |FullPathAttribute| + |path|] == '"'
    ensures RootfilePath(c) == Some(path)
  {
    var v := i + |FullPathAttribute|;
    FindIs(c, FullPathAttribute, 0, i);
    ValueEndsAtQuote(c, v, path);
    RootfilePathFrom(c, i, v + |path|);
  }

  /** A quote-free value followed by a quote ends at that quote. */
  lemma ValueEndsAtQuote(c: string, v: nat, path: string)
    requires v + |path| < |c| && c[v..v + |path|] == path && c[v + |path|] == '"'
    requires '"' !in path
    ensures FindChar(c, '"', v) == Some(v + |path|)
  {
    forall k | v <= k < v + |path|
      ensures c[k] != '"'
    {
      assert c[k] == path[k - v];
    }
    FindCharIs(c, '"', v, v + |path|);
  }

  lemma RootfilePathFrom(c: string, i: nat, q: nat)
    requires i + |FullPathAttribute| <= q <= |c|
    requires Find(c, FullPathAttribute, 0) == Some(i)
    requires FindChar(c, '"', i + |FullPathAttribute|) == Some(q)
    ensures RootfilePath(c) == Some(c[i + |FullPathAttribute|..q])
  {
  }

  // ---------------------------------------------------------------------------
  // Reading the title
  // ---------------------------------------------------------------------------

  /** The trimmed inner text of the first `dc:title` element. */
  function ReadTitle(opf: string): (r: Option<string>)
    ensures r.Some? ==> IsTrimmed(r.value)
  {
    match FirstElement(opf, TitleTag, 0)
    case None => None
    case Some(e) =>
      TrimSpec(opf[e.innerLo..e.innerHi]);
      Some(Trim(opf[e.innerLo..e.innerHi]))
  }

  /** No title is read exactly when no `dc:title` element starts anywhere. */
  lemma ReadTitleNone(opf: string)
    ensures ReadTitle(opf).None? <==> forall j :: 0 <= j <= |opf| ==> ElementAt(opf, j, TitleTag, false).None?
  {
    var m := FirstElement(opf, TitleTag, 0);
    if m.None? {
      forall j | 0 <= j <= |opf|
        ensures ElementAt(opf, j, TitleTag, false).None?
      {
        FirstElementIsFirst(opf, TitleTag, 0, j);
      }
    }
  }

  // ---------------------------------------------------------------------------
  // Writing an element
  // ---------------------------------------------------------------------------

  /** The element the fallback inserts: `\n<tag>value</tag>`. */
  function NewElement(tag: string, value: string): string {
    "\n" + Open(tag) + ">" + value + Close(tag)
  }

  /** Where the fallback inserts: just after the first `>` at or after the
      first `<metadata`. */
  function InsertPoint(xml: string): (r: Option<nat>)
    ensures r.Some? ==> 0 < r.value <= |xml| && xml[r.value - 1] == '>'
  {
    match Find(xml, MetadataOpen, 0)
    case None => None
    case Some(m) =>
      match FindChar(xml, '>', m)
      case None => None
      case Some(g) => Some(g + 1)
  }

  /** The insertion point is determined by the first `<metadata` and the
      first `>` after it. */
  lemma InsertPointIs(xml: string, m: nat, g: nat)
    requires m <= g < |xml| && HasAt(xml, m, MetadataOpen) && xml[g] == '>'
    requires forall j :: 0 <= j < m ==> !HasAt(xml, j, MetadataOpen)
    requires forall k :: m <= k < g ==> xml[k] != '>'
    ensures InsertPoint(xml) == Some(g + 1)
  {
    FindIs(xml, MetadataOpen, 0, m);
    FindCharIs(xml, '>', m, g);
  }

  /** The document after writing `value` into element `tag`: the inner text of
      the first element replaced, else a new element inserted after the
      metadata open tag, else the document unchanged. */
  function Patched(xml: string, tag: string, value: string): string {
    match FirstElement(xml, tag, 0)
    case Some(e) => xml[..e.innerLo] + value + xml[e.innerHi..]
    case None =>
      match InsertPoint(xml)
      case Some(g) => xml[..g] + NewElement(tag, value) + xml[g..]
      case None => xml
  }

  /** `writeTitle` and `writeLanguage` on the document text: the whole first
      match is replaced by its open tag, the new value and its close tag, or
      the new element is inserted. */
  method WriteElement(xml: string, tag: string, value: string) returns (out: string)
    ensures out == Patched(xml, tag, value)
  {
    out := xml;
    var m := FirstElement(xml, tag, 0);
    if m.Some? {
      var e := m.value;
      var prefix := xml[e.start..e.innerLo];
      var suffix := xml[e.innerHi..e.end];
      out := out[..e.start] + (prefix + value + suffix) + out[e.end..];
      ReplaceWholeMatch(xml, e, value);
    } else {
      var meta := Find(xml, MetadataOpen, 0);
      if meta.Some? {
        var close := FindChar(xml, '>', meta.value);
        if close.Some? {
          var at := close.value + 1;
          out := out[..at] + NewElement(tag, value) + out[at..];
        }
      }
    }
  }

  /** Replacing a whole match by its open tag, a value and its close tag is
      replacing its inner text by the value. */
  lemma ReplaceWholeMatch(xml: string, e: Element, value: string)
    requires e.start <= e.innerLo <= e.innerHi <= e.end <= |xml|
    ensures xml[..e.start] + (xml[e.start..e.innerLo] + value + xml[e.innerHi..e.end]) + xml[e.end..]
         == xml[..e.innerLo] + value + xml[e.innerHi..]
  {
    assert xml[..e.start] + xml[e.start..e.innerLo] == xml[..e.innerLo];
    assert xml[e.innerHi..e.end] + xml[e.end..] == xml[e.innerHi..];
  }

  method WriteTitle(xml: string, title: string) returns (out: string)
    ensures out == Patched(xml, TitleTag, title)
  {
    out := WriteElement(xml, TitleTag, title);
  }

  method WriteLanguage(xml: string, language: string) returns (out: string)
    ensures out == Patched(xml, LanguageTag, language)
  {
    out := WriteElement(xml, LanguageTag, language);
  }

  // ---------------------------------------------------------------------------
  // What writing promises
  // ---------------------------------------------------------------------------

  /** When a text starts with a `tag` element, an earlier offset where no
      element starts does not hold the open tag's name either: the element's
      own `>` and close tag would complete a match there. */
  lemma NoOpenBefore(xml: string, tag: string, e: Element, j: nat)
    requires IsElementAt(xml, e, tag, false) && j < e.start
    requires ElementAt(xml, j, tag, false).None?
    ensures !HasAt(xml, j, Open(tag))
  {
    var o := j + |tag| + 1;
    assert o <= e.innerLo - 1 && xml[e.innerLo - 1] == '>';
    var g := FindChar(xml, '>', o);
    if g.Some? {
      assert g.value + 1 <= e.innerHi && HasAt(xml, e.innerHi, Close(tag));
    }
  }

  /** The replaced element, with its new inner text. */
  function Rewritten(e: Element, tag: string, value: string): Element {
    Element(e.start, e.innerLo, e.innerLo + |value|, e.innerLo + |value| + |tag| + 3)
  }

  /** Two texts agreeing on their first `n` characters agree on every match
      that ends within them. */
  lemma HasAtInPrefix(a: string, b: string, n: nat, i: nat, pat: string)
    requires n <= |a| && n <= |b| && a[..n] == b[..n] && i + |pat| <= n
    ensures HasAt(a, i, pat) <==> HasAt(b, i, pat)
  {
    assert a[i..i + |pat|] == a[..n][i..i + |pat|];
    assert b[i..i + |pat|] == b[..n][i..i + |pat|];
  }

  /** A pattern starting with `<` does not match where the text holds no `<`. */
  lemma NoMatchAtPlain(s: string, i: nat, pat: string)
    requires |pat| > 0 && pat[0] == '<' && i < |s| && s[i] != '<'
    ensures !HasAt(s, i, pat)
  {
    if i + |pat| <= |s| {
      assert s[i..i + |pat|][0] == s[i];
    }
  }

  /** After replacing the inner text, the rewritten element satisfies the
      pattern at its start. */
  lemma RewrittenIsElement(xml: string, tag: string, value: string, e: Element)
    requires IsElementAt(xml, e, tag, false) && '<' !in value
    ensures IsElementAt(xml[..e.innerLo] + value + xml[e.innerHi..], Rewritten(e, tag, value), tag, false)
  {
    var out := xml[..e.innerLo] + value + xml[e.innerHi..];
    var e2 := Rewritten(e, tag, value);
    assert out[..e.innerLo] == xml[..e.innerLo];
    HasAtInPrefix(out, xml, e.innerLo, e.start, Open(tag));
    forall k | 0 <= k < e.innerLo
      ensures out[k] == xml[k]
    {
      assert out[k] == out[..e.innerLo][k];
    }
    assert out[e2.innerHi..] == xml[e.innerHi..];
    assert out[e2.innerHi..e2.innerHi + |Close(tag)|] == xml[e.innerHi..e.innerHi + |Close(tag)|];
    forall k | e2.innerLo <= k < e2.innerHi
      ensures !HasAt(out, k, Close(tag))
    {
      assert out[k] == value[k - e.innerLo];
      NoMatchAtPlain(out, k, Close(tag));
    }
  }

  /** Replacing the inner text of the first element leaves it the first
      element, now holding exactly the new value between the original open
      and close tags, with everything before the value and everything after
      it as it was. */
  lemma PatchedReplacesFirst(xml: string, tag: string, value: string)
    requires FirstElement(xml, tag, 0).Some? && '<' !in value
    ensures var e := FirstElement(xml, tag, 0).value;
      var out := Patched(xml, tag, value);
      && FirstElement(out, tag, 0) == Some(Rewritten(e, tag, value))
      && out[..e.innerLo] == xml[..e.innerLo]
      && out[e.innerLo..e.innerLo + |value|] == value
      && out[e.innerLo + |value|..] == xml[e.innerHi..]
  {
    var e := FirstElement(xml, tag, 0).value;
    var out := xml[..e.innerLo] + value + xml[e.innerHi..];
    ElementAtSound(xml, e.start, tag, false, e);
    RewrittenIsElement(xml, tag, value, e);
    assert out[..e.innerLo] == xml[..e.innerLo];
    forall j | 0 <= j < e.start
      ensures ElementAt(out, j, tag, false).None?
    {
      FirstElementIsFirst(xml, tag, 0, j);
      NoOpenBefore(xml, tag, e, j);
      HasAtInPrefix(out, xml, e.innerLo, j, Open(tag));
    }
    FirstElementIs(out, tag, 0, Rewritten(e, tag, value));
    assert out[e.innerLo..e.innerLo + |value|] == value;
  }

  /** Reading the title back after writing one into an existing title
      element gives the written title, trimmed. */
  lemma ReadTitleAfterWrite(xml: string, title: string)
    requires ReadTitle(xml).Some? && '<' !in title
    ensures ReadTitle(Patched(xml, TitleTag, title)) == Some(Trim(title))
  {
    PatchedReplacesFirst(xml, TitleTag, title);
  }

  /** Writing the same value twice is the same as writing it once. */
  lemma PatchedIdempotent(xml: string, tag: string, value: string)
    requires FirstElement(xml, tag, 0).Some? && '<' !in value
    ensures Patched(Patched(xml, tag, value), tag, value) == Patched(xml, tag, value)
  {
    var e := FirstElement(xml, tag, 0).value;
    var out := Patched(xml, tag, value);
    PatchedReplacesFirst(xml, tag, value);
    var e2 := Rewritten(e, tag, value);
    assert out[..e2.innerLo] + value + out[e2.innerHi..] == out;
  }

  /** With no element to replace, exactly one new element is inserted right
      after the metadata open tag's `>`, and it is a match of the pattern
      holding the new value. */
  lemma PatchedInserts(xml: string, tag: string, value: string)
    requires FirstElement(xml, tag, 0).None? && InsertPoint(xml).Some?
    requires '<' !in value
    ensures Patched(xml, tag, value) == Inserted(xml, InsertPoint(xml).value, tag, value)
    ensures ElementAt(Patched(xml, tag, value), InsertPoint(xml).value + 1, tag, false)
         == Some(InsertedMatch(InsertPoint(xml).value, tag, value))
  {
    PatchedAtInsertPoint(xml, tag, value);
    InsertedElement(xml, InsertPoint(xml).value, tag, value);
  }

  /** `xml` with the new element inserted at `g`. */
  function Inserted(xml: string, g: nat, tag: string, value: string): string
    requires g <= |xml|
  {
    xml[..g] + NewElement(tag, value) + xml[g..]
  }

  /** The match the inserted element forms, after its leading newline. */
  function InsertedMatch(g: nat, tag: string, value: string): Element {
    var lo := g + |tag| + 3;
    Element(g + 1, lo, lo + |value|, lo + |value| + |tag| + 3)
  }

  lemma PatchedAtInsertPoint(xml: string, tag: string, value: string)
    requires FirstElement(xml, tag, 0).None? && InsertPoint(xml).Some?
    ensures Patched(xml, tag, value) == Inserted(xml, InsertPoint(xml).value, tag, value)
  {
  }

  /** The inserted element is a match of the pattern at its `<`. */
  lemma InsertedElement(xml: string, g: nat, tag: string, value: string)
    requires g <= |xml| && '<' !in value
    ensures ElementAt(Inserted(xml, g, tag, value), g + 1, tag, false) == Some(InsertedMatch(g, tag, value))
  {
    var out := Inserted(xml, g, tag, value);
    var e := InsertedMatch(g, tag, value);
    InsertedIsElement(xml, g, tag, value, out, e);
    ElementAtIntro(out, e, tag, false);
  }

  lemma InsertedIsElement(xml: string, g: nat, tag: string, value: string, out: string, e: Element)
    requires g <= |xml| && '<' !in value
    requires out == xml[..g] + NewElement(tag, value) + xml[g..] && e == InsertedMatch(g, tag, value)
    ensures IsElementAt(out, e, tag, false)
  {
    var lo := g + |tag| + 3;
    assert out[g + 1..g + 1 + |Open(tag)|] == Open(tag);
    assert out[lo - 1] == '>';
    assert out[lo + |value|..lo + |value| + |Close(tag)|] == Close(tag);
    forall k | lo <= k < lo + |value|
      ensures !HasAt(out, k, Close(tag))
    {
      assert out[k] == value[k - lo];
      NoMatchAtPlain(out, k, Close(tag));
    }
  }

  /** A document with neither an element to replace nor a `<metadata` tag is
      left as it was. */
  lemma PatchedWithoutMetadata(xml: string, tag: string, value: string)
    requires forall j :: 0 <= j <= |xml| ==> ElementAt(xml, j, tag, false).None?
    requires forall j :: 0 <= j <= |xml| ==> !HasAt(xml, j, MetadataOpen)
    ensures Patched(xml, tag, value) == xml
  {
  }
}
