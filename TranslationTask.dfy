/**
 * The translation task: it drains the prepared queue through the translator,
 * recording each result at its queue index and keeping a running mean of
 * the seconds per item; once every item is translated it re-extracts the
 * paragraphs of every content document, puts the recorded results back by a
 * running cursor, and patches the package document's title and language.
 */
module TranslationTask {
  import opened Wrappers
  import opened Chars
  import opened Extraction
  import opened Reinjection
  import opened Metadata
  import opened Preparation

  // ---------------------------------------------------------------------------
  // Recorded results
  // ---------------------------------------------------------------------------

  /** What is stored for the text queued at `k`: its translation, or the
      text itself when the translator fails. */
  function Outcome(translate: (nat, string) -> Option<string>, k: nat, source: string): string {
    var translation := translate(k, source);
    if translation.Some? then translation.value else source
  }

  /** The results after translating `texts`, the first of them at index `from`. */
  function Recorded(results: map<nat, string>, from: nat, texts: seq<string>, translate: (nat, string) -> Option<string>): map<nat, string>
    decreases |texts|
  {
    if texts == [] then results
    else
      var k := from + |texts| - 1;
      var text := texts[|texts| - 1];
      Recorded(results, from, texts[..|texts| - 1], translate)[k := Outcome(translate, k, text)]
  }

  /** Every consumed index holds the translation of the text queued there or,
      when translating failed, that text; every other entry is kept. */
  lemma {:induction false} RecordedAt(results: map<nat, string>, from: nat, texts: seq<string>, translate: (nat, string) -> Option<string>, i: nat)
    ensures i in Recorded(results, from, texts, translate) <==> i in results || from <= i < from + |texts|
    ensures from <= i < from + |texts| ==>
      Recorded(results, from, texts, translate)[i] == Outcome(translate, i, texts[i - from])
    ensures i in results && !(from <= i < from + |texts|) ==>
      Recorded(results, from, texts, translate)[i] == results[i]
    decreases |texts|
  {
    if texts != [] {
      var prefix := texts[..|texts| - 1];
      RecordedAt(results, from, prefix, translate, i);
      if from <= i < from + |prefix| {
        assert prefix[i - from] == texts[i - from];
      }
    }
  }

  lemma RecordedStep(results: map<nat, string>, from: nat, texts: seq<string>, translate: (nat, string) -> Option<string>, k: nat)
    requires k < |texts|
    ensures Recorded(results, from, texts[..k + 1], translate)
         == Recorded(results, from, texts[..k], translate)[from + k := Outcome(translate, from + k, texts[k])]
  {
    assert texts[..k + 1][..k] == texts[..k];
  }

  // ---------------------------------------------------------------------------
  // Running mean of the seconds per item
  // ---------------------------------------------------------------------------

  /** Seconds spent on the first `n` items. */
  function Sum(elapsed: nat -> real, n: nat): real
    decreases n
  {
    if n == 0 then 0.0 else Sum(elapsed, n - 1) + elapsed(n - 1)
  }

  /** Mean seconds per item over the first `n` items. */
  function Mean(elapsed: nat -> real, n: nat): real
    requires n > 0
  {
    Sum(elapsed, n) / n as real
  }

  /** The running-average update after the `n + 1`-th item took `dt` seconds. */
  function MeanUpdate(average: real, n: nat, dt: real): real {
    (average * n as real + dt) / (n as real + 1.0)
  }

  /** `average` is the mean of the first `n` items, stated without division. */
  ghost predicate AveragesTo(average: real, elapsed: nat -> real, n: nat) {
    average * n as real == Sum(elapsed, n)
  }

  /** For at least one item, that is the mean. */
  lemma AveragesToMean(average: real, elapsed: nat -> real, n: nat)
    requires n > 0
    ensures AveragesTo(average, elapsed, n) <==> average == Mean(elapsed, n)
  {
    var m := n as real;
    assert Mean(elapsed, n) * m == Sum(elapsed, n);
    if AveragesTo(average, elapsed, n) {
      assert average * m == Mean(elapsed, n) * m;
    }
  }

  /** The first item's time is the mean of one item. */
  lemma MeanFirst(elapsed: nat -> real)
    ensures AveragesTo(elapsed(0), elapsed, 1)
  {
    assert Sum(elapsed, 1) == elapsed(0);
  }

  /** The update turns the mean of `n` items into the mean of `n + 1`. */
  lemma MeanStep(average: real, elapsed: nat -> real, n: nat)
    requires n > 0 && AveragesTo(average, elapsed, n)
    ensures AveragesTo(MeanUpdate(average, n, elapsed(n)), elapsed, n + 1)
  {
    var m := n as real;
    assert (n + 1) as real == m + 1.0;
    assert Sum(elapsed, n + 1) == average * m + elapsed(n);
    assert MeanUpdate(average, n, elapsed(n)) * (m + 1.0) == average * m + elapsed(n);
  }

  lemma {:induction false} SumBetween(elapsed: nat -> real, n: nat, lo: real, hi: real)
    requires forall i :: 0 <= i < n ==> lo <= elapsed(i) <= hi
    ensures n as real * lo <= Sum(elapsed, n) <= n as real * hi
    decreases n
  {
    if n > 0 {
      SumBetween(elapsed, n - 1, lo, hi);
      assert n as real * lo == (n - 1) as real * lo + lo;
      assert n as real * hi == (n - 1) as real * hi + hi;
    }
  }

  /** The mean lies between the fastest and the slowest item. */
  lemma MeanBetween(elapsed: nat -> real, n: nat, lo: real, hi: real)
    requires n > 0
    requires forall i :: 0 <= i < n ==> lo <= elapsed(i) <= hi
    ensures lo <= Mean(elapsed, n) <= hi
  {
    SumBetween(elapsed, n, lo, hi);
    var m := n as real;
    assert Mean(elapsed, n) * m == Sum(elapsed, n);
  }

  // ---------------------------------------------------------------------------
  // Putting the results back
  // ---------------------------------------------------------------------------

  /** The replacements for one document's units when its first unit reads
      the result at index `base`: units without a result are left alone. */
  function Replacements(ps: seq<Paragraph>, results: map<nat, string>, base: nat): map<Span, string>
    decreases |ps|
  {
    if ps == [] then map[]
    else
      var prev := Replacements(ps[..|ps| - 1], results, base);
      var k := base + |ps| - 1;
      if k in results then prev[ps[|ps| - 1].span := results[k]] else prev
  }

  lemma ReplacementsStep(ps: seq<Paragraph>, results: map<nat, string>, base: nat, j: nat)
    requires j < |ps|
    ensures Replacements(ps[..j + 1], results, base)
         == if base + j in results then Replacements(ps[..j], results, base)[ps[j].span := results[base + j]]
            else Replacements(ps[..j], results, base)
  {
    assert ps[..j + 1][..j] == ps[..j];
  }

  /** Only the spans of the document's own units are replaced. */
  lemma {:induction false} ReplacementsKeys(ps: seq<Paragraph>, results: map<nat, string>, base: nat, s: Span)
    requires s in Replacements(ps, results, base)
    ensures exists k :: 0 <= k < |ps| && ps[k].span == s
    decreases |ps|
  {
    var prefix := ps[..|ps| - 1];
    if s != ps[|ps| - 1].span {
      ReplacementsKeys(prefix, results, base, s);
      var k :| 0 <= k < |prefix| && prefix[k].span == s;
      assert ps[k] == prefix[k];
    }
  }

  /** Unit `k` is replaced exactly when index `base + k` has a result, and
      then by that result. */
  lemma {:induction false} ReplacementsAt(ps: seq<Paragraph>, results: map<nat, string>, base: nat, n: nat, k: nat)
    requires OrderedSpans(ps, n) && k < |ps|
    ensures ps[k].span in Replacements(ps, results, base) <==> base + k in results
    ensures base + k in results ==> Replacements(ps, results, base)[ps[k].span] == results[base + k]
    decreases |ps|
  {
    var prefix := ps[..|ps| - 1];
    var last := ps[|ps| - 1];
    var prev := Replacements(prefix, results, base);
    assert OrderedSpans(prefix, n);
    if k < |prefix| {
      assert prefix[k] == ps[k];
      ReplacementsAt(prefix, results, base, n, k);
      OrderedSpansDisjoint(ps, n, k, |ps| - 1);
    } else if last.span in prev {
      ReplacementsKeys(prefix, results, base, last.span);
      var j :| 0 <= j < |prefix| && prefix[j].span == last.span;
      assert ps[j] == prefix[j];
      OrderedSpansDisjoint(ps, n, j, |ps| - 1);
    }
  }

  /** The replacements of a document's own units fit it. */
  lemma ReplacementsFit(ps: seq<Paragraph>, results: map<nat, string>, base: nat, n: nat)
    requires OrderedSpans(ps, n)
    ensures SpansFit(Replacements(ps, results, base).Keys, n)
  {
    var keys := Replacements(ps, results, base).Keys;
    forall s | s in keys
      ensures s.lo < s.hi <= n
    {
      ReplacementsKeys(ps, results, base, s);
    }
    forall s, t | s in keys && t in keys && s != t
      ensures s.hi <= t.lo || t.hi <= s.lo
    {
      ReplacementsKeys(ps, results, base, s);
      ReplacementsKeys(ps, results, base, t);
      var a :| 0 <= a < |ps| && ps[a].span == s;
      var b :| 0 <= b < |ps| && ps[b].span == t;
      if a < b {
        OrderedSpansDisjoint(ps, n, a, b);
      } else if b < a {
        OrderedSpansDisjoint(ps, n, b, a);
      }
    }
  }

  /** The unit recorded at `base + j` of a drained queue is what unit `j`
      is replaced with. */
  lemma LookupAt(queue: seq<string>, translate: (nat, string) -> Option<string>, ps: seq<Paragraph>, n: nat, base: nat, j: nat)
    requires OrderedSpans(ps, n) && j < |ps| && base + j < |queue|
    ensures var results := Recorded(map[], 0, queue, translate);
      && ps[j].span in Replacements(ps, results, base)
      && Replacements(ps, results, base)[ps[j].span] == Outcome(translate, base + j, queue[base + j])
  {
    var results := Recorded(map[], 0, queue, translate);
    RecordedAt(map[], 0, queue, translate, base + j);
    ReplacementsAt(ps, results, base, n, j);
  }

  /** The rewritten text of one document, or none when it cannot be read
      again, its first unit reading the result at index `base`. */
  ghost function Document(f: ContentFile, extract: string -> seq<Paragraph>, results: map<nat, string>, base: nat): Option<string>
    requires f.Decoded? ==> OrderedSpans(extract(f.html), |f.html|)
  {
    if f.Decoded? then
      var ps := extract(f.html);
      ReplacementsFit(ps, results, base, |f.html|);
      Some(Spliced(f.html, Replacements(ps, results, base)))
    else None
  }

  /** Number of units the extractor finds in the documents that decode. */
  function Extracted(files: seq<ContentFile>, extract: string -> seq<Paragraph>): nat
    decreases |files|
  {
    if files == [] then 0
    else
      var last := files[|files| - 1];
      Extracted(files[..|files| - 1], extract) + if last.Decoded? then |extract(last.html)| else 0
  }

  lemma ExtractedStep(files: seq<ContentFile>, extract: string -> seq<Paragraph>, i: nat)
    requires i < |files|
    ensures Extracted(files[..i + 1], extract) == Extracted(files[..i], extract) + if files[i].Decoded? then |extract(files[i].html)| else 0
  {
    assert files[..i + 1][..i] == files[..i];
  }

  /** The second pass counts the same units as the first. */
  lemma {:induction false} ExtractedIsCount(files: seq<ContentFile>, extract: string -> seq<Paragraph>)
    ensures Extracted(files, extract) == Count(files, extract)
    decreases |files|
  {
    if files != [] {
      var n := |files| - 1;
      ExtractedIsCount(files[..n], extract);
      ExtractedStep(files, extract, n);
      CountStep(files, extract, n);
      assert files[..n + 1] == files;
    }
  }

  /** Document rewriting as a function of the document and the index its
      first unit reads. */
  ghost function DocumentOf(extract: string -> seq<Paragraph>, results: map<nat, string>): (ContentFile, nat) -> Option<string>
    requires Orders(extract)
  {
    (f: ContentFile, base: nat) => Document(f, extract, results, base)
  }

  /** The rewritten documents when the cursor starts at `start` and advances
      by one per re-extracted unit. */
  ghost function ReinjectedWith(files: seq<ContentFile>, extract: string -> seq<Paragraph>, rewrite: (ContentFile, nat) -> Option<string>, start: nat): (r: seq<Option<string>>)
    ensures |r| == |files|
    decreases |files|
  {
    if files == [] then []
    else
      var prefix := files[..|files| - 1];
      ReinjectedWith(prefix, extract, rewrite, start) + [rewrite(files[|files| - 1], start + Extracted(prefix, extract))]
  }

  lemma ReinjectedStep(files: seq<ContentFile>, extract: string -> seq<Paragraph>, rewrite: (ContentFile, nat) -> Option<string>, start: nat, i: nat)
    requires i < |files|
    ensures ReinjectedWith(files[..i + 1], extract, rewrite, start)
         == ReinjectedWith(files[..i], extract, rewrite, start) + [rewrite(files[i], start + Extracted(files[..i], extract))]
  {
    assert files[..i + 1][..i] == files[..i];
  }

  /** Document `i` reads its first result at `start` plus the number of units
      of the documents before it. */
  lemma {:induction false} ReinjectedAt(files: seq<ContentFile>, extract: string -> seq<Paragraph>, rewrite: (ContentFile, nat) -> Option<string>, start: nat, i: nat)
    requires i < |files|
    ensures ReinjectedWith(files, extract, rewrite, start)[i] == rewrite(files[i], start + Extracted(files[..i], extract))
    decreases |files|
  {
    var prefix := files[..|files| - 1];
    if i < |prefix| {
      assert prefix[..i] == files[..i] && prefix[i] == files[i];
      ReinjectedAt(prefix, extract, rewrite, start, i);
    } else {
      assert files[..i] == prefix;
    }
  }

  /** What the second pass over the content documents produces. */
  ghost function Reinjected(files: seq<ContentFile>, wideMatch: bool, results: map<nat, string>, start: nat): seq<Option<string>> {
    ExtractorOrders(wideMatch);
    ReinjectedWith(files, ExtractorOf(wideMatch), DocumentOf(ExtractorOf(wideMatch), results), start)
  }

  /** The replacements for one re-extracted document, read by the cursor. */
  method CollectReplacements(paragraphs: seq<Paragraph>, results: map<nat, string>, start: nat) returns (replacements: map<Span, string>, resultIndex: nat)
    ensures replacements == Replacements(paragraphs, results, start)
    ensures resultIndex == start + |paragraphs|
  {
    replacements := map[];
    resultIndex := start;
    var j := 0;
    while j < |paragraphs|
      invariant 0 <= j <= |paragraphs|
      invariant resultIndex == start + j
      invariant replacements == Replacements(paragraphs[..j], results, start)
    {
      ReplacementsStep(paragraphs, results, start, j);
      if resultIndex in results {
        replacements := replacements[paragraphs[j].span := results[resultIndex]];
      }
      resultIndex := resultIndex + 1;
      j := j + 1;
    }
    assert paragraphs[..j] == paragraphs;
  }

  /** Rewrites one decoded document whose first unit reads the result at `base`. */
  method RewriteDocument(file: ContentFile, wideMatch: bool, results: map<nat, string>, base: nat) returns (newHtml: string, cursor: nat)
    requires file.Decoded?
    ensures Orders(ExtractorOf(wideMatch))
    ensures Some(newHtml) == DocumentOf(ExtractorOf(wideMatch), results)(file, base)
    ensures cursor == base + |ExtractorOf(wideMatch)(file.html)|
  {
    ExtractorOrders(wideMatch);
    var html := file.html;
    var paragraphs := ExtractParagraphs(html, wideMatch);
    assert paragraphs == ExtractorOf(wideMatch)(html);
    var replacements;
    replacements, cursor := CollectReplacements(paragraphs, results, base);
    ReplacementsFit(paragraphs, results, base, |html|);
    newHtml := ReplaceParagraphs(html, replacements);
    assert Some(newHtml) == Document(file, ExtractorOf(wideMatch), results, base);
  }

  /** One document of the second pass: a document that cannot be read again
      is skipped without moving the cursor. */
  method RewriteNext(file: ContentFile, wideMatch: bool, results: map<nat, string>, cursor: nat) returns (document: Option<string>, next: nat)
    ensures Orders(ExtractorOf(wideMatch))
    ensures document == DocumentOf(ExtractorOf(wideMatch), results)(file, cursor)
    ensures next == cursor + if file.Decoded? then |ExtractorOf(wideMatch)(file.html)| else 0
  {
    ExtractorOrders(wideMatch);
    document, next := None, cursor;
    if file.Decoded? {
      var newHtml;
      newHtml, next := RewriteDocument(file, wideMatch, results, cursor);
      document := Some(newHtml);
    }
  }

  /** One pass of the document loop keeps the cursor and the documents in step. */
  lemma ReinjectStep(files: seq<ContentFile>, extract: string -> seq<Paragraph>, rewrite: (ContentFile, nat) -> Option<string>,
                     start: nat, i: nat, cursor: nat, documents: seq<Option<string>>, document: Option<string>, next: nat)
    requires i < |files|
    requires cursor == start + Extracted(files[..i], extract)
    requires documents == ReinjectedWith(files[..i], extract, rewrite, start)
    requires document == rewrite(files[i], cursor)
    requires next == cursor + if files[i].Decoded? then |extract(files[i].html)| else 0
    ensures next == start + Extracted(files[..i + 1], extract)
    ensures documents + [document] == ReinjectedWith(files[..i + 1], extract, rewrite, start)
  {
    ReinjectedStep(files, extract, rewrite, start, i);
    ExtractedStep(files, extract, i);
  }

  /** The second pass over the content documents: each readable one is
      re-extracted and rewritten, the cursor advancing by one per unit. */
  method ReinjectFiles(files: seq<ContentFile>, wideMatch: bool, results: map<nat, string>, start: nat) returns (documents: seq<Option<string>>, cursor: nat)
    ensures cursor == start + Count(files, ExtractorOf(wideMatch))
    ensures documents == Reinjected(files, wideMatch, results, start)
  {
    ExtractorOrders(wideMatch);
    ghost var extract := ExtractorOf(wideMatch);
    ghost var rewrite := DocumentOf(extract, results);
    documents := [];
    cursor := start;
    var i := 0;
    while i < |files|
      invariant 0 <= i <= |files|
      invariant cursor == start + Extracted(files[..i], extract)
      invariant documents == ReinjectedWith(files[..i], extract, rewrite, start)
    {
      var document, next := RewriteNext(files[i], wideMatch, results, cursor);
      ReinjectStep(files, extract, rewrite, start, i, cursor, documents, document, next);
      documents := documents + [document];
      cursor := next;
      i := i + 1;
    }
    assert files[..|files|] == files;
    ExtractedIsCount(files, extract);
  }

  /** With the cursor started after the title, every unit of every document
      is replaced by the result recorded for its own queued text. */
  lemma ParagraphGetsOwnTranslation(title: Option<string>, files: seq<ContentFile>, extract: string -> seq<Paragraph>, p: Prepared,
                                    translate: (nat, string) -> Option<string>, results: map<nat, string>,
                                    i: nat, ps: seq<Paragraph>, j: nat, base: nat)
    requires Prepare(title, files, extract) == Success(p)
    requires results == Recorded(map[], 0, p.queue, translate)
    requires i < |files| && files[i].Decoded? && ps == FileParagraphs(files[i], extract) && j < |ps|
    requires OrderedSpans(ps, |files[i].html|)
    requires base == FirstParagraphIndex(p.titleIndex) + Count(files[..i], extract)
    ensures base + j < |p.queue| && p.queue[base + j] == RemoveChar(ps[j].text, '\n')
    ensures ps[j].span in Replacements(ps, results, base)
    ensures Replacements(ps, results, base)[ps[j].span] == Outcome(translate, base + j, p.queue[base + j])
  {
    QueuedAt(title, files, extract, i, j);
    LookupAt(p.queue, translate, ps, |files[i].html|, base, j);
  }

  /** With the cursor started at 0 while the title sits at index 0, as the
      task does, unit `j` of document `i` is replaced by the result recorded
      for the queued text just before its own: the first unit receives the
      translated title, and the last queued result is never used. */
  lemma ParagraphGetsPrecedingTranslation(title: Option<string>, files: seq<ContentFile>, extract: string -> seq<Paragraph>, p: Prepared,
                                          translate: (nat, string) -> Option<string>, results: map<nat, string>,
                                          i: nat, ps: seq<Paragraph>, j: nat, base: nat)
    requires Prepare(title, files, extract) == Success(p) && p.titleIndex.Some?
    requires results == Recorded(map[], 0, p.queue, translate)
    requires i < |files| && files[i].Decoded? && ps == FileParagraphs(files[i], extract) && j < |ps|
    requires OrderedSpans(ps, |files[i].html|)
    requires base == Count(files[..i], extract)
    ensures base + j + 1 < |p.queue| && p.queue[base + j + 1] == RemoveChar(ps[j].text, '\n')
    ensures ps[j].span in Replacements(ps, results, base)
    ensures Replacements(ps, results, base)[ps[j].span] == Outcome(translate, base + j, p.queue[base + j])
  {
    QueuedAt(title, files, extract, i, j);
    assert FirstParagraphIndex(p.titleIndex) == 1;
    assert base + j + 1 < |p.queue|;
    LookupAt(p.queue, translate, ps, |files[i].html|, base, j);
  }

  /** `<p>inner</p>` holds exactly one unit, spanning all of it. */
  lemma OneParagraphExtracted(inner: string)
    requires forall k :: 0 <= k < |inner| ==> !HasAt(inner, k, "</p>")
    ensures var html := "<p>" + inner + "</p>";
      ExtractorOf(false)(html) == [Paragraph(Span(0, |html|), PlainText(inner))]
  {
    var html := "<p>" + inner + "</p>";
    assert "<p" + "" + ">" + inner + "</p>" == html;
    SingleParagraph("", inner, false);
  }

  /** A single unit is replaced by the result its index reads. */
  lemma OneReplacement(ps: seq<Paragraph>, results: map<nat, string>, base: nat)
    requires |ps| == 1 && base in results
    ensures Replacements(ps, results, base) == map[ps[0].span := results[base]]
  {
    assert ps[..0] == [];
  }

  /** Rewriting the whole of `<p>inner</p>` as one span gives `<p>t</p>`. */
  lemma WholeSpliced(inner: string, t: string)
    ensures var html := "<p>" + inner + "</p>";
      && SpansFit(map[Span(0, |html|) := t].Keys, |html|)
      && Spliced(html, map[Span(0, |html|) := t]) == "<p>" + t + "</p>"
  {
    SplicedWhole("<p>" + inner + "</p>", t);
    RebuildBare(inner, t);
  }

  /** A document made of one paragraph `<p>inner</p>` whose unit reads the
      result at `base`: the paragraph gets that result, its tags unchanged. */
  lemma OneParagraphDocument(inner: string, results: map<nat, string>, base: nat)
    requires forall k :: 0 <= k < |inner| ==> !HasAt(inner, k, "</p>")
    requires base in results
    ensures var html := "<p>" + inner + "</p>";
      && OrderedSpans(ExtractorOf(false)(html), |html|)
      && Document(Decoded(html), ExtractorOf(false), results, base) == Some("<p>" + results[base] + "</p>")
  {
    var html := "<p>" + inner + "</p>";
    var ps := ExtractorOf(false)(html);
    OneParagraphExtracted(inner);
    ParagraphsOrdered(html, false);
    OneReplacement(ps, results, base);
    WholeSpliced(inner, results[base]);
  }

  /** A book whose title was translated to `t0` and whose one content
      document holds one paragraph, translated to `t1`: started at 0 the
      cursor writes the title's translation into the paragraph; started
      after the title it writes the paragraph's own. */
  lemma CursorFromZeroCounterexample(inner: string, t0: string, t1: string)
    requires forall k :: 0 <= k < |inner| ==> !HasAt(inner, k, "</p>")
    ensures var files := [Decoded("<p>" + inner + "</p>")];
      && Reinjected(files, false, map[0 := t0, 1 := t1], 0) == [Some("<p>" + t0 + "</p>")]
      && Reinjected(files, false, map[0 := t0, 1 := t1], FirstParagraphIndex(Some(0))) == [Some("<p>" + t1 + "</p>")]
  {
    var files := [Decoded("<p>" + inner + "</p>")];
    var results := map[0 := t0, 1 := t1];
    ExtractorOrders(false);
    var rewrite := DocumentOf(ExtractorOf(false), results);
    assert files[..0] == [];
    ReinjectedAt(files, ExtractorOf(false), rewrite, 0, 0);
    ReinjectedAt(files, ExtractorOf(false), rewrite, 1, 0);
    OneParagraphDocument(inner, results, 0);
    OneParagraphDocument(inner, results, 1);
  }

  // ---------------------------------------------------------------------------
  // Title and language
  // ---------------------------------------------------------------------------

  /** The package document after the task: when the title was queued and
      translated, the translation is written as the title and then, when a
      target language identifier is known, that identifier as the language. */
  function PatchedPackage(opf: Option<string>, titleIndex: Option<nat>, results: map<nat, string>, language: Option<string>): Option<string> {
    if titleIndex.Some? && opf.Some? && titleIndex.value in results then
      var titled := Patched(opf.value, TitleTag, results[titleIndex.value]);
      Some(if language.Some? then Patched(titled, LanguageTag, language.value) else titled)
    else opf
  }

  method PatchMetadata(opf: Option<string>, titleIndex: Option<nat>, results: map<nat, string>, language: Option<string>) returns (out: Option<string>)
    ensures out == PatchedPackage(opf, titleIndex, results, language)
  {
    out := opf;
    if titleIndex.Some? && opf.Some? && titleIndex.value in results {
      var xml := WriteTitle(opf.value, results[titleIndex.value]);
      if language.Some? {
        xml := WriteLanguage(xml, language.value);
      }
      out := Some(xml);
    }
  }

  /** The translated title reads back as the book's title. */
  lemma TranslatedTitleReadsBack(opf: string, titleIndex: nat, results: map<nat, string>)
    requires titleIndex in results && '<' !in results[titleIndex]
    requires ReadTitle(opf).Some?
    ensures PatchedPackage(Some(opf), Some(titleIndex), results, None).Some?
    ensures ReadTitle(PatchedPackage(Some(opf), Some(titleIndex), results, None).value) == Some(Trim(results[titleIndex]))
  {
    ReadTitleAfterWrite(opf, results[titleIndex]);
  }

  // ---------------------------------------------------------------------------
  // The task
  // ---------------------------------------------------------------------------

  /** What the task exports: the rewritten content documents (none for one
      that could not be read again) and the package document. */
  datatype Export = Export(documents: seq<Option<string>>, opf: Option<string>)

  class Session {
    var queue: seq<string>
    var results: map<nat, string>
    var translatedCount: nat
    var totalParagraphs: nat
    var averageSecondsPerItem: real
    var titleQueueIndex: Option<nat>
    /** The translator: the result for the text at a queue index, none when it fails. */
    const translate: (nat, string) -> Option<string>
    /** Seconds spent on the item at a queue index. */
    const elapsed: nat -> real

    /** Once an item is done, the average is the mean time of the items done
        (`AveragesToMean`). */
    ghost predicate Valid()
      reads this
    {
      translatedCount > 0 ==> AveragesTo(averageSecondsPerItem, elapsed, translatedCount)
    }

    constructor (prepared: Prepared, translate: (nat, string) -> Option<string>, elapsed: nat -> real)
      ensures Valid()
      ensures queue == prepared.queue && results == map[] && translatedCount == 0
      ensures totalParagraphs == prepared.total && titleQueueIndex == prepared.titleIndex
      ensures averageSecondsPerItem == 0.0
      ensures this.translate == translate && this.elapsed == elapsed
    {
      queue := prepared.queue;
      results := map[];
      translatedCount := 0;
      totalParagraphs := prepared.total;
      averageSecondsPerItem := 0.0;
      titleQueueIndex := prepared.titleIndex;
      this.translate := translate;
      this.elapsed := elapsed;
    }

    /** One pass of the loop: the head of the queue is taken, its result
        stored at the index the count had, and the count and the mean move on. */
    method Step()
      requires Valid() && queue != []
      modifies this
      ensures Valid()
      ensures queue == old(queue)[1..]
      ensures translatedCount == old(translatedCount) + 1
      ensures results == old(results)[old(translatedCount) := Outcome(translate, old(translatedCount), old(queue)[0])]
      ensures totalParagraphs == old(totalParagraphs) && titleQueueIndex == old(titleQueueIndex)
    {
      var index := translatedCount;
      var text := queue[0];
      queue := queue[1..];
      var response := translate(index, text);
      if response.Some? {
        results := results[index := response.value];
      } else {
        results := results[index := text];
      }
      var dt := elapsed(index);
      if translatedCount == 0 {
        averageSecondsPerItem := dt;
        MeanFirst(elapsed);
      } else {
        MeanStep(averageSecondsPerItem, elapsed, translatedCount);
        averageSecondsPerItem := MeanUpdate(averageSecondsPerItem, translatedCount, dt);
      }
      translatedCount := translatedCount + 1;
    }

    /** Consumes the queue in order: each text's result goes to the index the
        count had when it was taken. */
    method Drain()
      requires Valid()
      modifies this
      ensures Valid()
      ensures queue == []
      ensures translatedCount == old(translatedCount) + |old(queue)|
      ensures results == Recorded(old(results), old(translatedCount), old(queue), translate)
      ensures totalParagraphs == old(totalParagraphs) && titleQueueIndex == old(titleQueueIndex)
    {
      ghost var queue0, results0, count0 := queue, results, translatedCount;
      ghost var k := 0;
      assert queue0[..0] == [];
      while queue != []
        invariant Valid()
        invariant 0 <= k <= |queue0| && translatedCount == count0 + k
        invariant queue == queue0[k..]
        invariant results == Recorded(results0, count0, queue0[..k], translate)
        invariant totalParagraphs == old(totalParagraphs) && titleQueueIndex == old(titleQueueIndex)
        decreases |queue|
      {
        RecordedStep(results0, count0, queue0, translate, k);
        Step();
        k := k + 1;
      }
      assert queue0[..|queue0|] == queue0;
    }

    /** After the queue is drained, as the task does it: nothing happens
        unless every queued item was translated; otherwise the documents are
        rewritten with the cursor starting at 0, even when the title holds
        result 0, and the package document is patched. */
    method Finish(documents: seq<ContentFile>, wideMatch: bool, opf: Option<string>, language: Option<string>) returns (out: Option<Export>)
      ensures translatedCount != totalParagraphs ==> out.None?
      ensures translatedCount == totalParagraphs ==> out == Some(Export(
        Reinjected(documents, wideMatch, results, 0),
        PatchedPackage(opf, titleQueueIndex, results, language)))
    {
      if translatedCount != totalParagraphs {
        return None;
      }
      var rewritten, cursor := ReinjectFiles(documents, wideMatch, results, 0);
      var package := PatchMetadata(opf, titleQueueIndex, results, language);
      out := Some(Export(rewritten, package));
    }

    /** `Finish` with the cursor starting after the title, so that every
        unit reads the result of its own queued text
        (`ParagraphGetsOwnTranslation`). */
    method FinishCorrected(documents: seq<ContentFile>, wideMatch: bool, opf: Option<string>, language: Option<string>) returns (out: Option<Export>)
      ensures translatedCount != totalParagraphs ==> out.None?
      ensures translatedCount == totalParagraphs ==> out == Some(Export(
        Reinjected(documents, wideMatch, results, FirstParagraphIndex(titleQueueIndex)),
        PatchedPackage(opf, titleQueueIndex, results, language)))
    {
      if translatedCount != totalParagraphs {
        return None;
      }
      var rewritten, cursor := ReinjectFiles(documents, wideMatch, results, FirstParagraphIndex(titleQueueIndex));
      var package := PatchMetadata(opf, titleQueueIndex, results, language);
      out := Some(Export(rewritten, package));
    }
  }

  /** A whole run over a prepared queue, as the task does it: every item is
      translated, so the documents are rewritten from the results of the
      whole queue, reading them with the cursor started at 0. */
  method Run(prepared: Prepared, translate: (nat, string) -> Option<string>, elapsed: nat -> real,
             documents: seq<ContentFile>, wideMatch: bool, opf: Option<string>, language: Option<string>)
    returns (out: Option<Export>)
    requires prepared.total == |prepared.queue|
    ensures out.Some?
    ensures out.value.documents == Reinjected(documents, wideMatch, Recorded(map[], 0, prepared.queue, translate), 0)
    ensures out.value.opf == PatchedPackage(opf, prepared.titleIndex, Recorded(map[], 0, prepared.queue, translate), language)
  {
    var session := new Session(prepared, translate, elapsed);
    session.Drain();
    out := session.Finish(documents, wideMatch, opf, language);
  }

  /** A whole run that finishes with the corrected cursor. */
  method RunCorrected(prepared: Prepared, translate: (nat, string) -> Option<string>, elapsed: nat -> real,
                      documents: seq<ContentFile>, wideMatch: bool, opf: Option<string>, language: Option<string>)
    returns (out: Option<Export>)
    requires prepared.total == |prepared.queue|
    ensures out.Some?
    ensures out.value.documents == Reinjected(documents, wideMatch, Recorded(map[], 0, prepared.queue, translate), FirstParagraphIndex(prepared.titleIndex))
    ensures out.value.opf == PatchedPackage(opf, prepared.titleIndex, Recorded(map[], 0, prepared.queue, translate), language)
  {
    var session := new Session(prepared, translate, elapsed);
    session.Drain();
    out := session.FinishCorrected(documents, wideMatch, opf, language);
  }
}
