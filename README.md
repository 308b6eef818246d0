# Epub-Tr book rewrite, modelled in Dafny

Epub-Tr translates an EPUB book in place. It unpacks the archive and finds the
package document through `META-INF/container.xml`. It reads the book title,
then extracts the `<p>` paragraphs of every content document as plain text and
queues the title followed by the paragraphs. Each queued text goes through a
translator; a failed item keeps its source text. Once every item is
translated, the task extracts the paragraphs of every document a second time
and writes the recorded results back over their spans, keeping each `<p …>`
tag's attributes. Finally it writes the translated title, and the target
language, into the package document and repacks the archive.

This project models that pipeline as it is written in
`Epub-Tr/ContentView.swift`. It proves what each step guarantees and how the
two extraction passes line up.

- `Markup` is the element pattern `<tag[^>]*>(.*?)</tag>` written as a scanner.
  It is case-insensitive and `.` matches newlines. It gives the first match
  (`firstMatch`) and all non-overlapping matches (`matches`). Lemmas tie the
  scanner to a declarative definition of a match.
- `Extraction` is `EpubIO.extractParagraphs`:
  - matching `(?is)<p\b[^>]*>([\s\S]*?)</p>`;
  - turning the inner markup into plain text (`<br>` becomes a newline, other
    tags are removed, NBSP becomes a space, the result is trimmed);
  - batching runs of 20 paragraphs when `wideMatch` is on.
- `Reinjection` is `EpubIO.replaceParagraphs`. It replaces spans from the last
  to the first. Each span is rebuilt from the attributes that
  `(?is)^<p(.*?)>(.*?)</p>$` finds in it, or as a bare `<p>…</p>` when that
  pattern does not match.
- `Metadata` covers the string work of `findOPFURL`, `readTitle`, `writeTitle`
  and `writeLanguage`. A write either replaces the first element's inner text
  or inserts a new element after the `<metadata …>` tag.
- `Preparation` is the queue build run after an import. The title goes first
  when it is non-empty, then every document's units in file order. Newlines
  are removed from every text and the total is the queue length. A file that
  cannot be read aborts preparation; a file that is not UTF-8 is skipped.
- `TranslationTask` is the task that runs once the queue is built:
  - `Session` is a class over the task's state. It drains the queue, records
    each result at its index and keeps the running mean of seconds per item.
  - The task then re-extracts the documents and reinjects the results with a
    running cursor.
  - Last it patches the title and the language.
- `Eta` is `estimatedTimeLeftString`.

The translator is a parameter `translate(index, text)` that returns no value
when translation fails. The clock is a parameter `elapsed(index)`, the seconds
the item at that index took. Reading a content document yields a
`ContentFile`: unreadable, not UTF-8, or the decoded text. Strings are
sequences of Unicode scalar values, and offsets count characters.

Points of the code that the model keeps as they are:

- A content file that cannot be read during preparation aborts the whole
  preparation (`try Data(contentsOf:)` at line 386 throws into the `catch`).
  A file that is not UTF-8 is skipped (line 387).
- The reinjection cursor starts at 0 (line 632), while line 382 puts the
  title at queue index 0 whenever a title is queued. `Session.Finish` and
  `Run` model this as written. `Session.FinishCorrected` and `RunCorrected`
  start the cursor after the title. See Findings.
- The language is written only when the title was queued and has a result,
  the package document exists, and a target-language identifier exists
  (lines 650-653).
- The queued texts lose every newline (line 393). This includes the newlines
  that `<br>` became and the blank lines that join a batch.

## Model

| member | source | states |
|---|---|---|
| Chars.FindChar | Epub-Tr/ContentView.swift:94 | The offset found is the first occurrence of the character from the start offset on; none means there is no occurrence. |
| Chars.Find | Epub-Tr/ContentView.swift:93 | The case-insensitive `range(of:options: .caseInsensitive)` search: the offset found is the first occurrence; none means no occurrence from there on. |
| Chars.TrimSpec | Epub-Tr/ContentView.swift:201 | `trimmingCharacters(in: .whitespacesAndNewlines)` keeps one contiguous piece of its input. Only whitespace lies around that piece, and the result has no whitespace left at either end. |
| Chars.ReplaceChar | Epub-Tr/ContentView.swift:200 | Replacing NBSP by a space keeps the length and changes exactly the NBSP positions. |
| Chars.RemoveChar | Epub-Tr/ContentView.swift:393 | Removing `"\n"` leaves no newline, adds no character, and leaves text without a newline unchanged. |
| Chars.RemoveCharAppend | Epub-Tr/ContentView.swift:393 | Removal works piece by piece: removing from `a + b` is removing from `a`, then from `b`, and joining the results. Together with the clauses above, every other character is kept, in order. |
| Markup.ElementAt | Epub-Tr/ContentView.swift:158 | A match attempted at offset i starts at i and fits inside the text. |
| Markup.ElementAtSound | Epub-Tr/ContentView.swift:158 | A match the scanner reports satisfies the declarative definition of a match: the open tag ends at the first `>` after the name, and the inner text ends at the first close tag. |
| Markup.ElementAtIntro | Epub-Tr/ContentView.swift:158 | Conversely, any element that satisfies that definition is exactly what the scanner finds at its start. |
| Markup.ElementAtIs | Epub-Tr/ContentView.swift:158 | Given where the open tag's `>` and the close tag are, the scanner reports exactly that element. |
| Markup.FirstElement | Epub-Tr/ContentView.swift:67-68 | `firstMatch` reports a match at an offset from the start offset on, and it is the scanner's match there. |
| Markup.FirstElementIsFirst | Epub-Tr/ContentView.swift:67-68 | No match starts before the reported one, and when none is reported there is no match at all. |
| Markup.FirstElementIs | Epub-Tr/ContentView.swift:67-68 | A match with no match before it is the one `firstMatch` reports. |
| Markup.AllElements | Epub-Tr/ContentView.swift:164-167 | Every reported match lies inside the text, from the start offset on. |
| Markup.AllElementsFound | Epub-Tr/ContentView.swift:164-167 | Every reported match is the scanner's match at its own start. |
| Markup.AllElementsOrdered | Epub-Tr/ContentView.swift:164-167 | Consecutive matches do not overlap: each one ends before the next one starts. |
| Markup.AllElementsIsLeftmost | Epub-Tr/ContentView.swift:164-167 | The scan misses nothing: every offset where a match could start lies inside a reported match. |
| Markup.NoStraddle | Epub-Tr/ContentView.swift:158 | A close-tag pattern cannot match across the boundary into text that begins with `<`. |
| Extraction.SkipRegexSpace | Epub-Tr/ContentView.swift:186 | `\s*` consumes exactly the run of ICU whitespace from the offset on. |
| Extraction.BreakLength | Epub-Tr/ContentView.swift:186 | A match of `(?i)<br\s*/?>` starts with `<br`, ends with `>` and lies inside the text. |
| Extraction.TagLength | Epub-Tr/ContentView.swift:193 | A match of `<[^>]+>` starts with `<`, ends with `>` and has at least one character inside. |
| Extraction.StripTags | Epub-Tr/ContentView.swift:192-196 | Removing tags adds no character. |
| Extraction.StripTagsIsTagFree | Epub-Tr/ContentView.swift:192-196 | After the tags are removed, nothing matching `<[^>]+>` is left. |
| Extraction.PlainTextIsPlain | Epub-Tr/ContentView.swift:184-201 | Every extracted text is trimmed, holds no NBSP and holds no tag. |
| Extraction.PlainTextOfPlainContent | Epub-Tr/ContentView.swift:184-201 | Inner markup without tags or NBSP is only trimmed. |
| Extraction.NoMatchWithoutBracket | Epub-Tr/ContentView.swift:186-193 | Neither pattern matches at a character other than `<`. |
| Extraction.NoBreaksUnchanged | Epub-Tr/ContentView.swift:185-189 | Text without `<` is unchanged by the line-break replacement. |
| Extraction.NoTagsUnchanged | Epub-Tr/ContentView.swift:192-196 | Text that is already tag-free is unchanged by tag removal. |
| Extraction.BreakBecomesNewline | Epub-Tr/ContentView.swift:185-189 | A line-break tag after tag-free text becomes exactly one newline, and the rest is replaced the same way. |
| Extraction.PlainTextAroundBreak | Epub-Tr/ContentView.swift:184-201 | Text around one line break becomes its two parts joined by a newline, then trimmed. |
| Extraction.BreakSpellings | Epub-Tr/ContentView.swift:186 | `<br>`, `<br/>` and `<BR />` are all line-break tags of their full length. |
| Extraction.ParagraphMatches | Epub-Tr/ContentView.swift:158-167 | The paragraph matches fit the document and come in order without overlapping. |
| Extraction.ParagraphMatchIsElement | Epub-Tr/ContentView.swift:158 | Each paragraph match is a `<p…>…</p>` element as the pattern describes it, with a word boundary after `p`. Word characters are ASCII letters, digits and `_` only (see Left out). |
| Extraction.OrderedSpansDisjoint | Epub-Tr/ContentView.swift:171-204 | In ordered spans every earlier span ends before every later one starts. |
| Extraction.UnbatchedShape | Epub-Tr/ContentView.swift:171-204 | Without batching, units are in document order and do not overlap. Each span starts with `<p` and ends with `</p>`, and each text is trimmed, holds no NBSP and holds no tag. |
| Extraction.UnbatchedUnit | Epub-Tr/ContentView.swift:182-203 | One unit's span is a whole `<p…>…</p>` element, and its text is plain. |
| Extraction.BatchCount | Epub-Tr/ContentView.swift:211-224 | Batching n paragraphs gives ceil(n/20) units. |
| Extraction.BatchEntry | Epub-Tr/ContentView.swift:214-223 | Unit k merges the paragraphs 20k up to 20k+20, or up to the last paragraph. |
| Extraction.MergeSpan | Epub-Tr/ContentView.swift:218 | A merged unit spans from its first paragraph's start to its last paragraph's end. |
| Extraction.OrderedCons | Epub-Tr/ContentView.swift:223 | Appending a unit that ends before the next one starts keeps the units ordered. |
| Extraction.BatchOrdered | Epub-Tr/ContentView.swift:211-224 | Batching keeps units in document order without overlap, and the first unit starts where the first paragraph does. |
| Extraction.ParagraphsOrdered | Epub-Tr/ContentView.swift:153-227 | With or without batching, the extracted spans are ordered, non-empty and disjoint, which reinjection relies on. |
| Extraction.BatchStep | Epub-Tr/ContentView.swift:214-223 | One pass of the stride loop merges one run and continues after it. |
| Extraction.MergeRuns | Epub-Tr/ContentView.swift:211-226 | The stride loop returns exactly the batching of its input. |
| Extraction.ExtractParagraphs | Epub-Tr/ContentView.swift:153-227 | The extraction loop and the batching step return exactly the declared paragraphs: one unit per match, merged in runs of 20 when `wideMatch` is on and there is at least one unit. |
| Extraction.SingleParagraph | Epub-Tr/ContentView.swift:153-227 | A document that is one `<p attrs>inner</p>` element gives one unit spanning the whole document, with or without batching. |
| Extraction.SingleParagraphMatch | Epub-Tr/ContentView.swift:158-167 | That document has exactly one paragraph match. |
| Reinjection.AttrsOf | Epub-Tr/ContentView.swift:259-264 | Group 1 of `(?is)^<p(.*?)>(.*?)</p>$` is the text between `<p` and the first `>`, and the match needs a close tag before the end of the text. |
| Reinjection.AttrsOfIs | Epub-Tr/ContentView.swift:259-264 | When the span starts with `<p` and ends with a close tag, the attributes are what lies before the first `>`. |
| Reinjection.RebuildKeepsAttributes | Epub-Tr/ContentView.swift:262-266 | A `<p attrs>…</p>` span becomes `<p attrs>` + replacement + `</p>`. |
| Reinjection.RebuildBare | Epub-Tr/ContentView.swift:262-266 | A bare `<p>…</p>` span stays bare. |
| Reinjection.RebuildIdentity | Epub-Tr/ContentView.swift:262-266 | Rebuilding an element with its own inner text gives it back. |
| Reinjection.RebuildFallback | Epub-Tr/ContentView.swift:267-268 | A span that does not start with `<p` becomes a bare `<p>…</p>`. |
| Reinjection.RebuildFallbackWithoutClose | Epub-Tr/ContentView.swift:267-268 | A span with no close tag before the end also becomes a bare `<p>…</p>`. |
| Reinjection.SortByStartDescending | Epub-Tr/ContentView.swift:255 | The keys are listed by strictly decreasing start, each key exactly once. |
| Reinjection.DescendingReversed | Epub-Tr/ContentView.swift:255 | Reversed, that listing is the ascending order of the keys. |
| Reinjection.AscendingUnique | Epub-Tr/ContentView.swift:255 | Two strictly ascending listings of the same spans are equal, so the order is determined. |
| Reinjection.AscendingChain | Epub-Tr/ContentView.swift:252-255 | Fitting spans in ascending order form a chain inside the document. |
| Reinjection.SpliceStep | Epub-Tr/ContentView.swift:256-270 | Replacing a span that ends before the already rewritten part sees that span's original text, and extends the rewritten part to start at the span. |
| Reinjection.ReplaceStep | Epub-Tr/ContentView.swift:256-270 | One loop pass keeps the invariant: the document is the original up to the last replaced start, followed by the assembled replacements. |
| Reinjection.ReplaceDone | Epub-Tr/ContentView.swift:271 | After the last span, the document is the spliced document. |
| Reinjection.ReplaceParagraphs | Epub-Tr/ContentView.swift:252-271 | The loop over spans in descending order returns the original document with every span rebuilt around its replacement and all other text kept. |
| Reinjection.SplicedEmpty | Epub-Tr/ContentView.swift:252-271 | No replacements leave the document unchanged. |
| Reinjection.SplicedSingle | Epub-Tr/ContentView.swift:252-271 | One replacement changes exactly its span. |
| Reinjection.SplicedWhole | Epub-Tr/ContentView.swift:252-271 | A replacement covering the whole text rebuilds all of it. |
| Reinjection.SplicedIdentity | Epub-Tr/ContentView.swift:252-271 | Round trip: putting back each `<p…>…</p>` span's own inner text leaves the document unchanged. |
| Reinjection.SplicedKeepsEnds | Epub-Tr/ContentView.swift:252-271 | The text before the first span and after the last span is kept. |
| Reinjection.AssembleShift | Epub-Tr/ContentView.swift:256-270 | Text kept in front of the replaced spans can be moved into the assembly. |
| Metadata.RootfilePath | Epub-Tr/ContentView.swift:54-60 | The path found holds no quote. None means no quote follows any `full-path="` attribute. |
| Metadata.RootfilePathOf | Epub-Tr/ContentView.swift:54-60 | The first `full-path="` attribute followed by a quote-free path and a quote yields that path. |
| Metadata.ReadTitle | Epub-Tr/ContentView.swift:63-72 | A title that is read is trimmed. |
| Metadata.ReadTitleNone | Epub-Tr/ContentView.swift:66-70 | No title is read exactly when no `dc:title` element starts anywhere. |
| Metadata.InsertPoint | Epub-Tr/ContentView.swift:88-92 | The insertion point lies just after a `>`. |
| Metadata.InsertPointIs | Epub-Tr/ContentView.swift:88-92 | That point is right after the first `>` at or after the first `<metadata` (any letter case). |
| Metadata.WriteElement | Epub-Tr/ContentView.swift:74-97 | Replacing the whole first match by its open tag, the value and its close tag, or else inserting the new element, gives the patched document. |
| Metadata.ReplaceWholeMatch | Epub-Tr/ContentView.swift:80-85 | Replacing a whole match by prefix + value + suffix is replacing its inner text by the value. |
| Metadata.WriteTitle | Epub-Tr/ContentView.swift:74-97 | `writeTitle` patches the `dc:title` element. |
| Metadata.WriteLanguage | Epub-Tr/ContentView.swift:98-120 | `writeLanguage` patches the `dc:language` element. |
| Metadata.RewrittenIsElement | Epub-Tr/ContentView.swift:80-85 | After the rewrite, the element holding the new value still matches the pattern at its start. |
| Metadata.PatchedReplacesFirst | Epub-Tr/ContentView.swift:80-85 | Only the first element's inner text changes. It is still the first element, its tags and everything around them are unchanged, and its inner text is exactly the value. |
| Metadata.ReadTitleAfterWrite | Epub-Tr/ContentView.swift:63-85 | Reading the title back after writing a title without `<` gives that title, trimmed. |
| Metadata.PatchedIdempotent | Epub-Tr/ContentView.swift:80-85 | Writing the same value twice is writing it once. |
| Metadata.PatchedInserts | Epub-Tr/ContentView.swift:86-92 | With no element to replace, exactly one new element is inserted right after the `<metadata …>` tag's `>`, and it is a match holding the value. |
| Metadata.InsertedElement | Epub-Tr/ContentView.swift:91 | The inserted `\n<tag>value</tag>` forms a match at its `<`. |
| Metadata.PatchedWithoutMetadata | Epub-Tr/ContentView.swift:86-92 | With neither an element nor a `<metadata` tag, the document is left unchanged. |
| Preparation.QueuedTitle | Epub-Tr/ContentView.swift:381-384 | The title is queued, as one entry, exactly when it was read and is non-empty. |
| Preparation.ExtractorOrders | Epub-Tr/ContentView.swift:388 | The extractor used for the queue finds ordered, disjoint spans in every document. |
| Preparation.Gather | Epub-Tr/ContentView.swift:385-390 | The texts gathered for the documents number as many as their units. |
| Preparation.BuildQueue | Epub-Tr/ContentView.swift:379-394 | The queue-building loop returns the prepared state: the title first when queued, then every document's units, newlines removed. It fails at the first unreadable document and skips documents that are not UTF-8. |
| Preparation.ReadFailureAborts | Epub-Tr/ContentView.swift:386 | An unreadable document after readable ones makes preparation fail at that document. |
| Preparation.PreparedFrom | Epub-Tr/ContentView.swift:391-395 | When every document is read, the state holds the stripped queue, the title index and the unstripped count. |
| Preparation.QueueStep | Epub-Tr/ContentView.swift:385-390 | One more readable document appends its texts to those gathered so far. |
| Preparation.FailurePropagates | Epub-Tr/ContentView.swift:386 | A failure among the first k documents is the failure of all of them. |
| Preparation.GatherFailure | Epub-Tr/ContentView.swift:385-390 | Gathering fails exactly when some document fails, and then at the first such document. |
| Preparation.PrepareFailure | Epub-Tr/ContentView.swift:385-387 | Preparation fails exactly when some document is unreadable, and it reports the first one. |
| Preparation.PreparedShape | Epub-Tr/ContentView.swift:379-394 | `totalParagraphs` is the queue length, which is the title plus all units. The title index is 0 exactly when a non-empty title was read, and the queue then starts with the title. No queued text holds a newline. |
| Preparation.TitleOffset | Epub-Tr/ContentView.swift:381-383 | The queue holds one entry before the units exactly when a title index is recorded. |
| Preparation.GatherAt | Epub-Tr/ContentView.swift:385-390 | Unit j of document i is gathered at the number of units before document i, plus j. |
| Preparation.QueueAlignment | Epub-Tr/ContentView.swift:379-394 | Unit j of document i is queued, newlines removed, at the title count plus the units before document i plus j. |
| Preparation.QueuedAt | Epub-Tr/ContentView.swift:379-394 | The same position, counted from the recorded title index. |
| TranslationTask.RecordedAt | Epub-Tr/ContentView.swift:600-616 | After draining, every consumed index holds the translation of the text queued there, or that text when translating failed. Other entries are kept, and nothing else is added. |
| TranslationTask.RecordedStep | Epub-Tr/ContentView.swift:601-615 | Consuming one more text records its outcome at the next index. |
| TranslationTask.AveragesToMean | Epub-Tr/ContentView.swift:617-624 | The division-free invariant `average * n == sum` holds exactly when the average is the mean. |
| TranslationTask.MeanFirst | Epub-Tr/ContentView.swift:619-620 | The first item's time is the mean of one item. |
| TranslationTask.MeanStep | Epub-Tr/ContentView.swift:621-623 | The update `(avg * n + dt) / (n + 1)` turns the mean of n items into the mean of n + 1. |
| TranslationTask.SumBetween | Epub-Tr/ContentView.swift:617-624 | n item times between lo and hi sum to between n·lo and n·hi. |
| TranslationTask.MeanBetween | Epub-Tr/ContentView.swift:617-624 | The running mean lies between the fastest and the slowest item. |
| TranslationTask.Session.constructor | Epub-Tr/ContentView.swift:391-395 | A session starts from the prepared queue, title index and total, with no results, a count of 0 and an average of 0. |
| TranslationTask.Session.Step | Epub-Tr/ContentView.swift:600-626 | One pass removes the head of the queue and stores its outcome at the index the count had. The count moves on by one and the average stays the mean of the items done. |
| TranslationTask.Session.Drain | Epub-Tr/ContentView.swift:600-626 | The loop ends with an empty queue. The count grows by the queue's length, and the results are those recorded for the queue in order, from the starting count on. |
| TranslationTask.ReplacementsAt | Epub-Tr/ContentView.swift:637-642 | Unit k is replaced exactly when the cursor's index for it has a result, and then by that result. |
| TranslationTask.ReplacementsKeys | Epub-Tr/ContentView.swift:637-642 | Only the spans of the document's own units are replaced. |
| TranslationTask.ReplacementsFit | Epub-Tr/ContentView.swift:636-643 | The replacements of a document's units meet what the rewrite requires: spans inside the document, non-empty and disjoint. |
| TranslationTask.LookupAt | Epub-Tr/ContentView.swift:637-642 | After a full drain, the unit read at index base + j is replaced by the outcome recorded for the text queued there. |
| TranslationTask.CollectReplacements | Epub-Tr/ContentView.swift:636-642 | The inner loop builds the declared replacements and moves the cursor by one per unit. |
| TranslationTask.ExtractedIsCount | Epub-Tr/ContentView.swift:633-642 | The second pass counts exactly as many units as preparation queued. |
| TranslationTask.ReinjectedAt | Epub-Tr/ContentView.swift:632-647 | Document i reads its first result at the start value plus the number of units before it. |
| TranslationTask.RewriteNext | Epub-Tr/ContentView.swift:634-646 | A readable document is re-extracted and rewritten, and the cursor moves by its unit count. An unreadable document is skipped without moving the cursor. |
| TranslationTask.ReinjectFiles | Epub-Tr/ContentView.swift:632-647 | The document loop returns the declared rewritten documents, and its cursor ends at the start value plus the total unit count. |
| TranslationTask.ParagraphGetsOwnTranslation | Epub-Tr/ContentView.swift:379-394 | With the cursor started after the title, unit j of document i is replaced by the outcome recorded for its own queued text. |
| TranslationTask.ParagraphGetsPrecedingTranslation | Epub-Tr/ContentView.swift:632 | With the cursor started at 0 while a title is queued, as written, unit j of document i gets the outcome of the text queued just before its own. |
| TranslationTask.CursorFromZeroCounterexample | Epub-Tr/ContentView.swift:632 | For a titled book with one one-paragraph document, a cursor started at 0 writes the title's translation into the paragraph, and a cursor started at 1 writes the paragraph's own. |
| TranslationTask.OneParagraphDocument | Epub-Tr/ContentView.swift:633-646 | A one-paragraph document whose unit reads index base becomes `<p>` + result + `</p>`. |
| TranslationTask.PatchMetadata | Epub-Tr/ContentView.swift:649-655 | The title is written only when it was queued, has a result and the package document exists. The language is then written only when an identifier exists. |
| TranslationTask.TranslatedTitleReadsBack | Epub-Tr/ContentView.swift:650-651 | After the patch, reading the title back gives the translated title, trimmed. |
| TranslationTask.Session.Finish | Epub-Tr/ContentView.swift:629-655 | Nothing happens unless the count equals the total. Otherwise the documents are rewritten with the cursor started at 0, as line 632 does, and the package document is patched. |
| TranslationTask.Session.FinishCorrected | Epub-Tr/ContentView.swift:629-655 | The same, with the cursor started after the title (at 1 when a title was queued, else at 0). |
| TranslationTask.Run | Epub-Tr/ContentView.swift:600-655 | A whole run over a prepared queue always finishes. The documents are rewritten from the results of the whole queue, read with the cursor started at 0, and the package document is patched. |
| TranslationTask.RunCorrected | Epub-Tr/ContentView.swift:600-655 | The same run finishing with the corrected cursor. |
| Eta.Decimal | Epub-Tr/ContentView.swift:536-538 | Integer interpolation prints decimal digits with no leading zero. |
| Eta.DecimalRoundTrip | Epub-Tr/ContentView.swift:536-538 | The printed digits denote the number. |
| Eta.ParseFormatted | Epub-Tr/ContentView.swift:534-539 | The label `Xm Ys` or `Ys` reads back as the number of seconds, so different numbers of seconds never print alike. |
| Eta.SecondsLeftPositive | Epub-Tr/ContentView.swift:531-532 | The time left is positive exactly when something remains and a positive mean has been measured. |
| Eta.EstimatedTimeLeftNone | Epub-Tr/ContentView.swift:528-533 | There is no label exactly when translation is off, the total is not positive, nothing remains, or the mean is not positive. |
| Eta.EstimatedTimeLeftValue | Epub-Tr/ContentView.swift:528-540 | A label reads back as the whole seconds of remaining × mean. |
| Eta.UnderOneSecond | Epub-Tr/ContentView.swift:534-539 | Less than one second left prints `0s`. |
| Eta.LabelForms | Epub-Tr/ContentView.swift:536-539 | 125 seconds print as `2m 5s`, and 59 seconds print as `59s`. |

## Left out

- ZIP unpacking and repacking (lines 19-47): archive and file-system I/O.
- `htmlFileURLs` (lines 123-132): this is a recursive directory walk. The
  model takes the content documents as a sequence in enumeration order. The
  extension test (`html`, `xhtml`, `htm`, any case) is not modelled.
- Every `Data(contentsOf:)` read and every `write(to:)`. A read is a
  `ContentFile` value. A write's result is returned: the rewritten documents
  and the package document. A failed write is not modelled.
- URL handling in `findOPFURL`: the container file path and the joining of
  the root with the found path. Only the string search for `full-path="…"` is
  modelled.
- `readTitle` and `writeTitle` on a missing or undecodable package document:
  the model takes the package document as an optional string.
- The Translation framework session, the FoundationModels prompt and
  `LanguageAvailability`. The translator is the parameter `translate`, and its
  prompt text is not modelled.
- `Date()` timing: `elapsed` gives each item's seconds. `Double` arithmetic
  is real arithmetic, so the `isFinite` guard on line 533 always holds in the
  model.
- The `workingFolder` guard (line 629) and the final archive export: the model
  has no workspace.
- The SwiftUI views, bindings, `Task` and `MainActor` hops, and the
  cancellation state.
- Swift's `Int` overflow, and the NSRange UTF-16 offset conversion. Offsets
  are character counts of unbounded integers.
- Case-insensitive matching uses ASCII case folding. This is enough for the
  patterns the program uses (`p`, `br`, `dc:title`, `dc:language`,
  `metadata`, `full-path`), whose letters have no other case variant
  relevant here.
- ParagraphMatchIsElement (Extraction.ParagraphMatchIsElement), and the word
  test Chars.IsWordChar behind Markup.ElementAt: the `\b` after `p` at line
  158 counts only ASCII letters, digits and `_` as word characters. ICU also
  counts every other Unicode letter, mark and decimal digit. So for
  `<pé>x</p>` the program finds no paragraph, while the model extracts `x`.
  The Unicode character database is not modelled.
- Preparation.BuildQueue: takes the title already read from the package
  document (`BookTitle`) rather than reading it itself.
- TranslationTask.ParagraphGetsOwnTranslation: stated for any extractor
  whose spans are ordered. The second pass must extract the same units as the
  first, which holds because both use the same deterministic extractor.

## Findings

| source | as written | input that shows it | evidently intended | confidence | as-written member | corrected member |
|---|---|---|---|---|---|---|
| Epub-Tr/ContentView.swift:632 | The reinjection cursor `resultIndex` starts at 0. When a title was queued, index 0 holds the title's result, so every paragraph is replaced by the result of the text queued before it. The last result is never used. | A book with a non-empty title translated to t0 and one content document `<p>x</p>` whose paragraph translates to t1: the document is rewritten to `<p>t0</p>` | Start the cursor after the title (`titleQueueIndex == nil ? 0 : 1`), so each paragraph gets its own translation. | high; not executed | TranslationTask.CursorFromZeroCounterexample | TranslationTask.Session.FinishCorrected |

`TranslationTask.ParagraphGetsPrecedingTranslation` proves the as-written
behaviour for every paragraph of every book. `TranslationTask.Session.Finish`
and `TranslationTask.Run` use that cursor, as line 632 does.
`TranslationTask.ParagraphGetsOwnTranslation` proves the corrected cursor's
property. That cursor is the one `TranslationTask.Session.FinishCorrected`
and `TranslationTask.RunCorrected` use.
