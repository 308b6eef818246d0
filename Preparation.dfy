/**
 * Preparing a translation run after an EPUB is imported: the queue of texts
 * to translate is the book title (when the package document has a non-empty
 * one) followed by the extracted paragraphs of every content document, in
 * file order, with newlines removed.
 */
module Preparation {
  import opened Wrappers
  import opened Chars
  import opened Extraction
  import opened Metadata

  /** A content document as reading it yields: the read fails, the bytes are
      not UTF-8, or the decoded text. */
  datatype ContentFile = Unreadable | NotUtf8 | Decoded(html: string)

  /** Preparation stops at the first content document that cannot be read. */
  datatype PrepareError = ReadFailed(file: nat)

  /** The state preparation hands to the translation task. */
  datatype Prepared = Prepared(queue: seq<string>, titleIndex: Option<nat>, total: nat)

  /** The book title as the package document gives it, when there is one. */
  function BookTitle(opf: Option<string>): Option<string> {
    if opf.None? then None else ReadTitle(opf.value)
  }

  /** The title queued first: present when it was read and is non-empty. */
  function QueuedTitle(title: Option<string>): (r: seq<string>)
    ensures |r| <= 1
    ensures |r| == 1 <==> title.Some? && title.value != ""
  {
    if title.Some? && title.value != "" then [title.value] else []
  }

  /** Paragraph extraction as a function of the document. */
  function ExtractorOf(wideMatch: bool): string -> seq<Paragraph> {
    html => Paragraphs(html, wideMatch)
  }

  /** An extractor whose units are in order inside their document. */
  ghost predicate Orders(extract: string -> seq<Paragraph>) {
    forall html :: OrderedSpans(extract(html), |html|)
  }

  /** Paragraph extraction finds its units in document order. */
  lemma ExtractorOrders(wideMatch: bool)
    ensures Orders(ExtractorOf(wideMatch))
  {
    forall html: string
      ensures OrderedSpans(ExtractorOf(wideMatch)(html), |html|)
    {
      ParagraphsOrdered(html, wideMatch);
    }
  }

  /** The units extracted from one content document; none when it was not decoded. */
  function FileParagraphs(f: ContentFile, extract: string -> seq<Paragraph>): seq<Paragraph> {
    if f.Decoded? then extract(f.html) else []
  }

  /** What reading one document contributes to the queue: nothing more can
      be queued after an unreadable document, a document that is not UTF-8
      contributes no texts. */
  function Units(f: ContentFile, extract: string -> seq<Paragraph>): Option<seq<string>> {
    if f.Unreadable? then None else Some(Texts(FileParagraphs(f, extract)))
  }

  function UnitsOf(extract: string -> seq<Paragraph>): ContentFile -> Option<seq<string>> {
    f => Units(f, extract)
  }

  /** Number of texts `unit` yields for the given documents. */
  function Total(files: seq<ContentFile>, unit: ContentFile -> Option<seq<string>>): nat
    decreases |files|
  {
    if files == [] then 0
    else
      var u := unit(files[|files| - 1]);
      Total(files[..|files| - 1], unit) + (if u.Some? then |u.value| else 0)
  }

  /** The texts `unit` yields for the documents in file order, or the first
      document it fails on. */
  function Gather(files: seq<ContentFile>, unit: ContentFile -> Option<seq<string>>): (r: Result<seq<string>, PrepareError>)
    ensures r.Success? ==> |r.value| == Total(files, unit)
    decreases |files|
  {
    if files == [] then Success([])
    else
      match Gather(files[..|files| - 1], unit)
      case Failure(e) => Failure(e)
      case Success(prev) =>
        match unit(files[|files| - 1])
        case None => Failure(ReadFailed(|files| - 1))
        case Some(texts) => Success(prev + texts)
  }

  /** Number of units extracted from the given documents. */
  function Count(files: seq<ContentFile>, extract: string -> seq<Paragraph>): nat {
    Total(files, UnitsOf(extract))
  }

  /** The texts of all units of all documents in file order, or the first
      document that could not be read. */
  function FileTexts(files: seq<ContentFile>, extract: string -> seq<Paragraph>): Result<seq<string>, PrepareError> {
    Gather(files, UnitsOf(extract))
  }

  /** One more document adds its units to the count. */
  lemma CountStep(files: seq<ContentFile>, extract: string -> seq<Paragraph>, i: nat)
    requires i < |files|
    ensures Count(files[..i + 1], extract) == Count(files[..i], extract) + |FileParagraphs(files[i], extract)|
  {
    assert files[..i + 1][..i] == files[..i];
  }

  /** Every text with its newlines removed. */
  function StripNewlines(q: seq<string>): (r: seq<string>)
    ensures |r| == |q|
    ensures forall k :: 0 <= k < |q| ==> r[k] == RemoveChar(q[k], '\n')
  {
    seq(|q|, k requires 0 <= k < |q| => RemoveChar(q[k], '\n'))
  }

  /** What preparation produces. */
  function Prepare(title: Option<string>, files: seq<ContentFile>, extract: string -> seq<Paragraph>): Result<Prepared, PrepareError> {
    match FileTexts(files, extract)
    case Failure(e) => Failure(e)
    case Success(texts) =>
      var q := QueuedTitle(title) + texts;
      Success(Prepared(StripNewlines(q), if |QueuedTitle(title)| == 1 then Some(0) else None, |q|))
  }

  /** The preparation task: queue the title, then every document's units;
      a document that cannot be read aborts, one that is not UTF-8 is skipped.
      `title` is what reading the package document gave (BookTitle). */
  method BuildQueue(title: Option<string>, files: seq<ContentFile>, wideMatch: bool) returns (r: Result<Prepared, PrepareError>)
    ensures r == Prepare(title, files, ExtractorOf(wideMatch))
  {
    var queue: seq<string> := [];
    var titleIndex: Option<nat> := None;
    if title.Some? && title.value != "" {
      titleIndex := Some(0);
      queue := queue + [title.value];
    }
    ghost var head := QueuedTitle(title);
    ghost var extract := ExtractorOf(wideMatch);
    ghost var texts: seq<string> := [];
    assert queue == head + texts;
    assert files[..0] == [];
    var i := 0;
    while i < |files|
      invariant 0 <= i <= |files|
      invariant Gather(files[..i], UnitsOf(extract)) == Success(texts)
      invariant queue == head + texts
      invariant titleIndex == (if |head| == 1 then Some(0) else None)
      decreases |files| - i
    {
      match files[i] {
        case Unreadable =>
          ReadFailureAborts(title, files, extract, i, texts);
          return Failure(ReadFailed(i));
        case NotUtf8 =>
          QueueStep(head, texts, files, extract, i, []);
        case Decoded(html) =>
          var paragraphs := ExtractParagraphs(html, wideMatch);
          ExtractorIs(files[i], wideMatch, paragraphs);
          QueueStep(head, texts, files, extract, i, Texts(paragraphs));
          queue := queue + Texts(paragraphs);
          texts := texts + Texts(paragraphs);
      }
      i := i + 1;
    }
    PreparedFrom(title, files, extract, texts);
    r := Success(Prepared(StripNewlines(queue), titleIndex, |queue|));
  }

  /** An unreadable document after readable ones makes preparation fail there. */
  lemma ReadFailureAborts(title: Option<string>, files: seq<ContentFile>, extract: string -> seq<Paragraph>,
                          i: nat, texts: seq<string>)
    requires i < |files| && files[i].Unreadable?
    requires Gather(files[..i], UnitsOf(extract)) == Success(texts)
    ensures Prepare(title, files, extract) == Failure(ReadFailed(i))
  {
    UnitsOfIs(files[i], extract);
    assert files[..i + 1][..i] == files[..i];
    FailurePropagates(files, UnitsOf(extract), i + 1);
  }

  /** When every document was read, preparation queues the title and the texts. */
  lemma PreparedFrom(title: Option<string>, files: seq<ContentFile>, extract: string -> seq<Paragraph>, texts: seq<string>)
    requires Gather(files[..|files|], UnitsOf(extract)) == Success(texts)
    ensures Prepare(title, files, extract)
         == Success(Prepared(StripNewlines(QueuedTitle(title) + texts),
                             if |QueuedTitle(title)| == 1 then Some(0) else None, |QueuedTitle(title) + texts|))
  {
    assert files[..|files|] == files;
  }

  /** The extractor applied to a decoded document gives its paragraphs. */
  lemma ExtractorIs(f: ContentFile, wideMatch: bool, paragraphs: seq<Paragraph>)
    requires f.Decoded? && paragraphs == Paragraphs(f.html, wideMatch)
    ensures paragraphs == FileParagraphs(f, ExtractorOf(wideMatch))
  {
  }

  lemma UnitsOfIs(f: ContentFile, extract: string -> seq<Paragraph>)
    ensures UnitsOf(extract)(f) == if f.Unreadable? then None else Some(Texts(FileParagraphs(f, extract)))
  {
  }

  /** One more readable document appends its texts to those gathered so far. */
  lemma QueueStep(head: seq<string>, texts: seq<string>, files: seq<ContentFile>, extract: string -> seq<Paragraph>,
                  i: nat, added: seq<string>)
    requires i < |files| && !files[i].Unreadable?
    requires Gather(files[..i], UnitsOf(extract)) == Success(texts)
    requires added == Texts(FileParagraphs(files[i], extract))
    ensures Gather(files[..i + 1], UnitsOf(extract)) == Success(texts + added)
    ensures head + texts + added == head + (texts + added)
    ensures added == [] ==> texts + added == texts
  {
    UnitsOfIs(files[i], extract);
    GatherStep(files, UnitsOf(extract), i);
  }

  lemma GatherStep(files: seq<ContentFile>, unit: ContentFile -> Option<seq<string>>, i: nat)
    requires i < |files| && Gather(files[..i], unit).Success? && unit(files[i]).Some?
    ensures Gather(files[..i + 1], unit) == Success(Gather(files[..i], unit).value + unit(files[i]).value)
  {
    assert files[..i + 1][..i] == files[..i];
  }

  /** A failure in the first `k` documents is the failure of all of them. */
  lemma {:induction false} FailurePropagates(files: seq<ContentFile>, unit: ContentFile -> Option<seq<string>>, k: nat)
    requires k <= |files| && Gather(files[..k], unit).Failure?
    ensures Gather(files, unit) == Gather(files[..k], unit)
    decreases |files| - k
  {
    if k < |files| {
      assert files[..k + 1][..k] == files[..k];
      FailurePropagates(files, unit, k + 1);
    } else {
      assert files[..k] == files;
    }
  }

  /** Reading fails exactly at the first unreadable document. */
  lemma {:induction false} GatherFailure(files: seq<ContentFile>, unit: ContentFile -> Option<seq<string>>)
    ensures Gather(files, unit).Failure? <==> exists i :: 0 <= i < |files| && unit(files[i]).None?
    ensures Gather(files, unit).Failure? ==>
      var i := Gather(files, unit).error.file;
      i < |files| && unit(files[i]).None? && forall j :: 0 <= j < i ==> unit(files[j]).Some?
    decreases |files|
  {
    if files != [] {
      var prefix := files[..|files| - 1];
      GatherFailure(prefix, unit);
      if exists i :: 0 <= i < |prefix| && unit(prefix[i]).None? {
        var i :| 0 <= i < |prefix| && unit(prefix[i]).None?;
        assert files[i] == prefix[i];
      }
      if exists i :: 0 <= i < |files| && unit(files[i]).None? {
        var i :| 0 <= i < |files| && unit(files[i]).None?;
        if i < |prefix| {
          assert prefix[i] == files[i];
        }
      }
      if Gather(prefix, unit).Failure? {
        var i := Gather(prefix, unit).error.file;
        assert files[i] == prefix[i];
        forall j | 0 <= j < i
          ensures unit(files[j]).Some?
        {
          assert files[j] == prefix[j];
        }
      } else {
        forall j | 0 <= j < |prefix|
          ensures unit(files[j]).Some?
        {
          assert files[j] == prefix[j];
        }
      }
    }
  }

  /** Preparation fails exactly when some document cannot be read, and then
      names the first one. */
  lemma PrepareFailure(title: Option<string>, files: seq<ContentFile>, extract: string -> seq<Paragraph>)
    ensures Prepare(title, files, extract).Failure? <==> exists i :: 0 <= i < |files| && files[i].Unreadable?
    ensures Prepare(title, files, extract).Failure? ==>
      var i := Prepare(title, files, extract).error.file;
      i < |files| && files[i].Unreadable? && forall j :: 0 <= j < i ==> !files[j].Unreadable?
  {
    var unit := UnitsOf(extract);
    GatherFailure(files, unit);
    assert forall i :: 0 <= i < |files| ==> (unit(files[i]).None? <==> files[i].Unreadable?);
  }

  /** The prepared state: the count is the queue length, the title sits at
      index 0 exactly when it is non-empty, and no queued text holds a
      newline (the newlines `<br>` became and the blank lines between
      merged paragraphs are removed too). */
  lemma PreparedShape(title: Option<string>, files: seq<ContentFile>, extract: string -> seq<Paragraph>)
    requires Prepare(title, files, extract).Success?
    ensures var p := Prepare(title, files, extract).value;
      && p.total == |p.queue| == |QueuedTitle(title)| + Count(files, extract)
      && (p.titleIndex == Some(0) <==> title.Some? && title.value != "")
      && (p.titleIndex.None? <==> |QueuedTitle(title)| == 0)
      && (p.titleIndex.Some? ==> p.queue[0] == RemoveChar(title.value, '\n'))
      && (forall k :: 0 <= k < |p.queue| ==> '\n' !in p.queue[k])
  {
  }

  /** The queue index of the first unit: the title, when queued, comes first. */
  function FirstParagraphIndex(titleIndex: Option<nat>): nat {
    if titleIndex.Some? then 1 else 0
  }

  /** The queue holds one entry in front of the units exactly when it
      records a title index. */
  lemma TitleOffset(title: Option<string>, files: seq<ContentFile>, extract: string -> seq<Paragraph>)
    requires Prepare(title, files, extract).Success?
    ensures |QueuedTitle(title)| == FirstParagraphIndex(Prepare(title, files, extract).value.titleIndex)
  {
  }

  /** Unit `j` of document `i` has its text at position `Count(files[..i]) + j`
      of the document texts. */
  lemma {:induction false} GatherAt(files: seq<ContentFile>, unit: ContentFile -> Option<seq<string>>, i: nat, j: nat)
    requires Gather(files, unit).Success?
    requires i < |files| && unit(files[i]).Some? && j < |unit(files[i]).value|
    ensures Total(files[..i], unit) + j < |Gather(files, unit).value|
    ensures Gather(files, unit).value[Total(files[..i], unit) + j] == unit(files[i]).value[j]
    decreases |files|
  {
    var prefix := files[..|files| - 1];
    if i == |files| - 1 {
      assert files[..i] == prefix;
    } else {
      assert prefix[..i] == files[..i] && prefix[i] == files[i];
      GatherAt(prefix, unit, i, j);
    }
  }

  lemma StrippedAt(title: seq<string>, texts: seq<string>, n: nat)
    requires n < |texts|
    ensures |title| + n < |StripNewlines(title + texts)|
    ensures StripNewlines(title + texts)[|title| + n] == RemoveChar(texts[n], '\n')
  {
    assert (title + texts)[|title| + n] == texts[n];
  }

  /** Where a unit's text is queued: after the title, if any, and after the
      units of all earlier documents. */
  lemma QueueAlignment(title: Option<string>, files: seq<ContentFile>, extract: string -> seq<Paragraph>, i: nat, j: nat)
    requires Prepare(title, files, extract).Success?
    requires i < |files| && files[i].Decoded? && j < |FileParagraphs(files[i], extract)|
    ensures var p := Prepare(title, files, extract).value;
      var key := |QueuedTitle(title)| + Count(files[..i], extract) + j;
      key < |p.queue| && p.queue[key] == RemoveChar(FileParagraphs(files[i], extract)[j].text, '\n')
  {
    var ps := FileParagraphs(files[i], extract);
    UnitsOfIs(files[i], extract);
    GatherAt(files, UnitsOf(extract), i, j);
    assert Texts(ps)[j] == ps[j].text;
    StrippedAt(QueuedTitle(title), FileTexts(files, extract).value, Count(files[..i], extract) + j);
  }

  /** The same position counted from the title index the preparation
      records. */
  lemma QueuedAt(title: Option<string>, files: seq<ContentFile>, extract: string -> seq<Paragraph>, i: nat, j: nat)
    requires Prepare(title, files, extract).Success?
    requires i < |files| && files[i].Decoded? && j < |FileParagraphs(files[i], extract)|
    ensures var p := Prepare(title, files, extract).value;
      var key := FirstParagraphIndex(p.titleIndex) + Count(files[..i], extract) + j;
      key < |p.queue| && p.queue[key] == RemoveChar(FileParagraphs(files[i], extract)[j].text, '\n')
  {
    var p := Prepare(title, files, extract).value;
    QueueAlignment(title, files, extract, i, j);
    TitleOffset(title, files, extract);
    var c := Count(files[..i], extract) + j;
    assert |QueuedTitle(title)| + c == FirstParagraphIndex(p.titleIndex) + c;
  }
}
