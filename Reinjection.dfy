/**
 * Putting translations back into a content document
 * (`EpubIO.replaceParagraphs`): every replaced span is rebuilt as a `<p>`
 * element that keeps the original open tag's attributes when the span has
 * the shape `<p…>…</p>`, and everything between the spans is kept.
 */
module Reinjection {
  import opened Wrappers
  import opened Chars
  import opened Extraction

  // ---------------------------------------------------------------------------
  // Rebuilding one span
  // ---------------------------------------------------------------------------

  /** Offsets where `$` matches: the end of the text, or just before a final
      line terminator (a final CR LF counts as one). */
  predicate IsEndAt(o: string, q: nat) {
    || q == |o|
    || (q + 1 == |o| && IsLineTerminator(o[q]))
    || (q + 2 == |o| && o[q] == '\r' && o[q + 1] == '\n')
  }

  /** A close tag `</p>` followed by the end of the text can start at or after
      `from`. The only candidates are the three offsets before the end that
      `$` allows. */
  predicate CloseBeforeEnd(o: string, from: nat) {
    || (from + 4 <= |o| && HasAt(o, |o| - 4, "</p>"))
    || (from + 5 <= |o| && IsLineTerminator(o[|o| - 1]) && HasAt(o, |o| - 5, "</p>"))
    || (from + 6 <= |o| && o[|o| - 2] == '\r' && o[|o| - 1] == '\n' && HasAt(o, |o| - 6, "</p>"))
  }

  /** Group 1 of `(?is)^<p(.*?)>(.*?)</p>$` on the original span text: the
      attributes between `<p` and the first `>`, when the whole pattern
      matches. A later `>` cannot make the match succeed where the first one
      fails, so the lazy group always stops at the first one. */
  function AttrsOf(o: string): (r: Option<string>)
    ensures r.Some? ==> HasAt(o, 0, "<p") && 2 + |r.value| < |o| && o[2 + |r.value|] == '>'
    ensures r.Some? ==> r.value == o[2..2 + |r.value|] && '>' !in r.value
    ensures r.Some? ==> exists q :: 3 + |r.value| <= q && HasAt(o, q, "</p>") && IsEndAt(o, q + 4)
  {
    if !HasAt(o, 0, "<p") then None
    else match FindChar(o, '>', 2)
      case None => None
      case Some(a) =>
        if CloseBeforeEnd(o, a + 1) then
          assert |o[2..a]| == a - 2;
          CloseBeforeEndWitness(o, a + 1);
          Some(o[2..a])
        else None
  }

  lemma CloseBeforeEndWitness(o: string, from: nat)
    requires CloseBeforeEnd(o, from)
    ensures exists q :: from <= q && HasAt(o, q, "</p>") && IsEndAt(o, q + 4)
  {
    if from + 4 <= |o| && HasAt(o, |o| - 4, "</p>") {
      assert IsEndAt(o, |o|);
    } else if from + 5 <= |o| && IsLineTerminator(o[|o| - 1]) && HasAt(o, |o| - 5, "</p>") {
      assert IsEndAt(o, |o| - 1);
    } else {
      assert IsEndAt(o, |o| - 2);
    }
  }

  /** The text written in place of a span whose original text is `o`. */
  function Rebuild(o: string, t: string): string {
    match AttrsOf(o)
    case Some(attrs) => "<p" + attrs + ">" + t + "</p>"
    case None => "<p>" + t + "</p>"
  }

  /** A span that is a `<p…>…</p>` element keeps its open tag's attributes
      and gets the new inner text. */
  lemma RebuildKeepsAttributes(attrs: string, inner: string, t: string)
    requires '>' !in attrs
    ensures Rebuild("<p" + attrs + ">" + inner + "</p>", t) == "<p" + attrs + ">" + t + "</p>"
  {
    var o := "<p" + attrs + ">" + inner + "</p>";
    var a := 2 + |attrs|;
    assert o[0..2] == "<p";
    forall k | 2 <= k < a
      ensures o[k] != '>'
    {
      assert o[k] == attrs[k - 2];
    }
    FindCharIs(o, '>', 2, a);
    assert o[|o| - 4..] == "</p>";
    assert CloseBeforeEnd(o, a + 1);
    AttrsOfIs(o, a);
    assert o[2..a] == attrs;
  }

  /** The attributes are what lies between `<p` and the first `>` when a
      close tag ends the text. */
  lemma AttrsOfIs(o: string, a: nat)
    requires HasAt(o, 0, "<p") && 2 <= |o| && FindChar(o, '>', 2) == Some(a)
    requires CloseBeforeEnd(o, a + 1)
    ensures AttrsOf(o) == Some(o[2..a])
  {
  }

  /** A bare `<p>…</p>` element stays bare. */
  lemma RebuildBare(inner: string, t: string)
    ensures Rebuild("<p>" + inner + "</p>", t) == "<p>" + t + "</p>"
  {
    assert "<p" + "" + ">" + inner + "</p>" == "<p>" + inner + "</p>";
    RebuildKeepsAttributes("", inner, t);
    assert "<p" + "" + ">" + t + "</p>" == "<p>" + t + "</p>";
  }

  /** Rebuilding a `<p…>…</p>` element with its own inner text gives it back. */
  lemma RebuildIdentity(attrs: string, inner: string)
    requires '>' !in attrs
    ensures Rebuild("<p" + attrs + ">" + inner + "</p>", inner) == "<p" + attrs + ">" + inner + "</p>"
  {
    RebuildKeepsAttributes(attrs, inner, inner);
  }

  /** A span that does not start with `<p` becomes a bare paragraph. */
  lemma RebuildFallback(o: string, t: string)
    requires !HasAt(o, 0, "<p")
    ensures Rebuild(o, t) == "<p>" + t + "</p>"
  {
  }

  /** A span ending in neither `</p>` nor `</p>` and a line terminator also
      becomes a bare paragraph, whatever its start. */
  lemma RebuildFallbackWithoutClose(o: string, t: string)
    requires forall q :: 0 <= q <= |o| && IsEndAt(o, q + 4) ==> !HasAt(o, q, "</p>")
    ensures Rebuild(o, t) == "<p>" + t + "</p>"
  {
  }

  // ---------------------------------------------------------------------------
  // The replacement keys and the order they are applied in
  // ---------------------------------------------------------------------------

  /** What the caller guarantees: every span lies inside the document, is not
      empty, and no two spans overlap. */
  predicate SpansFit(keys: set<Span>, n: nat) {
    && (forall s :: s in keys ==> s.lo < s.hi <= n)
    && (forall s, t :: s in keys && t in keys && s != t ==> s.hi <= t.lo || t.hi <= s.lo)
  }

  /** No two keys start at the same offset, so sorting by start is strict. */
  predicate DistinctStarts(keys: set<Span>) {
    forall s, t :: s in keys && t in keys && s != t ==> s.lo != t.lo
  }

  lemma SpansFitDistinct(keys: set<Span>, n: nat)
    requires SpansFit(keys, n)
    ensures DistinctStarts(keys)
  {
  }

  predicate StrictlyAscending(r: seq<Span>) {
    forall i, j :: 0 <= i < j < |r| ==> r[i].lo < r[j].lo
  }

  predicate StrictlyDescending(r: seq<Span>) {
    forall i, j :: 0 <= i < j < |r| ==> r[i].lo > r[j].lo
  }

  /** Every non-empty finite set of spans has one with the lowest start. */
  lemma {:induction false} LowestExists(keys: set<Span>)
    requires keys != {}
    ensures exists m :: m in keys && forall t :: t in keys ==> m.lo <= t.lo
    decreases |keys|
  {
    var x :| x in keys;
    if keys - {x} != {} {
      LowestExists(keys - {x});
      var m :| m in keys - {x} && forall t :: t in keys - {x} ==> m.lo <= t.lo;
      if x.lo < m.lo {
        assert forall t :: t in keys ==> x.lo <= t.lo;
      } else {
        assert forall t :: t in keys ==> m.lo <= t.lo;
      }
    } else {
      assert keys == {x};
    }
  }

  /** Every non-empty finite set of spans has one with the highest start. */
  lemma {:induction false} HighestExists(keys: set<Span>)
    requires keys != {}
    ensures exists m :: m in keys && forall t :: t in keys ==> t.lo <= m.lo
    decreases |keys|
  {
    var x :| x in keys;
    if keys - {x} != {} {
      HighestExists(keys - {x});
      var m :| m in keys - {x} && forall t :: t in keys - {x} ==> t.lo <= m.lo;
      if x.lo > m.lo {
        assert forall t :: t in keys ==> t.lo <= x.lo;
      } else {
        assert forall t :: t in keys ==> t.lo <= m.lo;
      }
    } else {
      assert keys == {x};
    }
  }

  /** The spans of `keys` listed by increasing start. */
  ghost function Ascending(keys: set<Span>): (r: seq<Span>)
    ensures |r| == |keys|
    ensures forall s :: s in r <==> s in keys
    decreases |keys|
  {
    if keys == {} then []
    else
      LowestExists(keys);
      var m :| m in keys && forall t :: t in keys ==> m.lo <= t.lo;
      [m] + Ascending(keys - {m})
  }

  lemma {:induction false} AscendingIsAscending(keys: set<Span>)
    requires DistinctStarts(keys)
    ensures StrictlyAscending(Ascending(keys))
    decreases |keys|
  {
    if keys != {} {
      var r := Ascending(keys);
      var m := r[0];
      var rest := keys - {m};
      var tail := Ascending(rest);
      assert r == [m] + tail;
      AscendingIsAscending(rest);
      AscendingCons(m, tail, rest);
    }
  }

  lemma AscendingCons(m: Span, tail: seq<Span>, rest: set<Span>)
    requires StrictlyAscending(tail)
    requires forall s :: s in tail <==> s in rest
    requires forall t :: t in rest ==> m.lo < t.lo
    ensures StrictlyAscending([m] + tail)
  {
    var r := [m] + tail;
    forall i, j | 0 <= i < j < |r|
      ensures r[i].lo < r[j].lo
    {
      assert r[j] == tail[j - 1];
      if i == 0 {
        assert tail[j - 1] in rest;
      } else {
        assert r[i] == tail[i - 1];
      }
    }
  }

  /** Two strictly ascending listings of the same spans are the same listing. */
  lemma {:induction false} AscendingUnique(a: seq<Span>, b: seq<Span>)
    requires StrictlyAscending(a) && StrictlyAscending(b)
    requires |a| == |b| && forall s :: s in a <==> s in b
    ensures a == b
    decreases |a|
  {
    if a != [] {
      AscendingHead(a, b[0]);
      AscendingHead(b, a[0]);
      forall s | s in a[1..]
        ensures s in b[1..]
      {
        AscendingTail(a, s);
        AscendingRest(b, s);
      }
      forall s | s in b[1..]
        ensures s in a[1..]
      {
        AscendingTail(b, s);
        AscendingRest(a, s);
      }
      AscendingUnique(a[1..], b[1..]);
      assert a == [a[0]] + a[1..] && b == [b[0]] + b[1..];
    }
  }

  /** The first span of an ascending listing has the lowest start. */
  lemma AscendingHead(a: seq<Span>, s: Span)
    requires StrictlyAscending(a) && s in a
    ensures a[0].lo <= s.lo
  {
  }

  /** The spans after the first start later than it. */
  lemma AscendingTail(a: seq<Span>, s: Span)
    requires StrictlyAscending(a) && a != [] && s in a[1..]
    ensures s in a && a[0].lo < s.lo
  {
    var j :| 0 <= j < |a| - 1 && a[1..][j] == s;
    assert a[j + 1] == s;
  }

  /** A member that starts later than the first span is among the rest. */
  lemma AscendingRest(a: seq<Span>, s: Span)
    requires StrictlyAscending(a) && a != [] && s in a && a[0].lo < s.lo
    ensures s in a[1..]
  {
    var i :| 0 <= i < |a| && a[i] == s;
    assert a[1..][i - 1] == s;
  }

  function Reverse(s: seq<Span>): (r: seq<Span>)
    ensures |r| == |s|
    ensures forall k :: 0 <= k < |s| ==> r[k] == s[|s| - 1 - k]
  {
    if s == [] then [] else [s[|s| - 1]] + Reverse(s[..|s| - 1])
  }

  /** The order Swift's `sorted { $0.lowerBound > $1.lowerBound }` produces. */
  method SortByStartDescending(keys: set<Span>) returns (ordered: seq<Span>)
    requires DistinctStarts(keys)
    ensures StrictlyDescending(ordered)
    ensures |ordered| == |keys| && forall s :: s in ordered <==> s in keys
  {
    var rest := keys;
    ordered := [];
    while rest != {}
      invariant rest <= keys && |ordered| + |rest| == |keys|
      invariant forall s :: s in ordered <==> s in keys && s !in rest
      invariant StrictlyDescending(ordered)
      invariant forall s, t :: s in ordered && t in rest ==> t.lo < s.lo
      decreases |rest|
    {
      HighestExists(rest);
      var m :| m in rest && forall t :: t in rest ==> t.lo <= m.lo;
      assert forall t :: t in rest - {m} ==> t.lo < m.lo;
      ordered := ordered + [m];
      rest := rest - {m};
    }
  }

  /** Reversing the descending listing gives the ascending one. */
  lemma DescendingReversed(keys: set<Span>, ordered: seq<Span>)
    requires DistinctStarts(keys)
    requires StrictlyDescending(ordered)
    requires |ordered| == |keys| && forall s :: s in ordered <==> s in keys
    ensures Reverse(ordered) == Ascending(keys)
  {
    var r := Reverse(ordered);
    forall s
      ensures s in r <==> s in ordered
    {
      if s in ordered {
        var k :| 0 <= k < |ordered| && ordered[k] == s;
        assert r[|ordered| - 1 - k] == s;
      }
      if s in r {
        var k :| 0 <= k < |r| && r[k] == s;
      }
    }
    AscendingIsAscending(keys);
    AscendingUnique(r, Ascending(keys));
  }

  // ---------------------------------------------------------------------------
  // The document after all replacements
  // ---------------------------------------------------------------------------

  /** Spans listed in document order, starting at or after `from`, not
      overlapping and ending inside a document of length `n`. */
  predicate Chain(asc: seq<Span>, from: nat, n: nat)
    decreases |asc|
  {
    if asc == [] then from <= n
    else from <= asc[0].lo < asc[0].hi <= n && Chain(asc[1..], asc[0].hi, n)
  }

  lemma {:induction false} ChainWeaken(asc: seq<Span>, a: nat, b: nat, n: nat)
    requires a <= b && Chain(asc, b, n)
    ensures Chain(asc, a, n)
  {
  }

  /** Ascending, fitting spans form a chain from offset 0. */
  lemma {:induction false} AscendingChain(keys: set<Span>, n: nat, from: nat)
    requires SpansFit(keys, n) && from <= n
    requires forall s :: s in keys ==> from <= s.lo
    ensures Chain(Ascending(keys), from, n)
    decreases |keys|
  {
    if keys != {} {
      var r := Ascending(keys);
      var m := r[0];
      var rest := keys - {m};
      assert r == [m] + Ascending(rest);
      assert forall t :: t in keys ==> m.lo <= t.lo;
      forall t | t in rest
        ensures m.hi <= t.lo
      {
      }
      AscendingChain(rest, n, m.hi);
      assert r[1..] == Ascending(rest);
    }
  }

  /** The document from `from` on, with each span of `asc` replaced by its
      piece of text and the text between spans kept. */
  function Assemble(html: string, asc: seq<Span>, pieces: map<Span, string>, from: nat): string
    requires Chain(asc, from, |html|)
    requires forall s :: s in asc ==> s in pieces
    decreases |asc|
  {
    if asc == [] then html[from..]
    else
      var s := asc[0];
      html[from..s.lo] + pieces[s] + Assemble(html, asc[1..], pieces, s.hi)
  }

  /** The text written in place of each span: the span's original text rebuilt
      around its replacement. */
  function Rebuilt(html: string, reps: map<Span, string>): (r: map<Span, string>)
    requires SpansFit(reps.Keys, |html|)
    ensures r.Keys == reps.Keys
  {
    map s | s in reps.Keys :: Rebuild(html[s.lo..s.hi], reps[s])
  }

  /** What `replaceParagraphs(in:replacements:)` returns. */
  ghost function Spliced(html: string, reps: map<Span, string>): string
    requires SpansFit(reps.Keys, |html|)
  {
    AscendingChain(reps.Keys, |html|, 0);
    Assemble(html, Ascending(reps.Keys), Rebuilt(html, reps), 0)
  }

  /** Text kept in front of a chain can be moved into the assembly. */
  lemma AssembleShift(html: string, asc: seq<Span>, pieces: map<Span, string>, a: nat, b: nat)
    requires a <= b && Chain(asc, b, |html|)
    requires forall s :: s in asc ==> s in pieces
    ensures Chain(asc, a, |html|)
    ensures html[a..b] + Assemble(html, asc, pieces, b) == Assemble(html, asc, pieces, a)
  {
    ChainWeaken(asc, a, b, |html|);
    if asc == [] {
      assert html[a..b] + html[b..] == html[a..];
    } else {
      var s := asc[0];
      var tail := Assemble(html, asc[1..], pieces, s.hi);
      assert Assemble(html, asc, pieces, b) == html[b..s.lo] + pieces[s] + tail;
      assert Assemble(html, asc, pieces, a) == html[a..s.lo] + pieces[s] + tail;
      SliceJoin(html, a, b, s.lo, pieces[s], tail);
    }
  }

  lemma SliceJoin(html: string, a: nat, b: nat, c: nat, x: string, y: string)
    requires a <= b <= c <= |html|
    ensures html[a..b] + (html[b..c] + x + y) == html[a..c] + x + y
  {
    assert html[a..b] + html[b..c] == html[a..c];
  }

  /** One replacement step: writing the piece for span `r`, which ends before
      the part already assembled, extends the assembly to start at `r.lo`. */
  lemma SpliceStep(html: string, done: seq<Span>, pieces: map<Span, string>, bound: nat, r: Span, current: string)
    requires Chain(done, bound, |html|) && r.lo < r.hi <= bound
    requires r in pieces && forall s :: s in done ==> s in pieces
    requires current == html[..bound] + Assemble(html, done, pieces, bound)
    ensures Chain([r] + done, r.lo, |html|)
    ensures current[r.lo..r.hi] == html[r.lo..r.hi]
    ensures current[..r.lo] + pieces[r] + current[r.hi..]
         == html[..r.lo] + Assemble(html, [r] + done, pieces, r.lo)
  {
    var assembled := Assemble(html, done, pieces, bound);
    ChainWeaken(done, r.hi, bound, |html|);
    PrefixSlices(html, bound, assembled, r.lo, r.hi);
    AssembleShift(html, done, pieces, r.hi, bound);
    AssembleCons(html, r, done, pieces);
    var head, mid := html[..r.lo], html[r.hi..bound] + assembled;
    assert current[..r.lo] + pieces[r] + current[r.hi..] == head + pieces[r] + mid;
  }

  /** One step of the assembly, with nothing kept in front of the first span. */
  lemma AssembleCons(html: string, r: Span, done: seq<Span>, pieces: map<Span, string>)
    requires r.lo < r.hi && Chain(done, r.hi, |html|) && r.hi <= |html|
    requires r in pieces && forall s :: s in done ==> s in pieces
    ensures Chain([r] + done, r.lo, |html|)
    ensures Assemble(html, [r] + done, pieces, r.lo) == pieces[r] + Assemble(html, done, pieces, r.hi)
  {
    var rs := [r] + done;
    assert rs[0] == r && rs[1..] == done;
    assert html[r.lo..r.lo] == [];
  }

  /** Slices of a text that begins with the first `bound` characters of `html`. */
  lemma PrefixSlices(html: string, bound: nat, tail: string, lo: nat, hi: nat)
    requires lo <= hi <= bound <= |html|
    ensures var current := html[..bound] + tail;
      && current[..lo] == html[..lo]
      && current[lo..hi] == html[lo..hi]
      && current[hi..] == html[hi..bound] + tail
  {
  }

  lemma ReverseStep(ordered: seq<Span>, i: nat)
    requires i < |ordered|
    ensures Reverse(ordered[..i + 1]) == [ordered[i]] + Reverse(ordered[..i])
  {
    assert ordered[..i + 1][..i] == ordered[..i];
  }

  /** After the first `i` spans of the descending order have been replaced,
      the document is the original up to `bound` (the start of the last span
      replaced) followed by the assembly of the replaced spans. */
  ghost predicate ReplacedDownTo(html: string, reps: map<Span, string>, ordered: seq<Span>, i: nat, bound: nat, current: string)
  {
    && SpansFit(reps.Keys, |html|)
    && i <= |ordered| && bound <= |html|
    && (forall k :: 0 <= k < |ordered| ==> ordered[k] in reps)
    && (forall k :: i <= k < |ordered| ==> ordered[k].hi <= bound)
    && Chain(Reverse(ordered[..i]), bound, |html|)
    && current == html[..bound] + Assemble(html, Reverse(ordered[..i]), Rebuilt(html, reps), bound)
  }

  /** Before any replacement the whole document is still the original. */
  lemma ReplaceStart(html: string, reps: map<Span, string>, ordered: seq<Span>)
    requires SpansFit(reps.Keys, |html|)
    requires forall s :: s in ordered <==> s in reps.Keys
    ensures ReplacedDownTo(html, reps, ordered, 0, |html|, html)
  {
    assert ordered[..0] == [];
    assert Reverse(ordered[..0]) == [];
    assert html[..|html|] + html[|html|..] == html;
  }

  /** Replacing the next span in descending order keeps ReplacedDownTo. */
  lemma ReplaceStep(html: string, reps: map<Span, string>, ordered: seq<Span>, i: nat, bound: nat, current: string)
    requires ReplacedDownTo(html, reps, ordered, i, bound, current) && i < |ordered|
    requires StrictlyDescending(ordered)
    ensures var r := ordered[i];
      && r.lo < r.hi <= bound
      && current[r.lo..r.hi] == html[r.lo..r.hi]
      && ReplacedDownTo(html, reps, ordered, i + 1, r.lo,
           current[..r.lo] + Rebuild(current[r.lo..r.hi], reps[r]) + current[r.hi..])
  {
    var r := ordered[i];
    var pieces := Rebuilt(html, reps);
    SpliceStep(html, Reverse(ordered[..i]), pieces, bound, r, current);
    ReverseStep(ordered, i);
    forall k | i + 1 <= k < |ordered|
      ensures ordered[k].hi <= r.lo
    {
      assert ordered[k].lo < r.lo;
    }
  }

  lemma TakeAll(s: seq<Span>)
    ensures s[..|s|] == s
  {
  }

  /** Once every span has been replaced, the document is the spliced one. */
  lemma ReplaceDone(html: string, reps: map<Span, string>, ordered: seq<Span>, bound: nat, current: string)
    requires ReplacedDownTo(html, reps, ordered, |ordered|, bound, current)
    requires StrictlyDescending(ordered)
    requires |ordered| == |reps.Keys| && forall s :: s in ordered <==> s in reps.Keys
    ensures current == Spliced(html, reps)
  {
    SpansFitDistinct(reps.Keys, |html|);
    DescendingReversed(reps.Keys, ordered);
    var asc := Reverse(ordered);
    var pieces := Rebuilt(html, reps);
    TakeAll(ordered);
    assert current == html[..bound] + Assemble(html, asc, pieces, bound);
    AssembleShift(html, asc, pieces, 0, bound);
    assert html[..bound] == html[0..bound];
  }

  /** `EpubIO.replaceParagraphs`: applies the replacements from the last
      span to the first, so that each span's offsets are still those of the
      original document when it is replaced. */
  method ReplaceParagraphs(html: string, replacements: map<Span, string>) returns (newHtml: string)
    requires SpansFit(replacements.Keys, |html|)
    ensures newHtml == Spliced(html, replacements)
  {
    newHtml := html;
    SpansFitDistinct(replacements.Keys, |html|);
    var ordered := SortByStartDescending(replacements.Keys);
    ghost var bound: nat := |html|;
    ReplaceStart(html, replacements, ordered);
    var i := 0;
    while i < |ordered|
      invariant ReplacedDownTo(html, replacements, ordered, i, bound, newHtml)
    {
      var range := ordered[i];
      ReplaceStep(html, replacements, ordered, i, bound, newHtml);
      var original := newHtml[range.lo..range.hi];
      var attrs := AttrsOf(original);
      var replacement;
      if attrs.Some? {
        replacement := "<p" + attrs.value + ">" + replacements[range] + "</p>";
      } else {
        replacement := "<p>" + replacements[range] + "</p>";
      }
      assert replacement == Rebuild(original, replacements[range]);
      newHtml := newHtml[..range.lo] + replacement + newHtml[range.hi..];
      bound := range.lo;
      i := i + 1;
    }
    ReplaceDone(html, replacements, ordered, bound, newHtml);
  }

  // ---------------------------------------------------------------------------
  // Properties of the spliced document
  // ---------------------------------------------------------------------------

  /** No replacements leave the document as it was. */
  lemma SplicedEmpty(html: string)
    ensures SpansFit({}, |html|)
    ensures Spliced(html, map[]) == html
  {
    var none: map<Span, string> := map[];
    assert none.Keys == {};
    assert Ascending({}) == [];
  }

  /** A single replacement changes exactly its span. */
  lemma SplicedSingle(html: string, s: Span, t: string)
    requires s.lo < s.hi <= |html|
    ensures SpansFit(map[s := t].Keys, |html|)
    ensures Spliced(html, map[s := t])
         == html[..s.lo] + Rebuild(html[s.lo..s.hi], t) + html[s.hi..]
  {
    var reps := map[s := t];
    assert reps.Keys == {s};
    var r := Ascending({s});
    assert s in r;
    assert |r| == 1 by {
      assert r == [r[0]] + Ascending({s} - {r[0]});
      assert {s} - {r[0]} == {};
    }
    assert r == [s];
    var pieces := Rebuilt(html, reps);
    assert Assemble(html, [], pieces, s.hi) == html[s.hi..];
    assert Assemble(html, [s], pieces, 0) == html[0..s.lo] + pieces[s] + html[s.hi..];
  }

  /** Replacing one span that covers the whole text rebuilds all of it. */
  lemma SplicedWhole(html: string, t: string)
    requires |html| > 0
    ensures SpansFit(map[Span(0, |html|) := t].Keys, |html|)
    ensures Spliced(html, map[Span(0, |html|) := t]) == Rebuild(html, t)
  {
    var whole := Span(0, |html|);
    SplicedSingle(html, whole, t);
    var r := Rebuild(html[0..|html|], t);
    assert html[0..|html|] == html;
    WholeSlices(html, r);
  }

  lemma WholeSlices(html: string, x: string)
    ensures html[..0] + x + html[|html|..] == x
  {
    assert html[..0] == [] && html[|html|..] == [];
  }

  /** When every piece is the span's own text, assembling gives the original
      text back. */
  lemma {:induction false} AssembleIdentity(html: string, asc: seq<Span>, pieces: map<Span, string>, from: nat)
    requires Chain(asc, from, |html|)
    requires forall s :: s in asc ==> s in pieces && s.lo <= s.hi <= |html| && pieces[s] == html[s.lo..s.hi]
    ensures Assemble(html, asc, pieces, from) == html[from..]
    decreases |asc|
  {
    if asc != [] {
      var s := asc[0];
      assert asc[0] in asc;
      forall x | x in asc[1..]
        ensures x in asc
      {
      }
      AssembleIdentity(html, asc[1..], pieces, s.hi);
      assert html[from..s.lo] + html[s.lo..s.hi] + html[s.hi..] == html[from..];
    }
  }

  /** Round trip: putting back the original inner text of each `<p…>…</p>`
      span leaves the document unchanged. */
  lemma SplicedIdentity(html: string, reps: map<Span, string>)
    requires SpansFit(reps.Keys, |html|)
    requires forall s :: s in reps ==>
      exists attrs :: '>' !in attrs && html[s.lo..s.hi] == "<p" + attrs + ">" + reps[s] + "</p>"
    ensures Spliced(html, reps) == html
  {
    AscendingChain(reps.Keys, |html|, 0);
    var pieces := Rebuilt(html, reps);
    forall s | s in reps
      ensures pieces[s] == html[s.lo..s.hi]
    {
      var attrs :| '>' !in attrs && html[s.lo..s.hi] == "<p" + attrs + ">" + reps[s] + "</p>";
      RebuildIdentity(attrs, reps[s]);
    }
    AssembleIdentity(html, Ascending(reps.Keys), pieces, 0);
  }

  /** `x` is a suffix of `y`. */
  predicate IsSuffix(x: string, y: string) {
    |x| <= |y| && y[|y| - |x|..] == x
  }

  /** The text after the last span is kept at the end of the assembly. */
  lemma {:induction false} AssembleKeepsEnd(html: string, asc: seq<Span>, pieces: map<Span, string>, from: nat)
    requires Chain(asc, from, |html|) && asc != []
    requires forall s :: s in asc ==> s in pieces
    ensures asc[|asc| - 1].hi <= |html|
    ensures IsSuffix(html[asc[|asc| - 1].hi..], Assemble(html, asc, pieces, from))
    decreases |asc|
  {
    var s := asc[0];
    var front := html[from..s.lo] + pieces[s];
    var rest := Assemble(html, asc[1..], pieces, s.hi);
    assert Assemble(html, asc, pieces, from) == front + rest;
    if |asc| == 1 {
      assert rest == html[s.hi..];
    } else {
      forall x | x in asc[1..]
        ensures x in asc
      {
      }
      AssembleKeepsEnd(html, asc[1..], pieces, s.hi);
      assert asc[1..][|asc| - 2] == asc[|asc| - 1];
    }
  }

  /** Splicing keeps the document's text before the first span and after the
      last span. */
  lemma SplicedKeepsEnds(html: string, reps: map<Span, string>)
    requires SpansFit(reps.Keys, |html|) && reps != map[]
    ensures var asc := Ascending(reps.Keys);
      && asc != []
      && asc[|asc| - 1].hi <= |html|
      && html[..asc[0].lo] <= Spliced(html, reps)
      && IsSuffix(html[asc[|asc| - 1].hi..], Spliced(html, reps))
  {
    var asc := Ascending(reps.Keys);
    var k :| k in reps.Keys;
    assert k in asc;
    AscendingChain(reps.Keys, |html|, 0);
    AssembleKeepsEnd(html, asc, Rebuilt(html, reps), 0);
  }
}
