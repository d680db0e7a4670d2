/** Turning a document into chapters: the table-of-contents walk of
    `process_pdf`, the item filter of `process_epub`, and the loop in `main`
    that removes repeated titles from every chapter's text. The document
    libraries are abstracted away: a PDF is its sequence of page texts and
    its table of contents, an EPUB is its sequence of items. */
module Chapters {
  import opened Text
  import opened Normalizer
  import opened Dedup

  /** One table-of-contents entry: level, title and 1-based start page. */
  datatype TocEntry = TocEntry(level: int, title: string, start: int)

  /** One output record: `{"title": ..., "text": ...}`. */
  datatype Chapter = Chapter(title: string, text: string)

  /** One EPUB item: whether it is a document, its name, and the text the
      HTML parser extracts from it. */
  datatype EpubItem = EpubItem(isDocument: bool, name: string, content: string)

  /** Loading a page the document does not have fails. */
  datatype PdfError = PageOutOfRange(page: int)

  datatype Result<T> = Ok(value: T) | Err(error: PdfError)

  /** `title.strip() and title.strip()[0].isdigit()` */
  predicate IsChapterTitle(title: string) {
    var t := Strip(title);
    t != [] && IsDigit(t[0])
  }

  /** Every entry that becomes a chapter starts at page 1 or later. Other
      entries (an outline item without a page target has start -1) only
      mark where the previous chapter ends, and may start anywhere. */
  predicate StartsValid(toc: seq<TocEntry>) {
    forall i :: 0 <= i < |toc| && IsChapterTitle(toc[i].title) ==> toc[i].start >= 1
  }

  // ---------------------------------------------------------------------
  // process_pdf

  /** Index one past the last page of entry `i`: the page before the next
      entry's start, whatever that entry is, or the page count for the
      last entry. */
  function EndPage(pages: seq<string>, toc: seq<TocEntry>, i: nat): int
    requires i < |toc|
  {
    if i + 1 < |toc| then toc[i + 1].start - 1 else |pages|
  }

  /** The texts of pages `s` up to (excluding) `e`, concatenated; loading
      stops at the first page the document does not have. */
  function PageRun(pages: seq<string>, s: nat, e: int): (r: Result<string>)
    ensures r.Ok? <==> e <= s || e <= |pages|
    ensures r.Err? ==> r.error.page >= |pages| && r.error.page >= s && r.error.page < e
    ensures r.Err? ==> r.error.page == |pages| || r.error.page == s
  {
    if e <= s then Ok([])
    else if e <= |pages| then Ok(Concat(pages[s..e]))
    else Err(PageOutOfRange(if s < |pages| then |pages| else s))
  }

  /** The chapter entry `i` yields, or the error loading its pages. */
  function ChapterAt(pages: seq<string>, toc: seq<TocEntry>, i: nat): Result<Chapter>
    requires i < |toc| && IsChapterTitle(toc[i].title) && toc[i].start >= 1
  {
    match PageRun(pages, toc[i].start - 1, EndPage(pages, toc, i))
    case Err(e) => Err(e)
    case Ok(t) => Ok(Chapter(toc[i].title, CleanText(t)))
  }

  /** Chapters already made, then the outcome of the rest. */
  function Then(done: seq<Chapter>, rest: Result<seq<Chapter>>): (r: Result<seq<Chapter>>)
    ensures r.Ok? <==> rest.Ok?
    ensures r.Ok? ==> r.value == done + rest.value
  {
    match rest
    case Err(e) => Err(e)
    case Ok(cs) => Ok(done + cs)
  }

  /** The chapters of entries `i` onwards, in table-of-contents order; the
      first entry whose pages cannot be loaded ends the walk with its
      error. */
  function PdfFrom(pages: seq<string>, toc: seq<TocEntry>, i: nat): Result<seq<Chapter>>
    requires StartsValid(toc) && i <= |toc|
    decreases |toc| - i
  {
    if i == |toc| then Ok([])
    else if !IsChapterTitle(toc[i].title) then PdfFrom(pages, toc, i + 1)
    else
      match ChapterAt(pages, toc, i)
      case Err(e) => Err(e)
      case Ok(c) => Then([c], PdfFrom(pages, toc, i + 1))
  }

  /** `process_pdf`, given the page texts and the table of contents. */
  function PdfChapters(pages: seq<string>, toc: seq<TocEntry>): Result<seq<Chapter>>
    requires StartsValid(toc)
  {
    PdfFrom(pages, toc, 0)
  }

  method ProcessPdf(pages: seq<string>, toc: seq<TocEntry>) returns (r: Result<seq<Chapter>>)
    requires StartsValid(toc)
    ensures r == PdfChapters(pages, toc)
  {
    if toc == [] {
      return Ok([]);
    }
    var chapters: seq<Chapter> := [];
    var i := 0;
    ThenNothing(PdfChapters(pages, toc));
    while i < |toc|
      invariant 0 <= i <= |toc|
      invariant Then(chapters, PdfFrom(pages, toc, i)) == PdfChapters(pages, toc)
    {
      var entry := toc[i];
      if !IsChapterTitle(entry.title) {
        i := i + 1;
        continue;
      }
      var start := entry.start - 1;
      var end := if i + 1 < |toc| then toc[i + 1].start - 1 else |pages|;
      var run := LoadPages(pages, start, end);
      if run.Err? {
        ThenErr(chapters, pages, toc, i, run.error);
        return Err(run.error);
      }
      var cleaned := CleanPageText(run.value);
      ThenChapter(chapters, Chapter(entry.title, cleaned), pages, toc, i);
      chapters := chapters + [Chapter(entry.title, cleaned)];
      i := i + 1;
    }
    assert chapters + [] == chapters;
    return Ok(chapters);
  }

  lemma ThenNothing(r: Result<seq<Chapter>>)
    ensures Then([], r) == r
  {
    if r.Ok? {
      assert [] + r.value == r.value;
    }
  }

  /** The page-loading loop of `process_pdf`: the texts of pages `start`
      up to `end`, appended in order, or the first page that is missing. */
  method LoadPages(pages: seq<string>, start: nat, end: int) returns (r: Result<string>)
    ensures r == PageRun(pages, start, end)
  {
    var text := "";
    var page := start;
    while page < end
      invariant page == start || start < page <= end
      invariant page <= |pages| || page == start
      invariant page == start ==> text == []
      invariant page <= |pages| ==> text == Concat(pages[start..page])
    {
      if page >= |pages| {
        PageRunFails(pages, start, end, page);
        return Err(PageOutOfRange(page));
      }
      assert pages[start..page + 1] == pages[start..page] + [pages[page]];
      ConcatSnoc(pages[start..page], pages[page]);
      text := text + pages[page];
      page := page + 1;
    }
    PageRunLoaded(pages, start, end, page, text);
    return Ok(text);
  }

  /** The loading loop stops at the first missing page, which is where the
      run of pages fails. */
  lemma PageRunFails(pages: seq<string>, s: nat, e: int, page: int)
    requires s <= page < e && page >= |pages| && (page <= |pages| || page == s)
    ensures PageRun(pages, s, e) == Err(PageOutOfRange(page))
  {
  }

  /** When every page of the run was loaded, the text is the run's. */
  lemma PageRunLoaded(pages: seq<string>, s: nat, e: int, page: int, text: string)
    requires (page == s || s < page <= e) && page >= e
    requires page <= |pages| || page == s
    requires page == s ==> text == []
    requires page <= |pages| ==> text == Concat(pages[s..page])
    ensures PageRun(pages, s, e) == Ok(text)
  {
    if s < e {
      assert page == e && e <= |pages|;
    } else {
      assert page == s;
    }
  }

  lemma ThenErr(done: seq<Chapter>, pages: seq<string>, toc: seq<TocEntry>, i: nat, e: PdfError)
    requires StartsValid(toc) && i < |toc| && IsChapterTitle(toc[i].title)
    requires ChapterAt(pages, toc, i) == Err(e)
    ensures Then(done, PdfFrom(pages, toc, i)) == Err(e)
  {
  }

  lemma ThenChapter(done: seq<Chapter>, c: Chapter, pages: seq<string>, toc: seq<TocEntry>, i: nat)
    requires StartsValid(toc) && i < |toc| && IsChapterTitle(toc[i].title)
    requires ChapterAt(pages, toc, i) == Ok(c)
    ensures Then(done, PdfFrom(pages, toc, i)) == Then(done + [c], PdfFrom(pages, toc, i + 1))
  {
    var rest := PdfFrom(pages, toc, i + 1);
    if rest.Ok? {
      assert done + ([c] + rest.value) == done + [c] + rest.value;
    }
  }

  // ---------------------------------------------------------------------
  // Properties of process_pdf

  /** An empty table of contents yields no chapters. */
  lemma PdfEmptyToc(pages: seq<string>)
    ensures PdfChapters(pages, []) == Ok([])
  {
  }

  /** The indices, from `i` on, of the entries whose title makes them
      chapters, in increasing order. */
  function ChapterEntries(toc: seq<TocEntry>, i: nat): (idx: seq<nat>)
    requires i <= |toc|
    ensures forall k :: 0 <= k < |idx| ==> i <= idx[k] < |toc| && IsChapterTitle(toc[idx[k]].title)
    ensures forall k, l :: 0 <= k < l < |idx| ==> idx[k] < idx[l]
    ensures forall j :: i <= j < |toc| && IsChapterTitle(toc[j].title) ==> j in idx
    decreases |toc| - i
  {
    if i == |toc| then []
    else if IsChapterTitle(toc[i].title) then [i] + ChapterEntries(toc, i + 1)
    else ChapterEntries(toc, i + 1)
  }

  /** The pages of entry `i` all exist, or its range is empty. */
  predicate PagesExist(pages: seq<string>, toc: seq<TocEntry>, i: nat)
    requires i < |toc|
  {
    EndPage(pages, toc, i) <= toc[i].start - 1 || EndPage(pages, toc, i) <= |pages|
  }

  /** From any entry on, there are as many chapters as chapter entries. */
  lemma {:induction false} PdfFromLength(pages: seq<string>, toc: seq<TocEntry>, i: nat)
    requires StartsValid(toc) && i <= |toc| && PdfFrom(pages, toc, i).Ok?
    ensures |PdfFrom(pages, toc, i).value| == |ChapterEntries(toc, i)|
    decreases |toc| - i
  {
    if i < |toc| {
      PdfFromLength(pages, toc, i + 1);
      if IsChapterTitle(toc[i].title) {
        PdfFromCons(pages, toc, i, ChapterAt(pages, toc, i).value, PdfFrom(pages, toc, i + 1).value);
      }
    }
  }

  /** From any entry on, the `k`-th chapter is the chapter of the `k`-th
      chapter entry. */
  lemma {:induction false} PdfFromAt(pages: seq<string>, toc: seq<TocEntry>, i: nat, k: nat)
    requires StartsValid(toc) && i <= |toc| && PdfFrom(pages, toc, i).Ok?
    requires k < |ChapterEntries(toc, i)|
    ensures k < |PdfFrom(pages, toc, i).value|
    ensures ChapterAt(pages, toc, ChapterEntries(toc, i)[k]) == Ok(PdfFrom(pages, toc, i).value[k])
    decreases |toc| - i
  {
    PdfFromLength(pages, toc, i);
    var rest := ChapterEntries(toc, i + 1);
    if !IsChapterTitle(toc[i].title) {
      PdfFromAt(pages, toc, i + 1, k);
    } else {
      var c, cs := ChapterAt(pages, toc, i).value, PdfFrom(pages, toc, i + 1).value;
      PdfFromCons(pages, toc, i, c, cs);
      assert ChapterEntries(toc, i) == [i] + rest;
      if k > 0 {
        PdfFromAt(pages, toc, i + 1, k - 1);
        assert ChapterEntries(toc, i)[k] == rest[k - 1];
        assert ([c] + cs)[k] == cs[k - 1];
      }
    }
  }

  /** A chapter entry whose pages load puts its chapter in front of the
      chapters of the entries after it. */
  lemma PdfFromCons(pages: seq<string>, toc: seq<TocEntry>, i: nat, c: Chapter, cs: seq<Chapter>)
    requires StartsValid(toc) && i < |toc| && IsChapterTitle(toc[i].title)
    requires ChapterAt(pages, toc, i) == Ok(c) && PdfFrom(pages, toc, i + 1) == Ok(cs)
    ensures PdfFrom(pages, toc, i) == Ok([c] + cs)
  {
  }

  /** `process_pdf` returns one chapter per entry whose stripped title
      starts with a digit, in order: its title is the entry's title and its
      text is the cleaned concatenation of the entry's pages. */
  lemma PdfChaptersShape(pages: seq<string>, toc: seq<TocEntry>)
    requires StartsValid(toc) && PdfChapters(pages, toc).Ok?
    ensures |PdfChapters(pages, toc).value| == |ChapterEntries(toc, 0)|
    ensures forall k :: 0 <= k < |ChapterEntries(toc, 0)| ==>
      var j := ChapterEntries(toc, 0)[k];
      var s, e := toc[j].start - 1, EndPage(pages, toc, j);
      PagesExist(pages, toc, j) &&
      PdfChapters(pages, toc).value[k] ==
        Chapter(toc[j].title, CleanText(if e <= s then [] else Concat(pages[s..e])))
  {
    PdfFromLength(pages, toc, 0);
    forall k | 0 <= k < |ChapterEntries(toc, 0)|
      ensures var j := ChapterEntries(toc, 0)[k];
        ChapterAt(pages, toc, j) == Ok(PdfChapters(pages, toc).value[k])
    {
      PdfFromAt(pages, toc, 0, k);
    }
  }

  /** Every chapter entry from `i` on has all its pages. */
  predicate PagesExistFrom(pages: seq<string>, toc: seq<TocEntry>, i: nat) {
    forall j :: i <= j < |toc| && IsChapterTitle(toc[j].title) ==> PagesExist(pages, toc, j)
  }

  /** An entry's chapter can be made exactly when its pages exist. */
  lemma ChapterAtOk(pages: seq<string>, toc: seq<TocEntry>, i: nat)
    requires i < |toc| && IsChapterTitle(toc[i].title) && toc[i].start >= 1
    ensures ChapterAt(pages, toc, i).Ok? <==> PagesExist(pages, toc, i)
  {
  }

  /** The walk from entry `i` succeeds exactly when every chapter entry
      from `i` on has all its pages. */
  lemma {:induction false} PdfFromOk(pages: seq<string>, toc: seq<TocEntry>, i: nat)
    requires StartsValid(toc) && i <= |toc|
    ensures PdfFrom(pages, toc, i).Ok? <==> PagesExistFrom(pages, toc, i)
    decreases |toc| - i
  {
    if i < |toc| {
      PdfFromOk(pages, toc, i + 1);
      if IsChapterTitle(toc[i].title) {
        ChapterAtOk(pages, toc, i);
      }
      PagesExistFromStep(pages, toc, i);
    }
  }

  lemma PagesExistFromStep(pages: seq<string>, toc: seq<TocEntry>, i: nat)
    requires i < |toc|
    ensures PagesExistFrom(pages, toc, i) <==>
      (IsChapterTitle(toc[i].title) ==> PagesExist(pages, toc, i)) && PagesExistFrom(pages, toc, i + 1)
  {
  }

  /** When the walk fails, the error is that of the first chapter entry
      whose pages do not all exist. */
  lemma {:induction false} PdfFromErr(pages: seq<string>, toc: seq<TocEntry>, i: nat)
    requires StartsValid(toc) && i <= |toc| && PdfFrom(pages, toc, i).Err?
    ensures exists j :: (i <= j < |toc| && IsChapterTitle(toc[j].title) &&
      ChapterAt(pages, toc, j) == Err(PdfFrom(pages, toc, i).error) &&
      forall l :: i <= l < j && IsChapterTitle(toc[l].title) ==> PagesExist(pages, toc, l))
    decreases |toc| - i
  {
    var e := PdfFrom(pages, toc, i).error;
    if IsChapterTitle(toc[i].title) && ChapterAt(pages, toc, i).Err? {
      assert ChapterAt(pages, toc, i) == Err(e);
    } else {
      if IsChapterTitle(toc[i].title) {
        ChapterAtOk(pages, toc, i);
      }
      PdfFromErr(pages, toc, i + 1);
      var j :| i + 1 <= j < |toc| && IsChapterTitle(toc[j].title) &&
        ChapterAt(pages, toc, j) == Err(e) &&
        forall l :: i + 1 <= l < j && IsChapterTitle(toc[l].title) ==> PagesExist(pages, toc, l);
      assert forall l :: i <= l < j && IsChapterTitle(toc[l].title) ==> PagesExist(pages, toc, l);
    }
  }

  /** `process_pdf` fails exactly when some chapter entry has a page the
      document does not have, and then with the error of the first such
      entry. */
  lemma PdfChaptersOk(pages: seq<string>, toc: seq<TocEntry>)
    requires StartsValid(toc)
    ensures PdfChapters(pages, toc).Ok? <==> PagesExistFrom(pages, toc, 0)
    ensures PdfChapters(pages, toc).Err? ==>
      exists j :: (0 <= j < |toc| && IsChapterTitle(toc[j].title) &&
        ChapterAt(pages, toc, j) == Err(PdfChapters(pages, toc).error) &&
        !PagesExist(pages, toc, j) &&
        forall l :: 0 <= l < j && IsChapterTitle(toc[l].title) ==> PagesExist(pages, toc, l))
  {
    PdfFromOk(pages, toc, 0);
    if PdfChapters(pages, toc).Err? {
      PdfFromErr(pages, toc, 0);
      var j :| 0 <= j < |toc| && IsChapterTitle(toc[j].title) &&
        ChapterAt(pages, toc, j) == Err(PdfChapters(pages, toc).error) &&
        forall l :: 0 <= l < j && IsChapterTitle(toc[l].title) ==> PagesExist(pages, toc, l);
      ChapterAtOk(pages, toc, j);
    }
  }

  /** A chapter ends where the next entry starts even when that entry is
      not itself a chapter: its title plays no part. */
  lemma NextTitleIgnored(pages: seq<string>, toc: seq<TocEntry>, i: nat, t: string)
    requires i + 1 < |toc| && IsChapterTitle(toc[i].title) && toc[i].start >= 1
    ensures ChapterAt(pages, toc, i) == ChapterAt(pages, toc[i + 1 := toc[i + 1].(title := t)], i)
  {
    var toc' := toc[i + 1 := toc[i + 1].(title := t)];
    assert toc'[i] == toc[i] && toc'[i + 1].start == toc[i + 1].start;
  }

  /** An entry whose range holds no page yields a chapter with empty text. */
  lemma EmptyRangeEmptyText(pages: seq<string>, toc: seq<TocEntry>, i: nat)
    requires i < |toc| && IsChapterTitle(toc[i].title) && toc[i].start >= 1
    requires EndPage(pages, toc, i) <= toc[i].start - 1
    ensures ChapterAt(pages, toc, i) == Ok(Chapter(toc[i].title, []))
  {
    assert SplitLines([]) == [];
  }

  /** A chapter followed by an entry without a page target (start 0 or
      -1) ends before it begins: its text is empty. */
  lemma UntargetedNextEntry(pages: seq<string>, toc: seq<TocEntry>, i: nat)
    requires i + 1 < |toc| && IsChapterTitle(toc[i].title) && toc[i].start >= 1
    requires toc[i + 1].start <= 0
    ensures ChapterAt(pages, toc, i) == Ok(Chapter(toc[i].title, []))
  {
    EmptyRangeEmptyText(pages, toc, i);
  }

  /** A table of contents with an untargeted, non-chapter entry between two
      chapters: the first chapter is empty, the entry itself is skipped, and
      the last chapter runs to the end of the document. */
  lemma UntargetedEntryBetween(pages: seq<string>, a: TocEntry, b: TocEntry, c: TocEntry)
    requires IsChapterTitle(a.title) && a.start >= 1
    requires !IsChapterTitle(b.title) && b.start == -1
    requires IsChapterTitle(c.title) && c.start >= 1
    ensures StartsValid([a, b, c])
    ensures PdfChapters(pages, [a, b, c]) ==
      Ok([Chapter(a.title, []), Chapter(c.title, CleanText(PageRun(pages, c.start - 1, |pages|).value))])
  {
    var toc := [a, b, c];
    var last := Chapter(c.title, CleanText(PageRun(pages, c.start - 1, |pages|).value));
    assert toc[0] == a && toc[1] == b && toc[2] == c;
    UntargetedNextEntry(pages, toc, 0);
    assert ChapterAt(pages, toc, 2) == Ok(last);
    assert PdfFrom(pages, toc, 3) == Ok([]);
    assert [last] + [] == [last];
    assert PdfFrom(pages, toc, 2) == Then([last], Ok([]));
    assert PdfFrom(pages, toc, 1) == Ok([last]);
    assert PdfFrom(pages, toc, 0) == Then([Chapter(a.title, [])], Ok([last]));
    assert [Chapter(a.title, [])] + [last] == [Chapter(a.title, []), last];
  }

  // ---------------------------------------------------------------------
  // process_epub

  /** The chapter an EPUB item would give. */
  function ItemChapter(item: EpubItem): Chapter {
    Chapter(item.name, CleanText(item.content))
  }

  /** A document item is kept when its cleaned text is not empty and its
      stripped name starts with a digit. */
  predicate Kept(item: EpubItem) {
    item.isDocument && CleanText(item.content) != [] && IsChapterTitle(item.name)
  }

  /** `process_epub`, given the items of the book in order. */
  function EpubChapters(items: seq<EpubItem>): seq<Chapter> {
    if items == [] then []
    else
      var last := items[|items| - 1];
      EpubChapters(items[..|items| - 1]) + (if Kept(last) then [ItemChapter(last)] else [])
  }

  method ProcessEpub(items: seq<EpubItem>) returns (chapters: seq<Chapter>)
    ensures chapters == EpubChapters(items)
  {
    chapters := [];
    var i := 0;
    while i < |items|
      invariant 0 <= i <= |items|
      invariant chapters == EpubChapters(items[..i])
    {
      var item := items[i];
      assert items[..i + 1][..i] == items[..i];
      if item.isDocument {
        var text := CleanPageText(item.content);
        var title := item.name;
        if text != [] && IsChapterTitle(title) {
          chapters := chapters + [Chapter(title, text)];
        }
      }
      i := i + 1;
    }
    assert items[..i] == items;
  }

  /** Chapters of consecutive runs of items follow one another. */
  lemma {:induction false} EpubAppend(a: seq<EpubItem>, b: seq<EpubItem>)
    ensures EpubChapters(a + b) == EpubChapters(a) + EpubChapters(b)
    decreases |b|
  {
    if b == [] {
      assert a + b == a;
    } else {
      var b' := b[..|b| - 1];
      assert (a + b)[..|a + b| - 1] == a + b';
      EpubAppend(a, b');
    }
  }

  /** Every EPUB chapter comes from a kept item: a non-empty cleaned text
      under a name that starts with a digit. */
  lemma {:induction false} EpubSound(items: seq<EpubItem>)
    ensures forall c :: c in EpubChapters(items) ==>
      c.text != [] && IsChapterTitle(c.title) &&
      exists j :: 0 <= j < |items| && Kept(items[j]) && c == ItemChapter(items[j])
  {
    if items != [] {
      var front := items[..|items| - 1];
      EpubSound(front);
      forall c | c in EpubChapters(items)
        ensures exists j :: 0 <= j < |items| && Kept(items[j]) && c == ItemChapter(items[j])
      {
        if c in EpubChapters(front) {
          var j :| 0 <= j < |front| && Kept(front[j]) && c == ItemChapter(front[j]);
          assert items[j] == front[j];
        } else {
          assert Kept(items[|items| - 1]) && c == ItemChapter(items[|items| - 1]);
        }
      }
    }
  }

  /** Every kept item gives a chapter. */
  lemma {:induction false} EpubComplete(items: seq<EpubItem>, j: nat)
    requires j < |items| && Kept(items[j])
    ensures ItemChapter(items[j]) in EpubChapters(items)
    decreases |items|
  {
    var front := items[..|items| - 1];
    if j < |items| - 1 {
      assert items[j] == front[j];
      EpubComplete(front, j);
    }
  }

  // ---------------------------------------------------------------------
  // The title-removal loop of main

  /** A chapter whose text has lost the repeated occurrences of its
      title. */
  function Deduped(c: Chapter): Chapter {
    c.(text := RemoveRepeatedTitles(c.text, c.title))
  }

  /** Each chapter is replaced by its deduplicated form; the number of
      chapters and their order stay as they were. */
  method RemoveTitles(chapters: array<Chapter>)
    modifies chapters
    ensures forall k :: 0 <= k < chapters.Length ==> chapters[k] == Deduped(old(chapters[k]))
  {
    ghost var before := chapters[..];
    for i := 0 to chapters.Length
      invariant forall k :: 0 <= k < i ==> chapters[k] == Deduped(before[k])
      invariant chapters[i..] == before[i..]
    {
      assert chapters[i] == before[i];
      chapters[i] := Deduped(chapters[i]);
    }
  }

  /** Deduplication keeps the title and replaces only the text. */
  lemma DedupedKeepsTitle(c: Chapter)
    ensures Deduped(c).title == c.title
    ensures Deduped(c).text == RemoveRepeatedTitles(c.text, c.title)
  {
  }
}
