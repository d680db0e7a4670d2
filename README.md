# Book-to-JSON text pipeline, modelled in Dafny

The converter turns a PDF or EPUB book into a list of chapters. Each chapter has
a `title` and a `text`. The core is a text-cleaning pipeline. It
appears twice in the repository, because `booktojson.py` and `txtparse.py` are
line-for-line duplicates apart from console messages and the output file name.
One model covers both.

- **Line normaliser** (`clean_page_text`), in module `Normalizer`:
  - splits the page text into lines and strips each line;
  - drops blank lines and digit-only lines (page numbers);
  - removes the hyphen from a line that ends in one, and glues the rest with no
    space onto the next surviving line;
  - emits any pending hyphen buffer at the end;
  - joins the pieces with single spaces.

  The loop is the method `CleanPageText`. It is proved equal to the
  specification function `CleanText`, and the properties are proved about
  `CleanText`.
- **Running-header suppressor** (`remove_repeated_titles`), in module `Dedup`.
  This is a pure function:
  - the phrase is the title without its leading spaces and digits, then stripped;
  - the text is kept verbatim up to and including the phrase's first
    occurrence;
  - in the remainder, every left-to-right match of an optional whitespace
    character, the phrase, and an optional whitespace character becomes one
    space. `ReplacePhrase` is the explicit greedy scan that stands in for the
    regex;
  - finally, whitespace runs are collapsed and the remainder is stripped.
- **Chapter assembly**, in module `Chapters`:
  - `ProcessPdf` is the table-of-contents walk of `process_pdf`. It filters
    entries by title and computes each page range; its inner page loop is
    `LoadPages`.
  - `ProcessEpub` is the item filter of `process_epub`.
  - `RemoveTitles` is the loop in `main` that rewrites every chapter's text in
    place.
- **Python string primitives**, in module `Text`: the behaviour of
  `str.strip`, `str.isdigit`, `str.splitlines` and `' '.join`, together with
  the whitespace class `\s`.

The document libraries are abstracted:
- a PDF is the sequence of its page texts plus its table of contents, given as
  `TocEntry(level, title, start)` triples;
- an EPUB is the sequence of its items, each with a document flag, a name and
  its already-extracted text.

`load_page` raises when asked for a page index at or past the page count. The
model returns that as `Err(PageOutOfRange(page))`, carrying the first missing
page, and the error ends the whole walk, as the exception does.

**Titles with dotted numbering.** `lstrip(' 0123456789')` removes only
spaces and digits, so for the title `"1. Intro"` it stops at the `.` and the
phrase is `". Intro"`. In `"1. Intro blah Intro more Intro end"` that phrase
occurs only at index 1, so the later bare `Intro`s are not removed and the text
is returned unchanged. The model follows the code:
- `Dedup.PhraseAfterNumbering` shows that the phrase is everything after the
  leading spaces and digits, dot included.
- `Dedup.RemoveLeavesTidyText` covers a text in which the phrase occurs once
  and is followed by one space and then non-empty `Tidy` text: no leading,
  trailing or doubled whitespace, and every whitespace character a plain
  space. Such a text is returned unchanged. A tab in the remainder would
  become a space.

## Model

| member | source | states |
|---|---|---|
| Normalizer.CleanPageText | booktojson.py:13-36 | The buffered loop returns exactly `CleanText(text)`: the stripped lines that are neither blank nor digit-only, hyphen-glued, joined by single spaces. Its result holds no line break. |
| Normalizer.CleanTextNoBreaks | booktojson.py:15-36 | The cleaned text never contains a line-break character. Lines come from splitting at the breaks and are joined only with spaces. |
| Normalizer.SurvivorsNoBreaks | booktojson.py:15-26 | Every stripped line that survives the filters is free of line breaks, because `splitlines` produced it. |
| Normalizer.PiecesNoBreaks | booktojson.py:28-35 | Gluing hyphenated lines introduces no line break. |
| Normalizer.JoinSpaceNoBreaks | booktojson.py:36 | Joining break-free pieces with `' '` gives a break-free text. |
| Normalizer.CleanTextOfBlankAndNumbers | booktojson.py:20-36 | A text whose every line is blank or digit-only after stripping cleans to `""`. |
| Normalizer.SurvivorsNone | booktojson.py:20-26 | If no line survives stripping and the two filters, no piece is produced. |
| Normalizer.CleanTextWithoutHyphens | booktojson.py:18-36 | When no surviving line ends in `-`, the result is exactly the stripped, non-blank, non-digit lines joined by `' '`. |
| Normalizer.PiecesWithoutHyphens | booktojson.py:28-32 | Lines that do not end in `-` each become one piece, unchanged and in order. |
| Normalizer.GlueRun | booktojson.py:28-32 | A run of lines ending in `-`, followed by a line that does not, gives a single piece: the stems of the whole run, in order, then that line, with no spaces. This is `buffer += line[:-1]` accumulating until `cleaned.append(buffer + line)`, e.g. `"inter-"`, `"na-"`, `"tional"` give `"international"`. |
| Normalizer.HyphenJoinsLines | booktojson.py:28-32 | For the two-line text `a + "\n" + b`, where stripped `a` survives and ends in a hyphen, and stripped `b` survives and does not end in one, the result is stripped `a` minus its hyphen, glued to stripped `b`. When `b` also ends in a hyphen, nothing is glued here: both stems stay in the pending buffer, which `PendingBufferEmitted` describes. |
| Normalizer.HyphenJoinsAcrossPageNumber | booktojson.py:25-32 | A digit-only line between the hyphenated line and its continuation is skipped before the hyphen check, so the two halves still glue. |
| Normalizer.HyphenatedWord | booktojson.py:28-32 | `"inter-\nnational"` cleans to `"international"`. |
| Normalizer.ContinuedAcrossPageNumber | booktojson.py:25-32 | `"continu-\n42\ning"` cleans to `"continuing"`. |
| Normalizer.PendingBufferEmitted | booktojson.py:34-35 | A final run of hyphen-ending lines is emitted as one last piece, the concatenation of their stems, when that is not empty. |
| Normalizer.PiecesAppend | booktojson.py:31-32 | A line that does not end in `-` empties the buffer. Pieces of a prefix that ends in such a line are followed, unaffected, by the pieces of the rest. |
| Normalizer.PiecesNonEmpty | booktojson.py:31 | Lines ending in a line without a hyphen always produce at least one piece. |
| Text.IsSpace | booktojson.py:20 | The whitespace `str.strip()` and `\s` remove: Python's full list for `str`. |
| Text.IsLineBreak | booktojson.py:15 | The characters `str.splitlines()` splits at. |
| Text.IsDigit | booktojson.py:25 | The digit class of `isdigit()`, of `title.strip()[0].isdigit()` (line 50) and of the `lstrip` set at line 91: the ASCII digits. |
| Text.AllDigits | booktojson.py:25 | `line.isdigit()`: non-empty and all ASCII digits. |
| Text.EndsWithHyphen | booktojson.py:28 | `line.endswith('-')`. |
| Text.SplitLines | booktojson.py:15 | `splitlines`: no line contains a break; the lines concatenated are the text without its breaks; the text is empty exactly when there are no lines. The lemmas below pin down the lines themselves. |
| Text.SplitSingleLine | booktojson.py:15 | A non-empty text without breaks is one line. |
| Text.SplitAtBreak | booktojson.py:15 | A break-free line followed by any one break character is split off as the first line, and the break is lost. A trailing break opens no empty line. The excluded case, `'\r'` directly before `'\n'`, is `SplitAtCrLf`. |
| Text.SplitAtCrLf | booktojson.py:15 | `"\r\n"` is one boundary: the line before it is split off and both characters are lost. |
| Text.Strip | booktojson.py:20 | `strip()` is no longer than the line and neither starts nor ends with whitespace. `StripSlice` and `StripEmpty` give the rest. |
| Text.JoinSpace | booktojson.py:36 | `' '.join`: no parts give `""`, and one part gives that part unchanged. `JoinSpaceAppend` gives the rest. |
| Text.JoinSpaceAppend | booktojson.py:36 | Joining two non-empty runs of parts is their two joins with exactly one space between. With the one-part case this fixes `' '.join` on every input: the parts in order, one space between neighbours. |
| Normalizer.Survivors | booktojson.py:18-26 | The lines, each stripped, keeping only those that are non-empty and not all digits, in order. No kept line fails those tests. `SurvivorsNone` and `SurvivorsNoBreaks` give the rest. |
| Normalizer.Survives | booktojson.py:22-26 | A stripped line is kept when it is non-empty and not `isdigit()`. |
| Normalizer.Stem | booktojson.py:29 | `line[:-1]` for a line that ends in `-`. |
| Normalizer.Stems | booktojson.py:29 | The `buffer` built by a run of hyphen lines: their stems concatenated in order. |
| Normalizer.Prepend | booktojson.py:29-35 | The pending buffer glued onto the next emitted piece, or emitted alone at the end when non-empty. |
| Normalizer.Pieces | booktojson.py:28-35 | The pieces `cleaned` holds at the end, defined from the right: a hyphen line prefixes its stem to what follows. There are never more pieces than lines. `PiecesWithoutHyphens`, `GlueRun`, `PendingBufferEmitted` and `PiecesAppend` give its behaviour. |
| Normalizer.CleanText | booktojson.py:13-36 | The reference definition of `clean_page_text`, written right-recursively over the lines: strip, keep survivors, glue hyphen stems, then join. `CleanPageText` is proved equal to it. |
| Text.StripEmpty | booktojson.py:20-23 | A line strips to empty exactly when it is all whitespace. |
| Text.StripSlice | booktojson.py:20 | `strip` returns a slice of the line, and everything it cut off is whitespace. |
| Text.StripKeepsNonSpace | booktojson.py:20 | Stripping removes only whitespace. |
| Text.JoinSpaceChars | booktojson.py:36 | `' '.join` introduces no character besides the space. |
| Dedup.TrimNumbering | booktojson.py:91 | `lstrip(' 0123456789')` returns a suffix of the title. Everything it removed is spaces and digits, and what is left does not start with a space or a digit. |
| Dedup.Phrase | booktojson.py:91-92 | The phrase is the trimmed title, stripped. Its properties are `PhraseAfterNumbering` and `TrimNumberingAll`. |
| Dedup.TrimNumberingAll | booktojson.py:91 | A title made only of spaces and digits trims to `""`. |
| Dedup.PhraseAfterNumbering | booktojson.py:91-92 | The phrase of numbering followed by `p` is exactly `p` whenever `p` starts with neither a space, a digit nor whitespace, and does not end in whitespace. For `"1. Intro"`, that makes the phrase `". Intro"`. |
| Dedup.FindFrom | booktojson.py:97 | The search behind `find`, from index `i` on: -1 or an index at or after `i` where the phrase fits. `FindFromFirst` gives the first such index. |
| Dedup.Find | booktojson.py:97 | `text.find(phrase)` is -1 or an index at which the phrase fits in the text. `FindFirstOccurrence` characterises it. |
| Dedup.FindFromFirst | booktojson.py:97 | `find` from an index returns the first occurrence at or after it, or -1 when there is none. |
| Dedup.FindFirstOccurrence | booktojson.py:97-99 | `find` returns -1 exactly when the phrase does not occur; otherwise it returns an occurrence with none before it. |
| Dedup.RemoveRepeatedTitles | booktojson.py:86-117 | `remove_repeated_titles`: the text up to the end of the phrase's first occurrence is kept. In the remainder, every `\s?phrase\s?` match, taken left to right, becomes one space, and then whitespace is collapsed and stripped. A replacement can rebuild the phrase (`RebuiltPhrase`). The rows that follow give its properties. |
| Dedup.RemovePhrase | booktojson.py:93-117 | The body of `remove_repeated_titles` once the phrase is known: the empty and absent cases, then the split at the first occurrence. |
| Dedup.KeepFirst | booktojson.py:101-117 | The kept prefix, joined by `Rejoin` to the remainder after substitution, collapse and strip. `KeepFirstShape` gives its shape. |
| Dedup.RemoveEmptyPhrase | booktojson.py:91-94 | An empty phrase returns the text unchanged. |
| Dedup.NumberingOnlyTitle | booktojson.py:91-94 | A title of spaces and digits only leaves the text unchanged. |
| Dedup.RemoveAbsentPhrase | booktojson.py:97-99 | A phrase that does not occur leaves the text unchanged. |
| Dedup.RemoveWithoutHead | booktojson.py:97-99 | A text that lacks the phrase's first character is returned unchanged. |
| Dedup.RemoveKeepsFirstOccurrence | booktojson.py:97-102 | At the phrase's first occurrence, the text splits into `before`, up to and including the phrase, and `after`. The result is computed from exactly those two. |
| Dedup.RemovePhraseFound | booktojson.py:97-102 | An unfolding of `RemovePhrase`: with `find` returning `pos`, the phrase fits in the text and the result is the split at `pos + len(phrase)`. |
| Dedup.KeepFirstShape | booktojson.py:101-117 | The result starts with `before` verbatim. The rest is `' '` plus the cleaned remainder, or nothing when that remainder is empty. The cleaned remainder has no leading or trailing whitespace and no two adjacent whitespace characters. |
| Dedup.Rejoin | booktojson.py:117 | `before + ' ' + rest if rest else before`. `RejoinSplit` and `RejoinNonSpace` state what it keeps. |
| Dedup.RejoinSplit | booktojson.py:117 | The conditional join keeps `before` as the exact prefix and adds a separating space only before a non-empty remainder. |
| Dedup.RejoinNonSpace | booktojson.py:117 | The conditional join adds no character except whitespace. |
| Dedup.KeepFirstWithoutRepeat | booktojson.py:101-117 | When the remainder does not contain the phrase, the result has the same non-whitespace characters, in order, as `before` followed by `after`. |
| Dedup.RemoveWithoutRepeat | booktojson.py:97-117 | A phrase that occurs only once changes nothing but whitespace. |
| Dedup.ReplaceAbsent | booktojson.py:106-112 | With no occurrence of the phrase, the substitution changes nothing. |
| Dedup.ReplaceAbsentWithoutHead | booktojson.py:106-112 | Text lacking the phrase's first character passes through the substitution unchanged. |
| Dedup.ReplaceSurrounded | booktojson.py:106-112 | A match made of a space, the phrase and a space becomes one space, and the scan goes on after it. |
| Dedup.ReplaceCopies | booktojson.py:106-112 | A stretch that cannot start a match is copied verbatim, and the scan resumes after it. |
| Dedup.ReplaceOneRepeat | booktojson.py:106-112 | `y + " p " + z` becomes `y + " " + z` when neither part holds the phrase's first character. |
| Dedup.ReplaceTwoRepeats | booktojson.py:106-112 | Two space-surrounded repeats in a row each become a single space. |
| Dedup.RemoveRepeatsBetween | booktojson.py:97-117 | Take `p x p y p z` joined by single spaces, where `p` does not start with a space. Let `x`, `y` and `z` be non-empty and tidy, and let none of them contain the phrase's first character. Then the result is `p x y z`: the first occurrence stays and the later ones go. |
| Dedup.ReplaceRebuilds | booktojson.py:106-112 | The scan over `"aa bb"` with phrase `"a b"` copies the first `a` and turns the match `"a b"` into one space, giving `"a b"` again. |
| Dedup.RebuiltPhrase | booktojson.py:97-117 | `"a baa bb"` with phrase `"a b"` gives `"a b a b"`: the phrase is not gone from the remainder, because a replacement rebuilt it. |
| Dedup.RemoveLeavesTidyText | booktojson.py:97-117 | Suppose the text after the first occurrence is one space followed by non-empty tidy text, and the phrase does not occur in that remainder. Then the result is the text itself. |
| Dedup.MatchLen | booktojson.py:106 | A match of the pattern is at least as long as the phrase and fits in the text. `MatchLenFound` says when there is one and how long it is. |
| Dedup.MatchLenFound | booktojson.py:106 | An unfolding of `MatchLen`, stated for the reader: a match starts at the front exactly when the phrase is there, or after one whitespace character. A whitespace character is taken before the phrase when possible, and one after it when present. |
| Dedup.ReplacePhrase | booktojson.py:106-112 | `pattern.sub(replacer, after)`: the left-to-right scan replacing each match by one space and copying other characters. The `Replace*` rows give its behaviour. |
| Dedup.NoMatchHere | booktojson.py:106 | No match starts at a character that is neither the phrase's first character nor whitespace followed by it. |
| Dedup.Collapse | booktojson.py:115 | `re.sub(r'\s+', ' ', s)` is no longer than `s`, is empty exactly when `s` is, and starts with whitespace exactly when `s` does. `CollapseRun` and `CollapseAppend` give its value. |
| Dedup.CollapseRun | booktojson.py:115 | A whitespace run followed by a non-whitespace character, or by the end, becomes exactly one space. It is replaced, not dropped. |
| Dedup.CollapseAppend | booktojson.py:115 | A split just after a non-whitespace character does not interact with collapsing: each side is collapsed on its own. |
| Dedup.CollapseBetween | booktojson.py:115 | A whitespace run between two tidy texts becomes one space, and the texts are unchanged. |
| Dedup.Tidied | booktojson.py:115 | `re.sub(r'\s+', ' ', s).strip()`. `TidiedIsTidy`, `TidiedOfTidy`, `TidiedAfterSpace` and `TidiedSpaceRun` give its properties. |
| Dedup.TidiedSpaceRun | booktojson.py:115 | Any whitespace run between two tidy texts becomes exactly one space: `"a  b"` gives `"a b"`, not `"ab"`. |
| Dedup.CollapseSingleSpaced | booktojson.py:115 | After collapsing, whitespace appears only as single `' '` characters. |
| Dedup.CollapseNonSpace | booktojson.py:115 | Collapsing keeps every non-whitespace character, in order. |
| Dedup.CollapseSingleSpacedFixed | booktojson.py:115 | A single-spaced text is left as it is by the collapse. |
| Dedup.CollapseIdempotent | booktojson.py:115 | Collapsing twice is the same as collapsing once. |
| Dedup.TidiedIsTidy | booktojson.py:115 | Collapse then strip gives a text with no leading or trailing whitespace and no double whitespace, and with the same non-whitespace characters. |
| Dedup.TidiedOfTidy | booktojson.py:115 | Collapse then strip leaves an already tidy text as it is. |
| Dedup.TidiedAfterSpace | booktojson.py:115 | Collapse then strip removes a single leading space from a tidy text. |
| Dedup.TidyJoin | booktojson.py:115 | Two tidy, non-empty texts joined by one space are tidy. |
| Chapters.StartsValid | booktojson.py:50-53 | Every entry whose title makes it a chapter has a start page of at least 1. Other entries may start anywhere. This is the precondition admitted under "Left out". |
| Chapters.ProcessPdf | booktojson.py:39-64 | The TOC walk returns exactly `PdfChapters(pages, toc)`. The properties of that function are the lemmas below. Only chapter entries must start at page 1 or later. |
| Chapters.PdfChapters | booktojson.py:39-64 | `process_pdf` as a function: the walk from the first entry. |
| Chapters.PdfFrom | booktojson.py:48-62 | The walk from entry `i`: non-chapter entries are skipped, a chapter entry contributes its chapter, and the first load error ends the walk. |
| Chapters.IsChapterTitle | booktojson.py:50 | `title.strip()` is non-empty and starts with a digit. The same test is used by `process_epub`. |
| Chapters.EndPage | booktojson.py:54 | The next entry's start minus one, whatever that entry is, or the page count for the last entry. |
| Chapters.ChapterAt | booktojson.py:53-62 | A chapter entry's chapter: its title and the cleaned text of its page run, or the load error. |
| Chapters.LoadPages | booktojson.py:56-58 | The page loop returns the concatenated pages `[start, end)`, or the error for the first page past the end of the document. |
| Text.Concat | booktojson.py:56-58 | The `text +=` accumulation: the page texts concatenated in order. `ConcatSnoc` relates it to the loop. |
| Chapters.PageRun | booktojson.py:56-58 | Loading succeeds exactly when the range is empty or lies inside the document. On failure, the reported page lies inside the range and is the first missing one: the page count, or the start page when the start is already past the end. |
| Chapters.PdfEmptyToc | booktojson.py:43-45 | An empty TOC yields no chapters. |
| Chapters.ChapterEntries | booktojson.py:48-52 | The TOC entries whose stripped title starts with a digit, all of them and in TOC order. |
| Chapters.PdfFromLength | booktojson.py:48-62 | From any entry on, there are exactly as many chapters as chapter entries. |
| Chapters.PdfFromAt | booktojson.py:48-62 | From any entry on, the k-th chapter is the chapter of the k-th chapter entry, so the chapters follow the chapter entries one to one and in order. |
| Chapters.PdfChaptersShape | booktojson.py:47-62 | The k-th chapter comes from the k-th digit-titled entry and keeps its title. Its text is the cleaned concatenation of pages `start-1` up to the next entry's start minus one, or up to the page count. An empty range gives an empty text. |
| Chapters.ChapterAtOk | booktojson.py:53-58 | A chapter's text can be loaded exactly when its pages exist. |
| Chapters.PdfFromOk | booktojson.py:57-58 | The walk from an entry succeeds exactly when every later chapter entry's pages exist. |
| Chapters.PdfFromErr | booktojson.py:57-58 | A failed walk reports the error of the first chapter entry whose pages are missing. |
| Chapters.PdfChaptersOk | booktojson.py:57-58 | Processing succeeds exactly when every chapter entry's pages exist. Otherwise its error is that of the first chapter entry with missing pages. |
| Chapters.NextTitleIgnored | booktojson.py:54 | An entry's chapter depends on the next entry only through its start page. The next entry's title, and therefore whether that entry is itself a chapter, is irrelevant. |
| Chapters.EmptyRangeEmptyText | booktojson.py:56-61 | An entry whose end page is not after its start gives a chapter with empty text. |
| Chapters.UntargetedNextEntry | booktojson.py:54-57 | A chapter followed by an entry with start 0 or -1 (an outline item without a page target) has an empty page range and empty text. |
| Chapters.UntargetedEntryBetween | booktojson.py:48-62 | For a TOC of chapter, untargeted non-chapter entry (start -1), chapter: the result is the first chapter with empty text, then the last chapter running to the end of the document. |
| Chapters.ProcessEpub | booktojson.py:68-83 | The item loop returns exactly `EpubChapters(items)`. |
| Chapters.EpubChapters | booktojson.py:68-83 | `process_epub` as a function over the items, each filtered in order. |
| Chapters.Kept | booktojson.py:79 | An item is kept when it is a document, its cleaned text is non-empty, and its stripped name starts with a digit. |
| Chapters.ItemChapter | booktojson.py:77-80 | A kept item's chapter: its name and its cleaned text. |
| Chapters.EpubAppend | booktojson.py:73-80 | Items are filtered one by one, in order: the chapters of `a + b` are those of `a` followed by those of `b`. |
| Chapters.EpubSound | booktojson.py:79-80 | Every chapter has non-empty cleaned text and a title whose stripped form starts with a digit, and comes from such a document item. |
| Chapters.EpubComplete | booktojson.py:79-80 | Every document item with non-empty cleaned text and a digit-starting stripped name becomes a chapter. |
| Chapters.RemoveTitles | booktojson.py:132-133 | Every chapter in the array is replaced by the same chapter with its text passed through `remove_repeated_titles`. The count and order stay as they were. |
| Chapters.Deduped | booktojson.py:133 | The chapter with its text passed through `remove_repeated_titles`. |
| Chapters.DedupedKeepsTitle | booktojson.py:133 | An unfolding of `Deduped`: the rewrite keeps the title and sets the text to `remove_repeated_titles(text, title)`. |

## Left out

- The document libraries are abstracted as given sequences:
  - `fitz.open`, `get_toc`, `load_page(...).get_text()`;
  - `epub.read_epub`, `get_items`, `get_type`, `get_name`;
  - `BeautifulSoup(...).get_text()`.
- Output is not modelled: the JSON output (`open`, `json.dump`, `out.json` / `chapters.json`) and the console messages.
- The command-line handling is not modelled: the argument count check, the usage text, and dispatch on the file extension.
- `process_epub`'s `chapter_num` counter is not modelled, because nothing reads it.
- Python's Unicode semantics are only partly modelled:
  - `IsDigit` covers the ASCII digits only, while `str.isdigit` also accepts other Unicode digits;
  - whitespace and line breaks follow Python's full lists for `str`;
  - there is no Unicode normalisation.
- Chapters.ProcessPdf: requires every chapter entry's start page to be at least 1. For a chapter entry with a start of 0 or less and a non-empty range `[start-1, end)`, `load_page` is called with a negative index, and that case is not modelled. With an empty range the code calls no `load_page` and emits an empty chapter; `UntargetedNextEntry` covers a following entry at -1 or 0, but a chapter entry whose own start is 0 or less is still excluded. Entries that are not chapters may start anywhere, -1 included.
- Chapters.RemoveTitles: `main` updates each chapter dict in place. The model replaces the array element with an updated value, so aliasing of the dicts is not modelled.
- Chapters.PdfChaptersShape, Chapters.PdfFromErr: the exception that `load_page` raises is a `PageOutOfRange` error value carrying the first missing page. The library's own message is not modelled.
- `re.sub` is not modelled as a general regex. Only the two patterns the code builds are written out: `ReplacePhrase` for `(\s?)phrase(\s?)` and `Collapse` for `\s+`. The other replacement properties are stated for the shapes in the rows above, not for every input.
