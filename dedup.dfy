/** The running-header suppressor `remove_repeated_titles`: a chapter title
    that recurs in its own text (as a page header or footer) is cut out of
    everything after its first occurrence. */
module Dedup {
  import opened Text

  /** `title.lstrip(' 0123456789')`: leading spaces and ASCII digits removed. */
  function TrimNumbering(title: string): (r: string)
    ensures |r| <= |title| && r == title[|title| - |r|..]
    ensures r != [] ==> r[0] != ' ' && !IsDigit(r[0])
    ensures forall k :: 0 <= k < |title| - |r| ==> title[k] == ' ' || IsDigit(title[k])
  {
    if title != [] && (title[0] == ' ' || IsDigit(title[0])) then TrimNumbering(title[1..])
    else title
  }

  /** The phrase searched for: the title without its leading numbering,
      stripped of whitespace at both ends. */
  function Phrase(title: string): string {
    Strip(TrimNumbering(title))
  }

  /** `p` occurs in `s` at index `i`. */
  predicate OccursAt(s: string, i: int, p: string) {
    0 <= i && i + |p| <= |s| && s[i..i + |p|] == p
  }

  predicate Occurs(s: string, p: string) {
    exists i :: 0 <= i <= |s| && OccursAt(s, i, p)
  }

  /** `s.find(p, i)`: the first index from `i` on where `p` occurs, or -1. */
  function FindFrom(s: string, p: string, i: nat): (r: int)
    requires i <= |s|
    ensures r == -1 || (i <= r && r + |p| <= |s|)
    decreases |s| - i
  {
    if i + |p| > |s| then -1
    else if s[i..i + |p|] == p then i
    else FindFrom(s, p, i + 1)
  }

  /** `s.find(p)` */
  function Find(s: string, p: string): (r: int)
    ensures r == -1 || (0 <= r && r + |p| <= |s|)
  {
    FindFrom(s, p, 0)
  }

  /** The search from `i` reports the first occurrence at or after `i`, and
      -1 exactly when there is none. */
  lemma {:induction false} FindFromFirst(s: string, p: string, i: nat)
    requires i <= |s|
    ensures var r := FindFrom(s, p, i);
      (r == -1 ==> forall j :: i <= j ==> !OccursAt(s, j, p)) &&
      (r != -1 ==> OccursAt(s, r, p) && forall j :: i <= j < r ==> !OccursAt(s, j, p))
    decreases |s| - i
  {
    if i + |p| <= |s| && s[i..i + |p|] != p {
      FindFromFirst(s, p, i + 1);
    }
  }

  /** `find` reports the first occurrence, and -1 exactly when there is
      none. */
  lemma FindFirstOccurrence(s: string, p: string)
    ensures Find(s, p) == -1 <==> !Occurs(s, p)
    ensures Find(s, p) != -1 ==>
      OccursAt(s, Find(s, p), p) && forall j :: 0 <= j < Find(s, p) ==> !OccursAt(s, j, p)
  {
    FindFromFirst(s, p, 0);
  }

  /** The length of the match of the regex `(\s?)p(\s?)` at the start of `s`,
      or -1 when there is none. Both optional whitespace characters are taken
      greedily; the leading one is given back when `p` does not follow it. */
  function MatchLen(s: string, p: string): (n: int)
    ensures n == -1 || |p| <= n <= |s|
  {
    var lead := if s != [] && IsSpace(s[0]) && OccursAt(s, 1, p) then 1
                else if OccursAt(s, 0, p) then 0
                else -1;
    if lead == -1 then -1
    else if lead + |p| < |s| && IsSpace(s[lead + |p|]) then lead + |p| + 1
    else lead + |p|
  }

  /** A match starts at the front of `s` exactly when the phrase is there,
      or after one whitespace character; it takes the phrase, and the
      whitespace character after it when there is one. */
  lemma MatchLenFound(s: string, p: string)
    ensures MatchLen(s, p) != -1 <==> OccursAt(s, 0, p) || (s != [] && IsSpace(s[0]) && OccursAt(s, 1, p))
    ensures MatchLen(s, p) != -1 ==>
      var lead := if s != [] && IsSpace(s[0]) && OccursAt(s, 1, p) then 1 else 0;
      OccursAt(s, lead, p) &&
      MatchLen(s, p) == lead + |p| + (if lead + |p| < |s| && IsSpace(s[lead + |p|]) then 1 else 0)
  {
  }

  /** `re.sub(r'(\s?)' + re.escape(p) + r'(\s?)', ' ', s)`: scanning left to
      right, every non-overlapping match becomes a single space and every
      other character is copied. */
  function ReplacePhrase(s: string, p: string): (r: string)
    requires p != []
    decreases |s|
  {
    if s == [] then []
    else
      var n := MatchLen(s, p);
      if n != -1 then " " + ReplacePhrase(s[n..], p)
      else [s[0]] + ReplacePhrase(s[1..], p)
  }

  /** `re.sub(r'\s+', ' ', s)`: every run of whitespace becomes one space.
      Within a run, each whitespace character followed by another is
      dropped and the last one becomes ' '. */
  function Collapse(s: string): (r: string)
    ensures |r| <= |s|
    ensures s == [] <==> r == []
    ensures s != [] ==> (IsSpace(s[0]) <==> IsSpace(r[0]))
  {
    if s == [] then []
    else if IsSpace(s[0]) && |s| > 1 && IsSpace(s[1]) then Collapse(s[1..])
    else if IsSpace(s[0]) then " " + Collapse(s[1..])
    else [s[0]] + Collapse(s[1..])
  }

  /** Whitespace appears only as single ' ' characters. */
  predicate SingleSpaced(s: string) {
    NoDoubleSpace(s) && forall k :: 0 <= k < |s| && IsSpace(s[k]) ==> s[k] == ' '
  }

  /** Neither leading nor trailing whitespace, and single-spaced inside. */
  predicate Tidy(s: string) {
    SingleSpaced(s) && (s != [] ==> !IsSpace(s[0]) && !IsSpace(s[|s| - 1]))
  }

  /** `re.sub(r'\s+', ' ', s).strip()` */
  function Tidied(s: string): string {
    Strip(Collapse(s))
  }

  /** `remove_repeated_titles(text, title)` */
  function RemoveRepeatedTitles(text: string, title: string): string {
    RemovePhrase(text, Phrase(title))
  }

  /** Everything after the first occurrence of `p` is cleaned of `p`; with
      `p` empty or absent the text is returned as it is. */
  function RemovePhrase(text: string, p: string): string {
    if p == [] then text
    else
      var pos := Find(text, p);
      if pos == -1 then text
      else KeepFirst(text[..pos + |p|], text[pos + |p|..], p)
  }

  /** The text up to and including the first occurrence, then the
      remainder cleaned of the phrase. */
  function KeepFirst(before: string, after: string, p: string): string
    requires p != []
  {
    Rejoin(before, Tidied(ReplacePhrase(after, p)))
  }

  /** The kept prefix, then a space and the cleaned remainder unless that is
      empty. */
  function Rejoin(before: string, rest: string): string {
    if rest != [] then before + " " + rest else before
  }

  // ---------------------------------------------------------------------
  // Properties of the whitespace collapse

  /** Collapsing leaves whitespace only as single ' ' characters. */
  lemma {:induction false} CollapseSingleSpaced(s: string)
    ensures SingleSpaced(Collapse(s))
  {
    if s != [] {
      CollapseSingleSpaced(s[1..]);
      if IsSpace(s[0]) && |s| > 1 && IsSpace(s[1]) {
      } else if IsSpace(s[0]) {
        assert Collapse(s) == " " + Collapse(s[1..]);
      } else {
        assert Collapse(s) == [s[0]] + Collapse(s[1..]);
      }
    }
  }

  /** Collapsing changes whitespace only: the other characters are kept in
      order. */
  lemma {:induction false} CollapseNonSpace(s: string)
    ensures NonSpace(Collapse(s)) == NonSpace(s)
  {
    if s != [] {
      CollapseNonSpace(s[1..]);
      assert s == [s[0]] + s[1..];
      NonSpaceAppend([s[0]], s[1..]);
      if IsSpace(s[0]) && |s| > 1 && IsSpace(s[1]) {
      } else if IsSpace(s[0]) {
        NonSpaceAppend(" ", Collapse(s[1..]));
      } else {
        NonSpaceAppend([s[0]], Collapse(s[1..]));
      }
    }
  }

  /** A single-spaced string is left as it is. */
  lemma {:induction false} CollapseSingleSpacedFixed(s: string)
    requires SingleSpaced(s)
    ensures Collapse(s) == s
    decreases |s|
  {
    if s != [] {
      CollapseSingleSpacedFixed(s[1..]);
      if IsSpace(s[0]) {
        assert s[0] == ' ';
        assert |s| > 1 ==> !IsSpace(s[1]);
      }
    }
  }

  /** Collapsing is idempotent. */
  /** A run of whitespace followed by a non-whitespace character (or the
      end) becomes exactly one space: it is replaced, not dropped. */
  lemma {:induction false} CollapseRun(w: string, b: string)
    requires w != [] && forall k :: 0 <= k < |w| ==> IsSpace(w[k])
    requires b == [] || !IsSpace(b[0])
    ensures Collapse(w + b) == " " + Collapse(b)
  {
    var s := w + b;
    assert s[1..] == w[1..] + b;
    if |w| > 1 {
      assert IsSpace(s[1]);
      CollapseRun(w[1..], b);
    }
  }

  /** A split just after a non-whitespace character does not interact
      with collapsing: each side is collapsed on its own. */
  lemma {:induction false} CollapseAppend(u: string, v: string)
    requires u == [] || !IsSpace(u[|u| - 1])
    ensures Collapse(u + v) == Collapse(u) + Collapse(v)
    decreases |u|
  {
    if u == [] {
      assert u + v == v;
    } else {
      var s := u + v;
      assert s[0] == u[0] && s[1..] == u[1..] + v;
      if |u| > 1 {
        assert s[1] == u[1];
      }
      CollapseAppend(u[1..], v);
    }
  }

  lemma CollapseIdempotent(s: string)
    ensures Collapse(Collapse(s)) == Collapse(s)
  {
    CollapseSingleSpaced(s);
    CollapseSingleSpacedFixed(Collapse(s));
  }

  /** The tidied remainder is tidy and keeps every non-whitespace character
      in order. */
  lemma TidiedIsTidy(s: string)
    ensures Tidy(Tidied(s))
    ensures NonSpace(Tidied(s)) == NonSpace(s)
  {
    var c := Collapse(s);
    CollapseSingleSpaced(s);
    CollapseNonSpace(s);
    StripKeepsNonSpace(c);
    var i := StripSlice(c);
    SingleSpacedSlice(c, i, i + |Strip(c)|);
  }

  /** A slice of a single-spaced string is single-spaced. */
  lemma SingleSpacedSlice(s: string, i: nat, j: nat)
    requires i <= j <= |s| && SingleSpaced(s)
    ensures SingleSpaced(s[i..j])
  {
    var t := s[i..j];
    assert forall k :: 0 <= k < |t| ==> t[k] == s[i + k];
  }

  // ---------------------------------------------------------------------
  // Properties of the phrase replacement

  /** Without an occurrence of the phrase nothing is replaced. */
  lemma {:induction false} ReplaceAbsent(s: string, p: string)
    requires p != [] && !Occurs(s, p)
    ensures ReplacePhrase(s, p) == s
    decreases |s|
  {
    if s != [] {
      assert !OccursAt(s, 0, p) && !OccursAt(s, 1, p);
      assert MatchLen(s, p) == -1;
      forall j | 0 <= j <= |s[1..]| ensures !OccursAt(s[1..], j, p) {
        OccursShift(s, j, p);
      }
      ReplaceAbsent(s[1..], p);
    }
  }

  /** An occurrence in the tail is an occurrence one place further on. */
  lemma OccursShift(s: string, j: nat, p: string)
    requires s != [] && j <= |s| - 1
    ensures OccursAt(s[1..], j, p) <==> OccursAt(s, j + 1, p)
  {
    if j + |p| <= |s| - 1 {
      assert s[1..][j..j + |p|] == s[j + 1..j + 1 + |p|];
    }
  }

  lemma OccursAtHead(s: string, i: int, p: string)
    requires p != [] && OccursAt(s, i, p)
    ensures s[i] == p[0]
  {
    assert s[i..i + |p|][0] == s[i];
  }

  /** No match starts at a character other than the phrase's first one,
      unless it is whitespace followed by the phrase's first character. */
  lemma NoMatchHere(s: string, p: string)
    requires p != [] && s != [] && s[0] != p[0]
    requires IsSpace(s[0]) && |s| > 1 ==> s[1] != p[0]
    ensures MatchLen(s, p) == -1
  {
    if OccursAt(s, 0, p) {
      OccursAtHead(s, 0, p);
    }
    if IsSpace(s[0]) && OccursAt(s, 1, p) {
      OccursAtHead(s, 1, p);
    }
  }

  /** A character where no match starts is copied. */
  lemma ReplaceCopiesOne(s: string, p: string)
    requires p != [] && s != [] && MatchLen(s, p) == -1
    ensures ReplacePhrase(s, p) == [s[0]] + ReplacePhrase(s[1..], p)
  {
  }

  /** A stretch that no match can start in is copied unchanged: it does not
      contain the phrase's first character and does not end in whitespace. */
  lemma {:induction false} ReplaceCopies(u: string, v: string, p: string)
    requires p != [] && p[0] !in u
    requires u == [] || !IsSpace(u[|u| - 1])
    ensures ReplacePhrase(u + v, p) == u + ReplacePhrase(v, p)
    decreases |u|
  {
    if u == [] {
      assert u + v == v;
    } else {
      var t := u[1..];
      assert ReplacePhrase(u + v, p) == [u[0]] + ReplacePhrase(t + v, p) by {
        ReplaceCopiesHead(u, v, p);
      }
      assert ReplacePhrase(t + v, p) == t + ReplacePhrase(v, p) by {
        assert t == [] || t[|t| - 1] == u[|u| - 1];
        ReplaceCopies(t, v, p);
      }
      assert u + ReplacePhrase(v, p) == [u[0]] + (t + ReplacePhrase(v, p));
    }
  }

  /** The first character of such a stretch is copied. */
  lemma ReplaceCopiesHead(u: string, v: string, p: string)
    requires p != [] && u != [] && p[0] !in u
    requires !IsSpace(u[|u| - 1])
    ensures ReplacePhrase(u + v, p) == [u[0]] + ReplacePhrase(u[1..] + v, p)
  {
    var s := u + v;
    assert s[0] == u[0] && s[1..] == u[1..] + v;
    if |u| > 1 {
      assert s[1] == u[1] && u[1] in u;
    }
    NoMatchHere(s, p);
    ReplaceCopiesOne(s, p);
  }

  /** A phrase between two spaces is replaced, spaces included, by one
      space. */
  lemma ReplaceSurrounded(p: string, v: string)
    requires p != []
    ensures ReplacePhrase(" " + p + " " + v, p) == " " + ReplacePhrase(v, p)
  {
    var s := " " + p + " " + v;
    assert s[1..1 + |p|] == p;
    assert s[1 + |p|] == ' ';
    assert MatchLen(s, p) == |p| + 2;
    assert s[|p| + 2..] == v;
  }

  // ---------------------------------------------------------------------
  // Properties of remove_repeated_titles

  /** The scan over `"aa bb"` copies the first `a`, then replaces the
      match `"a b"` by one space and copies the final `b`. */
  lemma ReplaceRebuilds()
    ensures ReplacePhrase("aa bb", "a b") == "a b"
  {
    var p := "a b";
    assert MatchLen("b", p) == -1;
    assert MatchLen("a bb", p) == 3 by { assert "a bb"[..3] == p; }
    assert "a bb"[3..] == "b";
    assert MatchLen("aa bb", p) == -1 by { assert "aa bb"[..3][1] != p[1]; }
    assert "aa bb"[1..] == "a bb";
  }

  /** A replacement can rebuild the phrase: in `"a baa bb"` the match
      `"a b"` inside `"aa bb"` becomes one space, which leaves `"a b"`
      again after the first occurrence. */
  lemma RebuiltPhrase()
    ensures RemovePhrase("a baa bb", "a b") == "a b a b"
  {
    var text, p := "a baa bb", "a b";
    assert text[..3] == p && text[3..] == "aa bb";
    RemovePhraseAt(text, p, 0, p, "aa bb");
    KeepFirstRebuilt();
  }

  /** After `"a b"`, the remainder `"aa bb"` is cleaned to `"a b"`. */
  lemma KeepFirstRebuilt()
    ensures KeepFirst("a b", "aa bb", "a b") == "a b a b"
  {
    ReplaceRebuilds();
    assert Tidy("a b") by {
      assert forall k :: 0 <= k < 3 && IsSpace("a b"[k]) ==> k == 1;
    }
    TidiedOfTidy("a b");
  }

  /** A title that is only numbering leaves the text unchanged. */
  lemma RemoveEmptyPhrase(text: string, title: string)
    requires Phrase(title) == []
    ensures RemoveRepeatedTitles(text, title) == text
  {
  }

  /** A phrase that does not occur leaves the text unchanged. */
  lemma RemoveAbsentPhrase(text: string, title: string)
    requires !Occurs(text, Phrase(title))
    ensures RemoveRepeatedTitles(text, title) == text
  {
    FindFirstOccurrence(text, Phrase(title));
  }

  /** The first occurrence is the one `find` reports. */
  lemma FindFirst(text: string, p: string, pos: nat)
    requires OccursAt(text, pos, p)
    requires forall j :: 0 <= j < pos ==> !OccursAt(text, j, p)
    ensures Find(text, p) == pos
  {
    assert Occurs(text, p);
    FindFirstOccurrence(text, p);
  }

  /** With the phrase `p` first occurring at `pos`, the result is the text
      up to the end of that occurrence, kept verbatim, followed by the
      cleaned remainder of the text after it. */
  lemma RemoveKeepsFirstOccurrence(text: string, title: string, p: string, pos: nat)
    requires p == Phrase(title) && p != []
    requires OccursAt(text, pos, p)
    requires forall j :: 0 <= j < pos ==> !OccursAt(text, j, p)
    ensures RemoveRepeatedTitles(text, title) ==
      KeepFirst(text[..pos + |p|], text[pos + |p|..], p)
  {
    FindFirst(text, p, pos);
    RemoveByPhrase(text, title, p);
    RemovePhraseFound(text, p, pos);
  }

  lemma RemoveByPhrase(text: string, title: string, p: string)
    requires p == Phrase(title)
    ensures RemoveRepeatedTitles(text, title) == RemovePhrase(text, p)
  {
  }

  lemma RemovePhraseFound(text: string, p: string, pos: nat)
    requires p != [] && Find(text, p) == pos
    ensures pos + |p| <= |text|
    ensures RemovePhrase(text, p) == KeepFirst(text[..pos + |p|], text[pos + |p|..], p)
  {
  }

  /** The kept part comes first, verbatim; it is followed either by nothing
      or by one space and the non-empty cleaned remainder, which is tidy. */
  lemma KeepFirstShape(before: string, after: string, p: string)
    requires p != []
    ensures |before| <= |KeepFirst(before, after, p)|
    ensures KeepFirst(before, after, p)[..|before|] == before
    ensures KeepFirst(before, after, p)[|before|..] == Rejoin([], Tidied(ReplacePhrase(after, p)))
    ensures Tidy(Tidied(ReplacePhrase(after, p)))
  {
    RejoinSplit(before, Tidied(ReplacePhrase(after, p)), KeepFirst(before, after, p));
    TidiedIsTidy(ReplacePhrase(after, p));
  }

  /** When the phrase does not occur in the remainder, only whitespace
      changes there. */
  lemma KeepFirstWithoutRepeat(before: string, after: string, p: string)
    requires p != [] && !Occurs(after, p)
    ensures NonSpace(KeepFirst(before, after, p)) == NonSpace(before) + NonSpace(after)
  {
    ReplaceAbsent(after, p);
    TidiedIsTidy(after);
    RejoinNonSpace(before, Tidied(after));
  }

  /** When the phrase does not recur after its first occurrence, only
      whitespace changes: the non-whitespace characters are all kept. */
  lemma RemoveWithoutRepeat(text: string, title: string, p: string, pos: nat)
    requires p == Phrase(title) && p != []
    requires OccursAt(text, pos, p)
    requires forall j :: 0 <= j < pos ==> !OccursAt(text, j, p)
    requires !Occurs(text[pos + |p|..], p)
    ensures NonSpace(RemoveRepeatedTitles(text, title)) == NonSpace(text)
  {
    var before, after := text[..pos + |p|], text[pos + |p|..];
    assert RemoveRepeatedTitles(text, title) == KeepFirst(before, after, p) by {
      RemoveKeepsFirstOccurrence(text, title, p, pos);
    }
    assert NonSpace(KeepFirst(before, after, p)) == NonSpace(before) + NonSpace(after) by {
      KeepFirstWithoutRepeat(before, after, p);
    }
    assert NonSpace(text) == NonSpace(before) + NonSpace(after) by {
      assert text == before + after;
      NonSpaceAppend(before, after);
    }
  }

  /** What is kept, then (if anything) a space and the remainder. */
  lemma RejoinSplit(before: string, rest: string, r: string)
    requires r == Rejoin(before, rest)
    ensures |before| <= |r| && r[..|before|] == before && r[|before|..] == Rejoin([], rest)
  {
    if rest != [] {
      assert before + " " + rest == before + (" " + rest);
      assert [] + " " + rest == " " + rest;
    }
  }

  /** Rejoining adds whitespace only. */
  lemma RejoinNonSpace(before: string, rest: string)
    ensures NonSpace(Rejoin(before, rest)) == NonSpace(before) + NonSpace(rest)
  {
    if rest != [] {
      assert before + " " + rest == before + (" " + rest);
      NonSpaceAppend(before, " " + rest);
      NonSpaceAppend(" ", rest);
    } else {
      assert NonSpace(rest) == [];
    }
  }

  // ---------------------------------------------------------------------
  // Texts that are already tidy, and worked examples

  /** A phrase cannot occur in a text lacking its first character. */
  lemma AbsentWithoutHead(s: string, p: string)
    requires p != [] && p[0] !in s
    ensures !Occurs(s, p)
  {
    if Occurs(s, p) {
      var i :| 0 <= i <= |s| && OccursAt(s, i, p);
      OccursAtHead(s, i, p);
    }
  }

  /** Tidying a tidy text changes nothing. */
  lemma TidiedOfTidy(w: string)
    requires Tidy(w)
    ensures Tidied(w) == w
  {
    CollapseSingleSpacedFixed(w);
    assert Strip(w) == w;
  }

  /** Tidying one space followed by a tidy text drops the space. */
  lemma TidiedAfterSpace(w: string)
    requires Tidy(w)
    ensures Tidied(" " + w) == w
  {
    var s := " " + w;
    assert s[1..] == w;
    forall k | 0 <= k < |s| - 1 ensures !(IsSpace(s[k]) && IsSpace(s[k + 1])) {
      if k > 0 {
        assert s[k] == w[k - 1] && s[k + 1] == w[k];
      }
    }
    forall k | 0 <= k < |s| && IsSpace(s[k]) ensures s[k] == ' ' {
      if k > 0 {
        assert s[k] == w[k - 1];
      }
    }
    CollapseSingleSpacedFixed(s);
    assert Strip(s) == Strip(w);
    TidiedOfTidy(w);
  }

  /** When the phrase does not recur and the text after its first
      occurrence is one space followed by tidy text, the text is returned
      unchanged. */
  lemma RemoveLeavesTidyText(text: string, p: string, pos: nat, w: string)
    requires p != []
    requires OccursAt(text, pos, p)
    requires forall j :: 0 <= j < pos ==> !OccursAt(text, j, p)
    requires text[pos + |p|..] == " " + w && w != [] && Tidy(w)
    requires !Occurs(" " + w, p)
    ensures RemovePhrase(text, p) == text
  {
    var before := text[..pos + |p|];
    RemovePhraseAt(text, p, pos, before, " " + w);
    KeepFirstAbsentTidy(before, p, w);
    assert text == before + (" " + w);
  }

  lemma KeepFirstAbsentTidy(before: string, p: string, w: string)
    requires p != [] && !Occurs(" " + w, p) && w != [] && Tidy(w)
    ensures KeepFirst(before, " " + w, p) == before + " " + w
  {
    ReplaceAbsent(" " + w, p);
    KeepFirstTidy(before, " " + w, p, w);
  }

  /** The first occurrence splits the text into the kept part and the
      remainder. */
  lemma RemovePhraseAt(text: string, p: string, pos: nat, before: string, after: string)
    requires p != []
    requires OccursAt(text, pos, p)
    requires forall j :: 0 <= j < pos ==> !OccursAt(text, j, p)
    requires before == text[..pos + |p|] && after == text[pos + |p|..]
    ensures RemovePhrase(text, p) == KeepFirst(before, after, p)
  {
    FindFirst(text, p, pos);
    RemovePhraseFound(text, p, pos);
  }

  /** When the remainder cleans to one space before a tidy text, that text
      follows the kept part after a single space. */
  lemma KeepFirstTidy(before: string, after: string, p: string, w: string)
    requires p != [] && ReplacePhrase(after, p) == " " + w && w != [] && Tidy(w)
    ensures KeepFirst(before, after, p) == before + " " + w
  {
    TidiedAfterSpace(w);
  }

  /** A phrase whose first character the text lacks leaves it unchanged. */
  lemma RemoveWithoutHead(text: string, title: string, p: string)
    requires p == Phrase(title) && p != [] && p[0] !in text
    ensures RemoveRepeatedTitles(text, title) == text
  {
    AbsentWithoutHead(text, p);
    RemoveAbsentPhrase(text, title);
  }

  /** Two later occurrences, each with a space on both sides, become single
      spaces. */
  lemma ReplaceTwoRepeats(p: string, u: string, y: string, z: string)
    requires p != [] && p[0] !in u && p[0] !in y && p[0] !in z
    requires u != [] && !IsSpace(u[|u| - 1]) && y != [] && !IsSpace(y[|y| - 1])
    ensures ReplacePhrase(u + (" " + p + " " + (y + (" " + p + " " + z))), p) ==
      u + " " + (y + " " + z)
  {
    ReplaceOneRepeat(p, y, z);
    CopyThenRepeat(p, u, y + (" " + p + " " + z), y + " " + z);
  }

  /** One later occurrence, with a space on both sides, becomes one space. */
  lemma ReplaceOneRepeat(p: string, y: string, z: string)
    requires p != [] && p[0] !in y && p[0] !in z
    requires y != [] && !IsSpace(y[|y| - 1])
    ensures ReplacePhrase(y + (" " + p + " " + z), p) == y + " " + z
  {
    ReplaceAbsentWithoutHead(z, p);
    CopyThenRepeat(p, y, z, z);
  }

  /** Text without the phrase is copied, and the surrounded occurrence after
      it becomes one space. */
  lemma CopyThenRepeat(p: string, u: string, v: string, r: string)
    requires p != [] && p[0] !in u && u != [] && !IsSpace(u[|u| - 1])
    requires ReplacePhrase(v, p) == r
    ensures ReplacePhrase(u + (" " + p + " " + v), p) == u + " " + r
  {
    ReplaceCopies(u, " " + p + " " + v, p);
    ReplaceSurrounded(p, v);
  }

  /** A text lacking the phrase's first character is not changed by the
      replacement. */
  lemma ReplaceAbsentWithoutHead(s: string, p: string)
    requires p != [] && p[0] !in s
    ensures ReplacePhrase(s, p) == s
  {
    AbsentWithoutHead(s, p);
    ReplaceAbsent(s, p);
  }

  /** `re.sub(r'\s+', ' ', ...)` turns a whitespace run between two tidy
      texts into exactly one space and leaves the texts as they are. */
  lemma CollapseBetween(a: string, w: string, b: string)
    requires a != [] && b != [] && Tidy(a) && Tidy(b)
    requires w != [] && forall k :: 0 <= k < |w| ==> IsSpace(w[k])
    ensures Collapse(a + w + b) == a + " " + b
  {
    assert a + w + b == a + (w + b);
    CollapseAppend(a, w + b);
    CollapseSingleSpacedFixed(a);
    CollapseRun(w, b);
    CollapseSingleSpacedFixed(b);
  }

  /** `re.sub(r'\s+', ' ', ...).strip()` turns any whitespace run between
      two tidy texts into exactly one space. */
  lemma TidiedSpaceRun(a: string, w: string, b: string)
    requires a != [] && b != [] && Tidy(a) && Tidy(b)
    requires w != [] && forall k :: 0 <= k < |w| ==> IsSpace(w[k])
    ensures Tidied(a + w + b) == a + " " + b
  {
    var j := a + " " + b;
    CollapseBetween(a, w, b);
    assert Strip(j) == j by {
      TidyJoin(a, b);
      TidiedOfTidy(j);
      CollapseSingleSpacedFixed(j);
    }
  }

  /** Tidy words joined by single spaces are tidy. */
  lemma TidyJoin(a: string, b: string)
    requires a != [] && b != [] && Tidy(a) && Tidy(b)
    ensures Tidy(a + " " + b)
  {
    var s := a + " " + b;
    forall k | 0 <= k < |s| ensures s[k] == if k < |a| then a[k] else if k == |a| then ' ' else b[k - |a| - 1] {
    }
  }

  /** A phrase that recurs twice later, each time between single spaces and
      words lacking its first character, is kept at its first occurrence and
      each later occurrence with its surrounding spaces becomes one space. */
  lemma RemoveRepeatsBetween(text: string, p: string, x: string, y: string, z: string)
    requires p != [] && p[0] != ' ' && p[0] !in x && p[0] !in y && p[0] !in z
    requires x != [] && y != [] && z != [] && Tidy(x) && Tidy(y) && Tidy(z)
    requires text == p + " " + x + " " + p + " " + y + " " + p + " " + z
    ensures RemovePhrase(text, p) == p + " " + x + " " + y + " " + z
  {
    var u := " " + x;
    var after := u + (" " + p + " " + (y + (" " + p + " " + z)));
    var w := x + " " + y + " " + z;
    RepeatsParts(text, p, x, y, z, u, after, w);
    RemovePhraseAt(text, p, 0, p, after);
    ReplaceTwoRepeats(p, u, y, z);
    KeepFirstTidy(p, after, p, w);
  }

  /** How such a text and the expected result break into parts. */
  lemma RepeatsParts(text: string, p: string, x: string, y: string, z: string,
                     u: string, after: string, w: string)
    requires p != [] && p[0] != ' ' && p[0] !in x
    requires x != [] && y != [] && z != [] && Tidy(x) && Tidy(y) && Tidy(z)
    requires text == p + " " + x + " " + p + " " + y + " " + p + " " + z
    requires u == " " + x && after == u + (" " + p + " " + (y + (" " + p + " " + z)))
    requires w == x + " " + y + " " + z
    ensures text[..|p|] == p && text[|p|..] == after && OccursAt(text, 0, p)
    ensures p[0] !in u && u != [] && !IsSpace(u[|u| - 1]) && !IsSpace(y[|y| - 1])
    ensures u + " " + (y + " " + z) == " " + w
    ensures w != [] && Tidy(w)
    ensures p + " " + w == p + " " + x + " " + y + " " + z
  {
    assert text == p + after;
    assert u[|u| - 1] == x[|x| - 1];
    TidyJoin(x, y);
    TidyJoin(x + " " + y, z);
  }

  /** A title made of spaces and digits only leaves the text unchanged. */
  lemma NumberingOnlyTitle(text: string, title: string)
    requires forall k :: 0 <= k < |title| ==> title[k] == ' ' || IsDigit(title[k])
    ensures RemoveRepeatedTitles(text, title) == text
  {
    TrimNumberingAll(title);
  }

  lemma {:induction false} TrimNumberingAll(title: string)
    requires forall k :: 0 <= k < |title| ==> title[k] == ' ' || IsDigit(title[k])
    ensures TrimNumbering(title) == []
  {
    if title != [] {
      TrimNumberingAll(title[1..]);
    }
  }

  /** The phrase of a title made of leading numbering `n` and a text `p`
      that starts with neither a space nor a digit and has no whitespace at
      its ends is `p` itself: a dot after the number stays in the phrase. */
  lemma {:induction false} PhraseAfterNumbering(title: string, n: string, p: string)
    requires forall k :: 0 <= k < |n| ==> n[k] == ' ' || IsDigit(n[k])
    requires p != [] && p[0] != ' ' && !IsDigit(p[0])
    requires !IsSpace(p[0]) && !IsSpace(p[|p| - 1])
    requires title == n + p
    ensures Phrase(title) == p
    decreases |n|
  {
    if n == [] {
      assert title == p;
    } else {
      assert title[1..] == n[1..] + p;
      PhraseAfterNumbering(title[1..], n[1..], p);
    }
  }
}
