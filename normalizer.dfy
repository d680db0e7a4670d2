/** The text normaliser `clean_page_text`: raw page text becomes one line.
    Lines are stripped; empty and page-number lines are dropped; a line ending
    in '-' loses the hyphen and is glued, with no space, onto the next
    surviving line; the surviving pieces are joined by single spaces. */
module Normalizer {
  import opened Text

  /** A stripped line survives when it is neither empty nor a page number. */
  predicate Survives(line: string) {
    line != [] && !AllDigits(line)
  }

  /** The stripped lines that survive, in input order. */
  function Survivors(lines: seq<string>): (kept: seq<string>)
    ensures |kept| <= |lines|
    ensures forall i :: 0 <= i < |kept| ==> Survives(kept[i])
  {
    if lines == [] then []
    else
      var line := Strip(lines[0]);
      (if Survives(line) then [line] else []) + Survivors(lines[1..])
  }

  /** A pending hyphen fragment `h` is glued onto the first following piece;
      with no piece after it, it is emitted alone when non-empty. */
  function Prepend(h: string, pieces: seq<string>): seq<string> {
    if pieces != [] then [h + pieces[0]] + pieces[1..]
    else if h != [] then [h]
    else []
  }

  /** The line with its final hyphen removed (`line[:-1]`). */
  function Stem(line: string): string
    requires EndsWithHyphen(line)
  {
    line[..|line| - 1]
  }

  /** The pieces emitted for a sequence of surviving lines, defined from the
      right: a hyphen-ending line prefixes its stem to what follows it. */
  function Pieces(ls: seq<string>): (ps: seq<string>)
    ensures |ps| <= |ls|
  {
    if ls == [] then []
    else
      var rest := Pieces(ls[1..]);
      if EndsWithHyphen(ls[0]) then Prepend(Stem(ls[0]), rest)
      else [ls[0]] + rest
  }

  /** The cleaned text: the surviving lines, hyphen-glued, joined by spaces. */
  function CleanText(text: string): string {
    JoinSpace(Pieces(Survivors(SplitLines(text))))
  }

  /** The cleaned text never contains a line break: lines come from splitting
      at the breaks and are joined only with spaces. */
  lemma CleanTextNoBreaks(text: string)
    ensures NoBreaks(CleanText(text))
  {
    var lines := SplitLines(text);
    SurvivorsNoBreaks(lines);
    PiecesNoBreaks(Survivors(lines));
    JoinSpaceNoBreaks(Pieces(Survivors(lines)));
  }

  /** `clean_page_text(text)`: the loop of the source, with the pending
      hyphen fragment in `buffer` and the emitted pieces in `cleaned`. */
  method CleanPageText(text: string) returns (r: string)
    ensures r == CleanText(text)
    ensures NoBreaks(r)
  {
    var lines := SplitLines(text);
    var cleaned: seq<string> := [];
    var buffer: string := "";
    var i := 0;
    assert lines[i..] == lines;
    PrependNothing(Pieces(Survivors(lines)));
    while i < |lines|
      invariant 0 <= i <= |lines|
      invariant Pieces(Survivors(lines)) == cleaned + Prepend(buffer, Pieces(Survivors(lines[i..])))
    {
      var line := Strip(lines[i]);
      ghost var later := Survivors(lines[i + 1..]);
      if line == [] {
        // an empty line is skipped
        SkipStep(Pieces(Survivors(lines)), cleaned, buffer, lines, i);
      } else if AllDigits(line) {
        // a page number is skipped
        SkipStep(Pieces(Survivors(lines)), cleaned, buffer, lines, i);
      } else if EndsWithHyphen(line) {
        assert Pieces(Survivors(lines)) == cleaned + Prepend(buffer + Stem(line), Pieces(later)) by {
          SurvivorsStep(lines, i);
          GlueStep(Pieces(Survivors(lines)), cleaned, buffer, line, later);
        }
        buffer := buffer + Stem(line);
      } else {
        assert Pieces(Survivors(lines)) == (cleaned + [buffer + line]) + Prepend("", Pieces(later)) by {
          SurvivorsStep(lines, i);
          EmitStep(Pieces(Survivors(lines)), cleaned, buffer, line, later);
        }
        cleaned := cleaned + [buffer + line];
        buffer := "";
      }
      i := i + 1;
    }
    assert Pieces(Survivors(lines[i..])) == [] by {
      assert lines[i..] == [];
    }
    if buffer != [] {
      cleaned := cleaned + [buffer];
    }
    assert cleaned == Pieces(Survivors(lines));
    r := JoinSpace(cleaned);
    CleanTextNoBreaks(text);
  }

  lemma SurvivorsCons(line: string, rest: seq<string>)
    ensures Survivors([line] + rest) ==
      (if Survives(Strip(line)) then [Strip(line)] else []) + Survivors(rest)
  {
    assert ([line] + rest)[1..] == rest;
  }

  lemma SurvivorsStep(lines: seq<string>, i: nat)
    requires i < |lines|
    ensures Survivors(lines[i..]) ==
      (if Survives(Strip(lines[i])) then [Strip(lines[i])] else []) + Survivors(lines[i + 1..])
  {
    assert lines[i..][1..] == lines[i + 1..];
  }

  /** Loop step for a line that is empty or a page number: nothing
      changes. */
  lemma SkipStep(all: seq<string>, cleaned: seq<string>, buffer: string, lines: seq<string>, i: nat)
    requires i < |lines| && !Survives(Strip(lines[i]))
    requires all == cleaned + Prepend(buffer, Pieces(Survivors(lines[i..])))
    ensures all == cleaned + Prepend(buffer, Pieces(Survivors(lines[i + 1..])))
  {
    SurvivorsStep(lines, i);
    assert [] + Survivors(lines[i + 1..]) == Survivors(lines[i + 1..]);
  }

  /** Loop step for a hyphen-ending line: its stem joins the buffer. */
  lemma GlueStep(all: seq<string>, cleaned: seq<string>, buffer: string, line: string, later: seq<string>)
    requires EndsWithHyphen(line)
    requires all == cleaned + Prepend(buffer, Pieces([line] + later))
    ensures all == cleaned + Prepend(buffer + Stem(line), Pieces(later))
  {
    PiecesCons(line, later);
    PrependTwice(buffer, Stem(line), Pieces(later));
  }

  /** Loop step for any other surviving line: buffer and line are emitted. */
  lemma EmitStep(all: seq<string>, cleaned: seq<string>, buffer: string, line: string, later: seq<string>)
    requires !EndsWithHyphen(line)
    requires all == cleaned + Prepend(buffer, Pieces([line] + later))
    ensures all == (cleaned + [buffer + line]) + Prepend("", Pieces(later))
  {
    PiecesCons(line, later);
    PrependLine(buffer, line, Pieces(later));
  }

  lemma PiecesCons(line: string, rest: seq<string>)
    ensures Pieces([line] + rest) ==
      if EndsWithHyphen(line) then Prepend(Stem(line), Pieces(rest)) else [line] + Pieces(rest)
  {
    assert ([line] + rest)[1..] == rest;
  }

  lemma PrependNothing(ps: seq<string>)
    ensures Prepend("", ps) == ps
  {
    if ps != [] {
      assert "" + ps[0] == ps[0];
      assert [ps[0]] + ps[1..] == ps;
    }
  }

  lemma PrependLine(b: string, line: string, ps: seq<string>)
    ensures Prepend(b, [line] + ps) == [b + line] + Prepend("", ps)
  {
    assert ([line] + ps)[1..] == ps;
    PrependNothing(ps);
  }

  lemma PrependTwice(b: string, h: string, ps: seq<string>)
    ensures Prepend(b, Prepend(h, ps)) == Prepend(b + h, ps)
  {
    if ps != [] {
      assert b + (h + ps[0]) == (b + h) + ps[0];
    } else if h != [] {
      assert [h][1..] == [];
    } else {
      assert b + h == b;
    }
  }

  // ---------------------------------------------------------------------
  // No line breaks survive

  lemma {:induction false} SurvivorsNoBreaks(lines: seq<string>)
    requires forall i, j :: 0 <= i < |lines| && 0 <= j < |lines[i]| ==> !IsLineBreak(lines[i][j])
    ensures forall i :: 0 <= i < |Survivors(lines)| ==> NoBreaks(Survivors(lines)[i])
  {
    if lines != [] {
      SurvivorsNoBreaks(lines[1..]);
      var line := Strip(lines[0]);
      var start := StripSlice(lines[0]);
      forall k | 0 <= k < |line| ensures !IsLineBreak(line[k]) {
        assert line[k] == lines[0][start + k];
      }
    }
  }

  lemma {:induction false} PiecesNoBreaks(ls: seq<string>)
    requires forall i :: 0 <= i < |ls| ==> NoBreaks(ls[i])
    ensures forall i :: 0 <= i < |Pieces(ls)| ==> NoBreaks(Pieces(ls)[i])
  {
    if ls != [] {
      PiecesNoBreaks(ls[1..]);
      var rest := Pieces(ls[1..]);
      if EndsWithHyphen(ls[0]) {
        var h := Stem(ls[0]);
        assert NoBreaks(h) by {
          forall k | 0 <= k < |h| ensures !IsLineBreak(h[k]) {
            assert h[k] == ls[0][k];
          }
        }
        if rest != [] {
          assert NoBreaks(rest[0]);
          assert forall k :: 0 <= k < |h + rest[0]| ==>
            (h + rest[0])[k] == if k < |h| then h[k] else rest[0][k - |h|];
        }
      }
    }
  }

  lemma {:induction false} JoinSpaceNoBreaks(parts: seq<string>)
    requires forall i :: 0 <= i < |parts| ==> NoBreaks(parts[i])
    ensures NoBreaks(JoinSpace(parts))
  {
    if |parts| > 1 {
      JoinSpaceNoBreaks(parts[1..]);
      var head, rest := parts[0] + " ", JoinSpace(parts[1..]);
      assert NoBreaks(parts[0]);
      assert forall k :: 0 <= k < |head + rest| ==>
        (head + rest)[k] == if k < |parts[0]| then parts[0][k]
                            else if k == |parts[0]| then ' ' else rest[k - |head|];
    }
  }

  // ---------------------------------------------------------------------
  // Properties of the normaliser

  /** Without hyphen-ending lines, nothing is glued: the pieces are the lines. */
  lemma {:induction false} PiecesWithoutHyphens(ls: seq<string>)
    requires forall i :: 0 <= i < |ls| ==> !EndsWithHyphen(ls[i])
    ensures Pieces(ls) == ls
  {
    if ls != [] {
      PiecesWithoutHyphens(ls[1..]);
    }
  }

  /** With no surviving line ending in '-', the cleaned text is exactly the
      stripped, non-empty, non-numeric lines joined by single spaces. */
  lemma CleanTextWithoutHyphens(text: string)
    requires forall i :: 0 <= i < |Survivors(SplitLines(text))| ==>
      !EndsWithHyphen(Survivors(SplitLines(text))[i])
    ensures CleanText(text) == JoinSpace(Survivors(SplitLines(text)))
  {
    PiecesWithoutHyphens(Survivors(SplitLines(text)));
  }

  lemma {:induction false} SurvivorsNone(lines: seq<string>)
    requires forall i :: 0 <= i < |lines| ==> !Survives(Strip(lines[i]))
    ensures Survivors(lines) == []
  {
    if lines != [] {
      SurvivorsNone(lines[1..]);
    }
  }

  /** Text made only of blank and page-number lines cleans to "". */
  lemma CleanTextOfBlankAndNumbers(text: string)
    requires forall i :: 0 <= i < |SplitLines(text)| ==>
      Strip(SplitLines(text)[i]) == [] || AllDigits(Strip(SplitLines(text)[i]))
    ensures CleanText(text) == []
  {
    SurvivorsNone(SplitLines(text));
  }

  /** A run of hyphen-ending lines is glued, each minus its hyphen and with
      no space, onto the next line that does not end in '-': the buffer
      accumulates every stem of the run. */
  lemma {:induction false} GlueRun(run: seq<string>, b: string, rest: seq<string>)
    requires forall i :: 0 <= i < |run| ==> EndsWithHyphen(run[i])
    requires !EndsWithHyphen(b)
    ensures Pieces(run + [b] + rest) == [Stems(run) + b] + Pieces(rest)
  {
    if run == [] {
      assert run + [b] + rest == [b] + rest;
      assert ([b] + rest)[1..] == rest;
      assert Stems(run) + b == b;
    } else {
      assert (run + [b] + rest)[1..] == run[1..] + [b] + rest;
      GlueRun(run[1..], b, rest);
      var ps := Pieces(run[1..] + [b] + rest);
      assert ps[0] == Stems(run[1..]) + b && ps[1..] == Pieces(rest);
      assert Stem(run[0]) + ps[0] == Stems(run) + b;
    }
  }

  /** Lines before a line that does not end in '-' are processed
      independently of the lines after it. */
  lemma {:induction false} PiecesAppend(ls: seq<string>, ms: seq<string>)
    requires ls == [] || !EndsWithHyphen(ls[|ls| - 1])
    ensures Pieces(ls + ms) == Pieces(ls) + Pieces(ms)
  {
    if ls == [] {
      assert ls + ms == ms;
    } else {
      var h, t := ls[0], ls[1..];
      assert ls + ms == [h] + (t + ms);
      assert Pieces(t + ms) == Pieces(t) + Pieces(ms) by {
        PiecesAppend(t, ms);
      }
      PiecesCons(h, t + ms);
      PiecesCons(h, t);
      if EndsWithHyphen(h) {
        assert Pieces(t) != [] by {
          PiecesNonEmpty(t);
        }
        PrependAppend(Stem(h), Pieces(t), Pieces(ms));
      } else {
        assert [h] + (Pieces(t) + Pieces(ms)) == ([h] + Pieces(t)) + Pieces(ms);
      }
    }
  }

  /** A fragment prepended to non-empty pieces lands on the first of them. */
  lemma PrependAppend(h: string, ps: seq<string>, qs: seq<string>)
    requires ps != []
    ensures Prepend(h, ps + qs) == Prepend(h, ps) + qs
  {
    assert (ps + qs)[0] == ps[0] && (ps + qs)[1..] == ps[1..] + qs;
  }

  /** A run ending in a line without a hyphen yields at least one piece. */
  lemma {:induction false} PiecesNonEmpty(ls: seq<string>)
    requires ls != [] && !EndsWithHyphen(ls[|ls| - 1])
    ensures Pieces(ls) != []
  {
    if EndsWithHyphen(ls[0]) {
      PiecesNonEmpty(ls[1..]);
    }
  }

  /** The concatenated stems of a run of hyphen-ending lines. */
  function Stems(ls: seq<string>): string
    requires forall i :: 0 <= i < |ls| ==> EndsWithHyphen(ls[i])
  {
    if ls == [] then [] else Stem(ls[0]) + Stems(ls[1..])
  }

  /** A run of hyphen-ending lines with nothing after it leaves its stems in
      the buffer, which is emitted as one last piece when non-empty. */
  lemma {:induction false} PendingBufferEmitted(ls: seq<string>)
    requires forall i :: 0 <= i < |ls| ==> EndsWithHyphen(ls[i])
    ensures Pieces(ls) == if Stems(ls) != [] then [Stems(ls)] else []
  {
    if ls != [] {
      PendingBufferEmitted(ls[1..]);
      var s0, tail := Stem(ls[0]), Stems(ls[1..]);
      if tail != [] {
        assert [tail][1..] == [];
      } else {
        assert s0 + tail == s0;
      }
    }
  }

  /** A hyphen-ending piece followed by one that does not end in '-' comes
      out as one word: the stem glued onto the second. */
  lemma GluedPair(x: string, y: string)
    requires EndsWithHyphen(x) && !EndsWithHyphen(y)
    ensures JoinSpace(Pieces([x, y])) == Stem(x) + y
  {
    GlueRun([x], y, []);
    assert [x, y] + [] == [x, y];
  }

  /** Two lines, the first ending in '-': the cleaned text is the first
      without its hyphen, glued with no space onto the second. */
  lemma HyphenJoinsLines(a: string, b: string)
    requires NoBreaks(a) && NoBreaks(b) && b != []
    requires Survives(Strip(a)) && EndsWithHyphen(Strip(a))
    requires Survives(Strip(b)) && !EndsWithHyphen(Strip(b))
    ensures CleanText(a + "\n" + b) == Stem(Strip(a)) + Strip(b)
  {
    SplitTwo(a, b);
    SurvivorsPair(a, b);
    GluedPair(Strip(a), Strip(b));
  }

  /** Splitting two lines joined by "\n". */
  lemma SplitTwo(a: string, b: string)
    requires NoBreaks(a) && NoBreaks(b) && b != []
    ensures SplitLines(a + "\n" + b) == [a, b]
  {
    SplitAtBreak(a, '\n', b);
    SplitSingleLine(b);
  }

  /** Two surviving lines are both kept, stripped. */
  lemma SurvivorsPair(a: string, b: string)
    requires Survives(Strip(a)) && Survives(Strip(b))
    ensures Survivors([a, b]) == [Strip(a), Strip(b)]
  {
    SurvivorsCons(b, []);
    assert [b] + [] == [b];
    SurvivorsCons(a, [b]);
    assert [a] + [b] == [a, b];
  }

  /** Splitting three lines joined by "\n". */
  lemma SplitThree(a: string, n: string, b: string)
    requires NoBreaks(a) && NoBreaks(n) && NoBreaks(b) && b != []
    ensures SplitLines(a + "\n" + n + "\n" + b) == [a, n, b]
  {
    assert a + "\n" + n + "\n" + b == a + "\n" + (n + "\n" + b);
    SplitAtBreak(a, '\n', n + "\n" + b);
    SplitAtBreak(n, '\n', b);
    SplitSingleLine(b);
  }

  /** Of a line, a page number and a line, the page number is dropped. */
  lemma SurvivorsAroundNumber(a: string, n: string, b: string)
    requires Survives(Strip(a)) && AllDigits(Strip(n)) && Survives(Strip(b))
    ensures Survivors([a, n, b]) == [Strip(a), Strip(b)]
  {
    SurvivorsCons(b, []);
    assert [b] + [] == [b];
    SurvivorsCons(n, [b]);
    assert [n] + [b] == [n, b];
    SurvivorsCons(a, [n, b]);
    assert [a] + [n, b] == [a, n, b];
  }

  /** A page-number line between a hyphen-ending line and its continuation
      is dropped before the hyphen is handled, so the two still join. */
  lemma HyphenJoinsAcrossPageNumber(a: string, n: string, b: string)
    requires NoBreaks(a) && NoBreaks(n) && NoBreaks(b) && b != []
    requires Survives(Strip(a)) && EndsWithHyphen(Strip(a))
    requires AllDigits(Strip(n))
    requires Survives(Strip(b)) && !EndsWithHyphen(Strip(b))
    ensures CleanText(a + "\n" + n + "\n" + b) == Stem(Strip(a)) + Strip(b)
  {
    SplitThree(a, n, b);
    SurvivorsAroundNumber(a, n, b);
    GluedPair(Strip(a), Strip(b));
  }

  /** A stripped line that starts with a letter survives. */
  lemma WordSurvives(s: string)
    requires s != [] && !IsSpace(s[0]) && !IsSpace(s[|s| - 1]) && !IsDigit(s[0])
    ensures Strip(s) == s && Survives(s)
  {
  }

  /** `clean_page_text("inter-\nnational")` is "international". */
  lemma HyphenatedWord(text: string, a: string, b: string)
    requires a == "inter-" && b == "national" && text == a + "\n" + b
    ensures CleanText(text) == "international"
  {
    ExampleWords(a, b, "international");
    HyphenJoinsLines(a, b);
  }

  /** `clean_page_text("continu-\n42\ning")` is "continuing". */
  lemma ContinuedAcrossPageNumber(text: string, a: string, n: string, b: string)
    requires a == "continu-" && n == "42" && b == "ing"
    requires text == a + "\n" + n + "\n" + b
    ensures CleanText(text) == "continuing"
  {
    ExampleWords(a, b, "continuing");
    assert NoBreaks(n) && Strip(n) == n && AllDigits(n);
    HyphenJoinsAcrossPageNumber(a, n, b);
  }

  /** The two lines of the examples: a surviving line ending in a hyphen and
      a surviving line that does not, which glue into `word`. */
  lemma ExampleWords(a: string, b: string, word: string)
    requires (a == "inter-" && b == "national" && word == "international") ||
             (a == "continu-" && b == "ing" && word == "continuing")
    ensures NoBreaks(a) && NoBreaks(b) && b != []
    ensures Strip(a) == a && Survives(a) && EndsWithHyphen(a)
    ensures Strip(b) == b && Survives(b) && !EndsWithHyphen(b)
    ensures Stem(a) + b == word
  {
    WordSurvives(a);
    WordSurvives(b);
  }
}
