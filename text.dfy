/** Python string primitives the book converter relies on: the character
    classes behind `str.strip`, `str.isdigit`, `str.splitlines` and the regex
    class `\s`, and the string operations built on them. */
module Text {

  /** Python's whitespace (`str.isspace`, the default of `str.strip`, and `\s`
      in a `str` regex): the complete list of code points Python treats so. */
  predicate IsSpace(c: char) {
    ('\t' <= c <= '\r') || ('\U{1C}' <= c <= '\U{1F}') || c == ' ' ||
    c == '\U{85}' || c == '\U{A0}' || c == '\U{1680}' ||
    ('\U{2000}' <= c <= '\U{200A}') || c == '\U{2028}' || c == '\U{2029}' ||
    c == '\U{202F}' || c == '\U{205F}' || c == '\U{3000}'
  }

  /** The boundaries `str.splitlines` splits at (`\r\n` counts as one). */
  predicate IsLineBreak(c: char) {
    ('\n' <= c <= '\r') || ('\U{1C}' <= c <= '\U{1E}') ||
    c == '\U{85}' || c == '\U{2028}' || c == '\U{2029}'
  }

  /** Decimal digits; only the ASCII ones are modelled. */
  predicate IsDigit(c: char) {
    '0' <= c <= '9'
  }

  /** `s.isdigit()`: non-empty and made of digits only. */
  predicate AllDigits(s: string) {
    s != [] && forall k :: 0 <= k < |s| ==> IsDigit(s[k])
  }

  /** `s.endswith('-')` */
  predicate EndsWithHyphen(s: string) {
    |s| > 0 && s[|s| - 1] == '-'
  }

  /** No two adjacent whitespace characters. */
  predicate NoDoubleSpace(s: string) {
    forall k :: 0 <= k < |s| - 1 ==> !(IsSpace(s[k]) && IsSpace(s[k + 1]))
  }

  /** The characters of `s` that are not whitespace, in order. */
  function NonSpace(s: string): string {
    if s == [] then []
    else (if IsSpace(s[0]) then [] else [s[0]]) + NonSpace(s[1..])
  }

  lemma {:induction false} NonSpaceAppend(a: string, b: string)
    ensures NonSpace(a + b) == NonSpace(a) + NonSpace(b)
  {
    if a != [] {
      assert (a + b)[0] == a[0] && (a + b)[1..] == a[1..] + b;
      NonSpaceAppend(a[1..], b);
    } else {
      assert a + b == b;
    }
  }

  lemma {:induction false} NonSpaceAllSpace(s: string)
    requires forall k :: 0 <= k < |s| ==> IsSpace(s[k])
    ensures NonSpace(s) == []
  {
    if s != [] {
      NonSpaceAllSpace(s[1..]);
    }
  }

  /** `s.strip()`: whitespace removed from both ends. */
  function Strip(s: string): (r: string)
    ensures |r| <= |s|
    ensures r != [] ==> !IsSpace(r[0]) && !IsSpace(r[|r| - 1])
  {
    if s != [] && IsSpace(s[0]) then Strip(s[1..])
    else if s != [] && IsSpace(s[|s| - 1]) then Strip(s[..|s| - 1])
    else s
  }

  /** `r` is the slice of `s` starting at `i`, and everything around it in
      `s` is whitespace. */
  predicate CutFrom(s: string, i: nat, r: string) {
    i + |r| <= |s| && r == s[i..i + |r|] &&
    (forall k :: 0 <= k < i ==> IsSpace(s[k])) &&
    (forall k :: i + |r| <= k < |s| ==> IsSpace(s[k]))
  }

  lemma CutFromFront(s: string, j: nat, r: string)
    requires s != [] && IsSpace(s[0]) && CutFrom(s[1..], j, r)
    ensures CutFrom(s, j + 1, r)
  {
    assert s[j + 1..j + 1 + |r|] == s[1..][j..j + |r|];
    forall k | 0 < k < j + 1 ensures IsSpace(s[k]) {
      assert s[k] == s[1..][k - 1];
    }
    forall k | j + 1 + |r| <= k < |s| ensures IsSpace(s[k]) {
      assert s[k] == s[1..][k - 1];
    }
  }

  lemma CutFromBack(s: string, i: nat, r: string)
    requires s != [] && IsSpace(s[|s| - 1]) && CutFrom(s[..|s| - 1], i, r)
    ensures CutFrom(s, i, r)
  {
    assert s[i..i + |r|] == s[..|s| - 1][i..i + |r|];
    forall k | 0 <= k < i ensures IsSpace(s[k]) {
      assert s[k] == s[..|s| - 1][k];
    }
    forall k | i + |r| <= k < |s| - 1 ensures IsSpace(s[k]) {
      assert s[k] == s[..|s| - 1][k];
    }
  }

  /** `s.strip()` is the slice of `s` starting at `i`, and everything cut
      off around it is whitespace. */
  lemma {:induction false} StripSlice(s: string) returns (i: nat)
    ensures CutFrom(s, i, Strip(s))
  {
    if s != [] && IsSpace(s[0]) {
      var j := StripSlice(s[1..]);
      CutFromFront(s, j, Strip(s));
      i := j + 1;
    } else if s != [] && IsSpace(s[|s| - 1]) {
      i := StripSlice(s[..|s| - 1]);
      CutFromBack(s, i, Strip(s));
    } else {
      i := 0;
    }
  }

  /** `s.strip()` is empty exactly when `s` is all whitespace. */
  lemma StripEmpty(s: string)
    ensures Strip(s) == [] <==> forall k :: 0 <= k < |s| ==> IsSpace(s[k])
  {
    var i := StripSlice(s);
  }

  lemma StripKeepsNonSpace(s: string)
    ensures NonSpace(Strip(s)) == NonSpace(s)
  {
    var r := Strip(s);
    var i := StripSlice(s);
    assert s == s[..i] + r + s[i + |r|..];
    NonSpaceAppend(s[..i] + r, s[i + |r|..]);
    NonSpaceAppend(s[..i], r);
    NonSpaceAllSpace(s[..i]);
    NonSpaceAllSpace(s[i + |r|..]);
  }

  /** Length of the first line of `s`: the index of its first line break. */
  function LineEnd(s: string): (k: nat)
    ensures k <= |s|
    ensures forall j :: 0 <= j < k ==> !IsLineBreak(s[j])
    ensures k < |s| ==> IsLineBreak(s[k])
  {
    if s == [] || IsLineBreak(s[0]) then 0 else 1 + LineEnd(s[1..])
  }

  /** `s` with every line-break character removed. */
  function DropBreaks(s: string): string {
    if s == [] then []
    else (if IsLineBreak(s[0]) then [] else [s[0]]) + DropBreaks(s[1..])
  }

  lemma {:induction false} DropBreaksAppend(a: string, b: string)
    ensures DropBreaks(a + b) == DropBreaks(a) + DropBreaks(b)
  {
    if a != [] {
      assert (a + b)[0] == a[0] && (a + b)[1..] == a[1..] + b;
      DropBreaksAppend(a[1..], b);
    } else {
      assert a + b == b;
    }
  }

  lemma {:induction false} DropBreaksNone(s: string)
    requires forall k :: 0 <= k < |s| ==> !IsLineBreak(s[k])
    ensures DropBreaks(s) == s
  {
    if s != [] {
      DropBreaksNone(s[1..]);
    }
  }

  lemma {:induction false} DropBreaksAll(s: string)
    requires forall k :: 0 <= k < |s| ==> IsLineBreak(s[k])
    ensures DropBreaks(s) == []
  {
    if s != [] {
      DropBreaksAll(s[1..]);
    }
  }

  /** Concatenation of a sequence of strings. */
  function Concat(ss: seq<string>): string {
    if ss == [] then [] else ss[0] + Concat(ss[1..])
  }

  /** Appending one more string to the sequence appends it to the
      concatenation. */
  lemma {:induction false} ConcatSnoc(ss: seq<string>, x: string)
    ensures Concat(ss + [x]) == Concat(ss) + x
  {
    if ss == [] {
      assert ss + [x] == [x];
    } else {
      assert (ss + [x])[1..] == ss[1..] + [x];
      ConcatSnoc(ss[1..], x);
    }
  }

  /** `s.splitlines()`: no line holds a line break, nothing but the breaks is
      lost, and a break at the very end opens no extra empty line. */
  function SplitLines(s: string): (lines: seq<string>)
    ensures forall i, j :: 0 <= i < |lines| && 0 <= j < |lines[i]| ==> !IsLineBreak(lines[i][j])
    ensures Concat(lines) == DropBreaks(s)
    ensures s == [] <==> lines == []
    decreases |s|
  {
    if s == [] then []
    else
      var k := LineEnd(s);
      if k == |s| then
        DropBreaksNone(s);
        [s]
      else
        var w := if s[k] == '\r' && k + 1 < |s| && s[k + 1] == '\n' then 2 else 1;
        var rest := SplitLines(s[k + w..]);
        DropFirstLine(s, k, w);
        assert ([s[..k]] + rest)[1..] == rest;
        [s[..k]] + rest
  }

  /** No line-break character anywhere in `s`. */
  predicate NoBreaks(s: string) {
    forall k :: 0 <= k < |s| ==> !IsLineBreak(s[k])
  }

  /** A non-empty text without breaks is a single line. */
  lemma SplitSingleLine(a: string)
    requires a != [] && NoBreaks(a)
    ensures SplitLines(a) == [a]
  {
  }

  /** A line without breaks, then any one break character, is split off as
      the first line; the break is lost. A '\r' directly followed by '\n'
      is the other case, `SplitAtCrLf`. */
  lemma SplitAtBreak(a: string, c: char, b: string)
    requires NoBreaks(a) && IsLineBreak(c)
    requires !(c == '\r' && b != [] && b[0] == '\n')
    ensures SplitLines(a + [c] + b) == [a] + SplitLines(b)
  {
    var s := a + [c] + b;
    assert s[|a|] == c;
    assert forall j :: 0 <= j < |a| ==> s[j] == a[j];
    assert LineEnd(s) == |a|;
    assert |a| + 1 < |s| ==> s[|a| + 1] == b[0];
    assert s[..|a|] == a && s[|a| + 1..] == b;
  }

  /** "\r\n" is one line boundary: the line before it is split off and
      both characters are lost. */
  lemma SplitAtCrLf(a: string, b: string)
    requires NoBreaks(a)
    ensures SplitLines(a + "\r\n" + b) == [a] + SplitLines(b)
  {
    var s := a + "\r\n" + b;
    assert s[|a|] == '\r' && s[|a| + 1] == '\n';
    assert forall j :: 0 <= j < |a| ==> s[j] == a[j];
    assert LineEnd(s) == |a|;
    assert s[..|a|] == a && s[|a| + 2..] == b;
  }

  /** Dropping the breaks of a text keeps its first line, whole, before the
      rest. */
  lemma DropFirstLine(s: string, k: nat, w: nat)
    requires k + w <= |s| && 1 <= w <= 2
    requires forall j :: 0 <= j < k ==> !IsLineBreak(s[j])
    requires forall j :: k <= j < k + w ==> IsLineBreak(s[j])
    ensures DropBreaks(s) == s[..k] + DropBreaks(s[k + w..])
  {
    var line, breaks, rest := s[..k], s[k..k + w], s[k + w..];
    forall j | 0 <= j < |line| ensures !IsLineBreak(line[j]) {
      assert line[j] == s[j];
    }
    forall j | 0 <= j < |breaks| ensures IsLineBreak(breaks[j]) {
      assert breaks[j] == s[k + j];
    }
    ThreeSlices(s, k, k + w);
    DropBreaksSplit(line, breaks, rest, s);
  }

  lemma ThreeSlices(s: string, i: nat, j: nat)
    requires i <= j <= |s|
    ensures s == s[..i] + s[i..j] + s[j..]
  {
  }

  /** A line, then line breaks, then the rest: only the breaks are lost. */
  lemma DropBreaksSplit(line: string, breaks: string, rest: string, s: string)
    requires forall j :: 0 <= j < |line| ==> !IsLineBreak(line[j])
    requires forall j :: 0 <= j < |breaks| ==> IsLineBreak(breaks[j])
    requires s == line + breaks + rest
    ensures DropBreaks(s) == line + DropBreaks(rest)
  {
    DropBreaksNone(line);
    DropBreaksAll(breaks);
    DropBreaksAppend(line + breaks, rest);
    DropBreaksAppend(line, breaks);
  }

  /** `' '.join(parts)` */
  function JoinSpace(parts: seq<string>): (r: string)
    ensures parts == [] ==> r == []
    ensures |parts| == 1 ==> r == parts[0]
  {
    if parts == [] then []
    else if |parts| == 1 then parts[0]
    else parts[0] + " " + JoinSpace(parts[1..])
  }

  /** Joining two non-empty runs of parts puts exactly one space between
      their joins, so the parts stay in order with single spaces between. */
  lemma {:induction false} JoinSpaceAppend(ps: seq<string>, qs: seq<string>)
    requires ps != [] && qs != []
    ensures JoinSpace(ps + qs) == JoinSpace(ps) + " " + JoinSpace(qs)
  {
    if |ps| == 1 {
      assert (ps + qs)[1..] == qs;
    } else {
      assert (ps + qs)[1..] == ps[1..] + qs;
      JoinSpaceAppend(ps[1..], qs);
    }
  }

  /** Joining with a space introduces no character other than the space. */
  lemma {:induction false} JoinSpaceChars(parts: seq<string>, c: char)
    requires c in JoinSpace(parts)
    ensures c == ' ' || exists i :: 0 <= i < |parts| && c in parts[i]
  {
    if |parts| > 1 {
      var rest := JoinSpace(parts[1..]);
      assert JoinSpace(parts) == parts[0] + " " + rest;
      if c in rest && c != ' ' {
        JoinSpaceChars(parts[1..], c);
        var i :| 0 <= i < |parts[1..]| && c in parts[1..][i];
        assert c in parts[i + 1];
      } else if c in parts[0] {
      }
    } else if |parts| == 1 {
      assert c in parts[0];
    }
  }
}
