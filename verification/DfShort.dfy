/** Lines of fewer than nine columns, and the shape of every line of a table. */
module DfShort {
  import opened Text
  import opened DfParser
  import opened DfLaws

  predicate ValidGaps(gaps: seq<string>) {
    forall i :: 0 <= i < |gaps| ==> gaps[i] != "" && AllSpace(gaps[i])
  }

  predicate AllWords(words: seq<string>) {
    forall i :: 0 <= i < |words| ==> IsWord(words[i])
  }

  // One to eight words, with whitespace between and around them.
  predicate ShortLine(line: string, words: seq<string>, gaps: seq<string>, left: string, right: string) {
    && 1 <= |words| <= 8 && AllWords(words) && |gaps| == |words| - 1 && ValidGaps(gaps)
    && AllSpace(left) && AllSpace(right)
    && line == left + Spaced(words[..|words| - 1], gaps, words[|words| - 1]) + right
  }

  // ----- printed words are found -----

  lemma SplitLastWord(w: string, n: nat)
    requires IsWord(w)
    ensures SplitWords(w, n) == [w]
  {
    assert LStrip(w) == w;
    assert w + "" == w;
    WordIsPrefix(w, "");
    assert w[|w|..] == "" && LStrip("") == "";
  }

  lemma {:induction false} SplitAll(words: seq<string>, gaps: seq<string>, last: string, n: nat)
    requires |words| == |gaps| && AllWords(words) && ValidGaps(gaps) && IsWord(last) && n >= |words|
    ensures SplitWords(Spaced(words, gaps, last), n) == words + [last]
  {
    hide NoSpace, AllSpace, SplitWords;
    if words == [] {
      SplitLastWord(last, n);
      assert words + [last] == [last];
    } else {
      var tail := Spaced(words[1..], gaps[1..], last);
      LastOfWord(last);
      SpacedStartsWithWord(words[1..], gaps[1..], last);
      SplitOneWord(words[0], gaps[0], tail, n);
      SplitAll(words[1..], gaps[1..], last, n - 1);
      assert [words[0]] + (words[1..] + [last]) == words + [last];
    }
  }

  lemma BodyOfShort(line: string, words: seq<string>, gaps: seq<string>, left: string, right: string)
    requires ShortLine(line, words, gaps, left, right)
    ensures Strip(line) == Spaced(words[..|words| - 1], gaps, words[|words| - 1]) && Strip(line) != ""
  {
    hide AllSpace, Strip;
    var front, last := words[..|words| - 1], words[|words| - 1];
    var body := Spaced(front, gaps, last);
    LastOfWord(last);
    SpacedStartsWithWord(front, gaps, last);
    SpacedEndsWithRest(front, gaps, last);
    StripPadded(left, body, right);
  }

  lemma LastOfWord(w: string)
    requires IsWord(w)
    ensures !IsSpace(w[0]) && !IsSpace(w[|w| - 1])
  {
  }

  // One to eight words are a malformed row, however they are spaced.
  lemma ShortIsMalformed(line: string, words: seq<string>, gaps: seq<string>, left: string, right: string)
    requires ShortLine(line, words, gaps, left, right)
    ensures Classify(line) == MalformedRow
  {
    hide AllSpace, Strip, SplitWords, IsWord, ValidGaps;
    BodyOfShort(line, words, gaps, left, right);
    var front, last := words[..|words| - 1], words[|words| - 1];
    SplitAll(front, gaps, last, 7);
    assert front + [last] == words;
    if |words| == 8 {
      SplitLastWord(words[7], 1);
    }
  }

  // ----- every line is printed -----

  lemma {:induction false} WordStops(s: string)
    ensures Word(s) == s || IsSpace(s[|Word(s)|])
  {
    if s != "" && !IsSpace(s[0]) {
      WordStops(s[1..]);
    }
  }

  // The first word of a stripped text, the gap behind it, and the rest.
  lemma FirstWord(s: string, n: nat) returns (gap: string, tail: string)
    requires s != "" && Trimmed(s) && n > 0
    ensures s == Word(s) + gap + tail && IsWord(Word(s)) && AllSpace(gap) && Trimmed(tail)
    ensures if tail == "" then gap == "" else gap != ""
    ensures SplitWords(s, n) == [Word(s)] + if tail == "" then [] else SplitWords(tail, n - 1)
  {
    hide AllSpace, NoSpace, LStrip, SplitWords, Word;
    StrippedAlready(s);
    SplitFirst(s, n);
    var rest := s[|Word(s)|..];
    WordStops(s);
    gap, tail := LStripSplits(rest);
    LStripBlank(rest);
    SplitIgnoresPad(rest, n - 1);
    assert rest != "" ==> rest[|rest| - 1] == s[|s| - 1];
    if tail == "" {
      assert gap + "" == gap;
      SplitNothing(n - 1);
      SpaceInside(rest);
    } else {
      assert tail[|tail| - 1] == s[|s| - 1];
    }
  }

  lemma SplitFirst(s: string, n: nat)
    requires s != "" && !IsSpace(s[0]) && n > 0
    ensures SplitWords(s, n) == [Word(s)] + SplitWords(s[|Word(s)|..], n - 1)
  {
    assert LStrip(s) == s;
  }

  lemma SplitNothing(n: nat)
    ensures SplitWords("", n) == []
  {
  }

  lemma {:induction false} WordsOf(s: string, n: nat) returns (gaps: seq<string>)
    requires s != "" && Trimmed(s)
    ensures var parts := SplitWords(s, n);
            && 1 <= |parts| <= n + 1 && |gaps| == |parts| - 1 && ValidGaps(gaps)
            && var (front, last) := (parts[..|parts| - 1], parts[|parts| - 1]);
               && AllWords(front) && last != "" && Trimmed(last) && (|parts| <= n ==> IsWord(last))
               && s == Spaced(front, gaps, last)
    decreases n
  {
    hide AllSpace, NoSpace, LStrip, IsWord, IsSpace, Word, SplitWords, Spaced, Trimmed;
    gaps := [];
    if n == 0 {
      SplitWhole(s);
      assert [s][..0] == [];
      SpacedNothing(s);
    } else {
      var w := Word(s);
      var gap, tail := FirstWord(s, n);
      if tail == "" {
        assert w + "" + "" == w && [w][..0] == [] && [w] + [] == [w];
        SpacedNothing(s);
      } else {
        var more := WordsOf(tail, n - 1);
        gaps := [gap] + more;
        var parts := SplitWords(tail, n - 1);
        assert ([w] + parts)[..|parts|] == [w] + parts[..|parts| - 1];
        SpacedCons(w, gap, parts[..|parts| - 1], more, parts[|parts| - 1]);
      }
    }
  }

  lemma SpacedNothing(last: string)
    ensures Spaced([], [], last) == last
  {
  }

  lemma SplitWhole(s: string)
    requires s != "" && Trimmed(s)
    ensures SplitWords(s, 0) == [s]
  {
    StrippedAlready(s);
  }

  lemma StrippedAlready(s: string)
    requires s != "" && Trimmed(s)
    ensures LStrip(s) == s
  {
  }

  lemma SpacedCons(w: string, gap: string, words: seq<string>, gaps: seq<string>, last: string)
    requires |words| == |gaps|
    ensures Spaced([w] + words, [gap] + gaps, last) == w + gap + Spaced(words, gaps, last)
  {
    assert ([w] + words)[1..] == words && ([gap] + gaps)[1..] == gaps;
  }

  lemma SpaceInside(s: string)
    requires AllSpace(s)
    ensures s == "" || IsSpace(s[|s| - 1])
  {
  }

  lemma SplitIgnoresPad(s: string, n: nat)
    ensures SplitWords(s, n) == SplitWords(LStrip(s), n)
  {
    LStripBlank(s);
  }

  // A line with nine columns is one printed with a layout.
  lemma NineColumns(line: string) returns (l: Layout)
    requires Strip(line) != "" && Columns(Strip(line)).Some?
    ensures var columns := Columns(Strip(line)).value;
            ValidColumns(columns) && ValidLayout(l) && line == PrintColumns(columns, l)
  {
    hide AllSpace, NoSpace, Strip, SplitWords;
    var s := Strip(line);
    StripTrims(line);
    var parts := SplitWords(s, 7);
    var gaps := WordsOf(s, 7);
    var more := WordsOf(parts[7], 1);
    var remainder := SplitWords(parts[7], 1);
    var columns := Columns(s).value;
    var left, right := StripSplits(line);
    l := Layout(left, gaps + more, right);
    assert columns[..8] == parts[..7] + [remainder[0]] && remainder[..1] == [remainder[0]];
    SpacedSplit(parts[..7], [remainder[0]], gaps, more, remainder[1]);
  }

  /** A line is a malformed row exactly when it holds one to eight words, however they are spaced. */
  lemma MalformedRowExactlyWhen(line: string)
    ensures Classify(line).MalformedRow?
       <==> exists words, gaps, left, right :: ShortLine(line, words, gaps, left, right)
  {
    hide AllSpace, NoSpace, Strip, SplitWords, ClassifyColumns;
    if Classify(line).MalformedRow? {
      var s := Strip(line);
      StripTrims(line);
      var parts := SplitWords(s, 7);
      var gaps := WordsOf(s, 7);
      var left, right := StripSplits(line);
      if |parts| == 8 {
        var more := WordsOf(parts[7], 1);
        var remainder := SplitWords(parts[7], 1);
        assert |remainder| == 1;
        assert remainder[..0] == [] && remainder[0] == parts[7];
      }
      assert parts == parts[..|parts| - 1] + [parts[|parts| - 1]];
      assert AllWords(parts);
      assert ShortLine(line, parts, gaps, left, right);
    }
    forall words, gaps, left, right | ShortLine(line, words, gaps, left, right)
      ensures Classify(line) == MalformedRow
    {
      ShortIsMalformed(line, words, gaps, left, right);
    }
  }
}
