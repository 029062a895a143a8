/** What a successful parse guarantees, which line decides a field, and which lines do not matter. */
module EfiLaws {
  import opened Wrappers
  import opened Text
  import opened EfiParser

  predicate OptionalHex4(n: Option<string>) {
    n.Some? ==> IsHex4(n.value)
  }

  ghost predicate WellNumbered(c: Configuration) {
    && OptionalHex4(c.current) && OptionalHex4(c.next)
    && (forall i :: 0 <= i < |c.order| ==> IsHex4(c.order[i]))
    && (forall i :: 0 <= i < |c.entries| ==> IsHex4(c.entries[i].bootNumber))
  }

  lemma {:induction false} FoldedIsWellNumbered(lines: seq<string>)
    ensures WellNumbered(Folded(lines))
  {
    hide Strip, IsHex4, Partition, Split;
    if lines != [] {
      FoldedIsWellNumbered(lines[..|lines| - 1]);
    }
  }

  /** A report parses exactly when no line is malformed and no boot number occurs twice; then every boot
      number in the result is four hex digits, so the models' own format checks never refuse it. Otherwise the first
      malformed line is named, and duplicates are reported only if there is none. */
  lemma ParsesExactlyWhenWellFormed(lines: seq<string>)
    ensures Parsed(lines).Success? <==>
              (forall i :: 0 <= i < |lines| ==> !ReadLine(lines[i]).Malformed?)
                  && DistinctEntries(Folded(lines).entries)
    ensures Parsed(lines).Success? ==> WellNumbered(Parsed(lines).value) && DistinctEntries(Parsed(lines).value.entries)
    ensures Parsed(lines) == Failure(DuplicateEntries) <==>
              (forall i :: 0 <= i < |lines| ==> !ReadLine(lines[i]).Malformed?)
                  && !DistinctEntries(Folded(lines).entries)
    ensures Parsed(lines).Failure? && Parsed(lines).error.MalformedLine? ==>
              var e := Parsed(lines).error;
              && 1 <= e.number <= |lines| && lines[e.number - 1] == e.line && ReadLine(e.line) == Malformed(e.field)
              && forall k :: 0 <= k < e.number - 1 ==> !ReadLine(lines[k]).Malformed?
  {
    hide ReadLine, WellNumbered, Folded, FirstMalformed;
    FoldedIsWellNumbered(lines);
    FirstMalformedIsFirst(lines);
  }

  // ----- repeated fields -----

  /** A later line for a field wins: what follows the last one of its kind does not change the field. */
  lemma {:induction false} LastLineWins(before: seq<string>, line: string, after: seq<string>)
    ensures var (event, c) := (ReadLine(line), Folded(before + [line] + after));
            && (event.SetCurrent? && (forall l :: l in after ==> !ReadLine(l).SetCurrent?) ==>
                c.current == event.number)
            && (event.SetTimeout? && (forall l :: l in after ==> !ReadLine(l).SetTimeout?) ==>
                c.timeout == Some(event.seconds))
            && (event.SetOrder? && (forall l :: l in after ==> !ReadLine(l).SetOrder?) ==> c.order == event.numbers)
            && (event.SetNext? && (forall l :: l in after ==> !ReadLine(l).SetNext?) ==> c.next == event.number)
    decreases |after|
  {
    hide ReadLine, Folded;
    if after == [] {
      assert before + [line] + after == before + [line];
      FoldedSnoc(before, line);
    } else {
      var front, last := after[..|after| - 1], after[|after| - 1];
      assert after == front + [last] && last in after;
      assert before + [line] + after == (before + [line] + front) + [last];
      LastLineWins(before, line, front);
      FoldedSnoc(before + [line] + front, last);
    }
  }

  // ----- lines the parser ignores -----

  function Significant(lines: seq<string>): seq<string> {
    if lines == [] then []
    else
      var n := |lines| - 1;
      Significant(lines[..n]) + if ReadLine(lines[n]).Ignored? then [] else [lines[n]]
  }

  predicate NoneMalformed(lines: seq<string>) {
    forall i :: 0 <= i < |lines| ==> !ReadLine(lines[i]).Malformed?
  }

  lemma NoneMalformedSnoc(lines: seq<string>, line: string)
    ensures NoneMalformed(lines + [line]) <==> NoneMalformed(lines) && !ReadLine(line).Malformed?
  {
    hide ReadLine;
    var all := lines + [line];
    assert all[|lines|] == line && forall i :: 0 <= i < |lines| ==> all[i] == lines[i];
  }

  lemma {:induction false} IgnoredLinesDoNotMatter(lines: seq<string>)
    ensures Folded(lines) == Folded(Significant(lines))
    ensures NoneMalformed(lines) <==> NoneMalformed(Significant(lines))
  {
    hide ReadLine, NoneMalformed;
    if lines != [] {
      var front, last := lines[..|lines| - 1], lines[|lines| - 1];
      assert lines == front + [last];
      IgnoredLinesDoNotMatter(front);
      NoneMalformedSnoc(front, last);
      if ReadLine(last).Ignored? {
        assert Significant(front) + [] == Significant(front);
      } else {
        NoneMalformedSnoc(Significant(front), last);
        FoldedSnoc(Significant(front), last);
      }
    }
  }

  lemma FoldedSnoc(lines: seq<string>, line: string)
    ensures Folded(lines + [line]) == Apply(Folded(lines), ReadLine(line))
  {
    assert (lines + [line])[..|lines|] == lines;
  }
}
