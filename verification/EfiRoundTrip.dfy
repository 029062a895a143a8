/** Whole firmware reports: printed with any spacing, and read back. */
module EfiRoundTrip {
  import opened Wrappers
  import opened Text
  import opened EfiParser
  import opened EfiLaws
  import opened EfiText

  // How one field line is printed; an absent value may still show its empty line.
  datatype FieldStyle = FieldStyle(spacing: Spacing, shownEmpty: bool)

  datatype Style = Style(
    current: FieldStyle, timeout: Spacing, unit: string, order: FieldStyle, pads: seq<(string, string)>,
    next: FieldStyle, entries: seq<Spacing>)

  ghost predicate Printable(c: Configuration) {
    && WellNumbered(c) && DistinctEntries(c.entries)
    && forall i :: 0 <= i < |c.entries| ==> PrintableEntry(c.entries[i])
  }

  ghost predicate ValidStyle(c: Configuration, y: Style) {
    && ValidSpacing(y.current.spacing) && ValidSpacing(y.next.spacing) && ValidSpacing(y.order.spacing)
    && ValidSpacing(y.timeout) && (y.unit == "" || (!IsDigit(y.unit[0]) && !IsSpace(y.unit[|y.unit| - 1])))
    && |y.pads| == |c.order| && ValidPads(y.pads)
    && (c.order != [] ==> y.pads[0].0 == "" && y.pads[|y.pads| - 1].1 == "")
    && |y.entries| == |c.entries|
    && forall i :: 0 <= i < |y.entries| ==> ValidSpacing(y.entries[i]) && y.entries[i].gap != ""
  }

  function Optionally(shown: bool, line: string): seq<string> {
    if shown then [line] else []
  }

  function OrElse(text: Option<string>): string {
    if text.Some? then text.value else ""
  }

  function CurrentText(c: Configuration, y: Style): string {
    FieldText("BootCurrent:", OrElse(c.current), y.current.spacing)
  }

  function TimeoutText(c: Configuration, y: Style): string {
    if c.timeout.Some? then FieldText("Timeout:", DecText(c.timeout.value) + y.unit, y.timeout) else ""
  }

  function OrderText(c: Configuration, y: Style): string
    requires |y.pads| == |c.order|
  {
    FieldText("BootOrder:", Join(Padded(c.order, y.pads), ','), y.order.spacing)
  }

  function NextText(c: Configuration, y: Style): string {
    FieldText("BootNext:", OrElse(c.next), y.next.spacing)
  }

  function EntryLines(entries: seq<BootEntry>, spacings: seq<Spacing>): (lines: seq<string>)
    requires |entries| == |spacings|
    ensures |lines| == |entries|
  {
    if entries == [] then []
    else
      var n := |entries| - 1;
      EntryLines(entries[..n], spacings[..n]) + [EntryLine(entries[n], spacings[n])]
  }

  function FieldLines(c: Configuration, y: Style): seq<string>
    requires |y.pads| == |c.order|
  {
    Optionally(c.current.Some? || y.current.shownEmpty, CurrentText(c, y))
    + Optionally(c.timeout.Some?, TimeoutText(c, y))
    + Optionally(c.order != [] || y.order.shownEmpty, OrderText(c, y))
    + Optionally(c.next.Some? || y.next.shownEmpty, NextText(c, y))
  }

  function Print(c: Configuration, y: Style): seq<string>
    requires |y.pads| == |c.order| && |y.entries| == |c.entries|
  {
    FieldLines(c, y) + EntryLines(c.entries, y.entries)
  }

  // The printed entries remember their own lines.
  function WithLines(entries: seq<BootEntry>, spacings: seq<Spacing>): (r: seq<BootEntry>)
    requires |entries| == |spacings|
    ensures |r| == |entries|
  {
    seq(|entries|, i requires 0 <= i < |entries| => entries[i].(rawLine := EntryLine(entries[i], spacings[i])))
  }

  lemma HexHasNoSeparators(s: string)
    requires IsHex4(s)
    ensures Trimmed(s) && s != "" && ',' !in s
  {
    assert s == [s[0], s[1], s[2], s[3]];
  }

  lemma CurrentRead(c: Configuration, y: Style)
    requires Printable(c) && ValidStyle(c, y)
    ensures ReadLine(CurrentText(c, y)) == SetCurrent(c.current)
  {
    hide IsHex4, ReadLine, FieldText;
    if c.current.Some? { HexHasNoSeparators(c.current.value); }
    CurrentLine(OrElse(c.current), y.current.spacing);
  }

  lemma NextRead(c: Configuration, y: Style)
    requires Printable(c) && ValidStyle(c, y)
    ensures ReadLine(NextText(c, y)) == SetNext(c.next)
  {
    hide IsHex4, ReadLine, FieldText;
    if c.next.Some? { HexHasNoSeparators(c.next.value); }
    NextLine(OrElse(c.next), y.next.spacing);
  }

  lemma TimeoutRead(c: Configuration, y: Style)
    requires Printable(c) && ValidStyle(c, y) && c.timeout.Some?
    ensures ReadLine(TimeoutText(c, y)) == SetTimeout(c.timeout.value)
  {
    hide ReadLine, FieldText, DecText, DecValue;
    var digits := DecText(c.timeout.value);
    DecRoundTrip(c.timeout.value);
    var v := digits + y.unit;
    assert IsDigit(digits[0]) && IsDigit(digits[|digits| - 1]);
    assert v[0] == digits[0] && v[|v| - 1] == if y.unit == "" then digits[|digits| - 1] else y.unit[|y.unit| - 1];
    TimeoutLine(digits, y.unit, y.timeout);
  }

  lemma {:induction false} JoinedTrimmed(parts: seq<string>)
    requires parts != [] && forall i :: 0 <= i < |parts| ==> parts[i] != ""
    requires !IsSpace(parts[0][0]) && !IsSpace(parts[|parts| - 1][|parts[|parts| - 1]| - 1])
    ensures Join(parts, ',') != "" && Trimmed(Join(parts, ','))
  {
    JoinEnds(parts);
  }

  lemma {:induction false} JoinEnds(parts: seq<string>)
    requires parts != [] && forall i :: 0 <= i < |parts| ==> parts[i] != ""
    ensures var (text, last) := (Join(parts, ','), parts[|parts| - 1]);
            text != "" && text[0] == parts[0][0] && text[|text| - 1] == last[|last| - 1]
  {
    if |parts| > 1 {
      JoinEnds(parts[1..]);
    }
  }

  lemma OrderRead(c: Configuration, y: Style)
    requires Printable(c) && ValidStyle(c, y)
    ensures ReadLine(OrderText(c, y)) == SetOrder(c.order)
  {
    hide IsHex4, ReadLine, FieldText, Join;
    var n := |c.order| - 1;
    if c.order == [] {
      JoinedNothing(c, y);
      EmptyOrderLine(y.order.spacing);
    } else {
      var padded := Padded(c.order, y.pads);
      forall i | 0 <= i < |c.order|
        ensures Trimmed(c.order[i]) && c.order[i] != "" && ',' !in c.order[i] && padded[i] != ""
      {
        HexHasNoSeparators(c.order[i]);
      }
      assert padded[0] == "" + c.order[0] + y.pads[0].1 && padded[0][0] == c.order[0][0];
      assert padded[n] == y.pads[n].0 + c.order[n] + "";
      assert padded[n][|padded[n]| - 1] == c.order[n][|c.order[n]| - 1];
      JoinedTrimmed(padded);
      OrderLine(c.order, y.pads, y.order.spacing);
    }
  }

  lemma JoinedNothing(c: Configuration, y: Style)
    requires c.order == [] && y.pads == []
    ensures Join(Padded(c.order, y.pads), ',') == ""
  {
  }

  lemma {:induction false} FoldedEntries(prefix: seq<string>, entries: seq<BootEntry>, spacings: seq<Spacing>)
    requires |entries| == |spacings| && forall i :: 0 <= i < |entries| ==> PrintableEntry(entries[i])
    requires forall i :: 0 <= i < |entries| ==> ValidSpacing(spacings[i]) && spacings[i].gap != ""
    ensures Folded(prefix + EntryLines(entries, spacings))
         == Folded(prefix).(entries := Folded(prefix).entries + WithLines(entries, spacings))
    ensures forall line :: line in EntryLines(entries, spacings) ==> ReadLine(line).AddEntry?
  {
    hide ReadLine, EntryLine, PrintableEntry, Folded, ValidSpacing;
    if entries == [] {
      assert prefix + EntryLines(entries, spacings) == prefix;
      assert Folded(prefix).entries + WithLines(entries, spacings) == Folded(prefix).entries;
    } else {
      var n := |entries| - 1;
      var front, last := entries[..n], entries[n];
      var lines, line := prefix + EntryLines(front, spacings[..n]), EntryLine(last, spacings[n]);
      FoldedEntries(prefix, front, spacings[..n]);
      EntryLineParses(last, spacings[n]);
      assert prefix + EntryLines(entries, spacings) == lines + [line];
      FoldedSnoc(lines, line);
      assert WithLines(entries, spacings) == WithLines(front, spacings[..n]) + [last.(rawLine := line)];
      assert Folded(prefix).entries + WithLines(entries, spacings)
          == Folded(prefix).entries + WithLines(front, spacings[..n]) + [last.(rawLine := line)];
    }
  }

  // A printed line that may be left out: its event if present, no change otherwise.
  lemma FoldedOptional(lines: seq<string>, shown: bool, line: string)
    ensures Folded(lines + Optionally(shown, line))
         == if shown then Apply(Folded(lines), ReadLine(line)) else Folded(lines)
  {
    if shown {
      FoldedSnoc(lines, line);
    } else {
      assert lines + [] == lines;
    }
  }

  lemma FoldedEmpty()
    ensures Folded([]) == EMPTY
  {
  }

  lemma FieldsFold(c: Configuration, y: Style)
    requires Printable(c) && ValidStyle(c, y)
    ensures Folded(FieldLines(c, y)) == c.(entries := [])
    ensures forall line :: line in FieldLines(c, y) ==> !ReadLine(line).Malformed?
  {
    hide ReadLine, Folded, DistinctEntries, PrintableEntry, CurrentText, TimeoutText, OrderText, NextText;
    hide WellNumbered, ValidSpacing, ValidPads;
    CurrentRead(c, y);
    if c.timeout.Some? { TimeoutRead(c, y); }
    OrderRead(c, y);
    NextRead(c, y);
    var l1 := Optionally(c.current.Some? || y.current.shownEmpty, CurrentText(c, y));
    var l2 := l1 + Optionally(c.timeout.Some?, TimeoutText(c, y));
    var l3 := l2 + Optionally(c.order != [] || y.order.shownEmpty, OrderText(c, y));
    FoldedEmpty();
    assert [] + l1 == l1;
    FoldedOptional([], c.current.Some? || y.current.shownEmpty, CurrentText(c, y));
    assert Folded(l1) == EMPTY.(current := c.current);
    FoldedOptional(l1, c.timeout.Some?, TimeoutText(c, y));
    assert Folded(l2) == EMPTY.(current := c.current, timeout := c.timeout);
    FoldedOptional(l2, c.order != [] || y.order.shownEmpty, OrderText(c, y));
    assert Folded(l3) == c.(next := None, entries := []);
    FoldedOptional(l3, c.next.Some? || y.next.shownEmpty, NextText(c, y));
  }

  lemma PrintedFolds(c: Configuration, y: Style)
    requires Printable(c) && ValidStyle(c, y)
    ensures Folded(Print(c, y)) == c.(entries := WithLines(c.entries, y.entries))
    ensures forall line :: line in Print(c, y) ==> !ReadLine(line).Malformed?
  {
    hide ReadLine, Folded, FieldLines, EntryLine, DistinctEntries, PrintableEntry, WellNumbered, ValidSpacing;
    FieldsFold(c, y);
    FoldedEntries(FieldLines(c, y), c.entries, y.entries);
    assert [] + WithLines(c.entries, y.entries) == WithLines(c.entries, y.entries);
  }

  /** Printing a configuration with any spacing, and parsing it with any lines the parser ignores mixed in, gives
      the same fields back, in the same order. */
  lemma ReportRoundTrip(c: Configuration, y: Style, lines: seq<string>)
    requires Printable(c) && ValidStyle(c, y) && Significant(lines) == Print(c, y)
    ensures Parsed(lines) == Success(c.(entries := WithLines(c.entries, y.entries)))
  {
    hide ReadLine, Print, Folded, EntryLine, Significant, PrintableEntry, WellNumbered, FirstMalformed, ValidSpacing;
    PrintedFolds(c, y);
    IgnoredLinesDoNotMatter(lines);
    ParsesExactlyWhenWellFormed(lines);
    forall i | 0 <= i < |Significant(lines)|
      ensures !ReadLine(Significant(lines)[i]).Malformed?
    {
      assert Significant(lines)[i] in Print(c, y);
    }
    assert DistinctEntries(WithLines(c.entries, y.entries));
  }
}
