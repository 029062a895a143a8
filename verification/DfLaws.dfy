/** Row classification, concatenation and the round trip for df tables. */
module DfLaws {
  import opened Wrappers
  import opened Text
  import opened DfParser

  // ----- classification -----

  // Which of the six numeric columns read as numbers decides the row, and the first that does not is reported.
  lemma RowDecidedByNumericColumns(columns: seq<string>, line: string)
    requires |columns| == 9
    ensures var ok := Readable(columns);
            var row := ClassifyColumns(columns, line);
            && (row.Skipped? <==> forall i :: 0 <= i < 6 ==> !ok[i])
            && (row.Data? <==> forall i :: 0 <= i < 6 ==> ok[i])
            && (row.MalformedField? <==> (exists i :: 0 <= i < 6 && ok[i]) && (exists i :: 0 <= i < 6 && !ok[i]))
            && (row.MalformedField? ==>
                  exists i :: 0 <= i < 6 && !ok[i] && (forall k :: 0 <= k < i ==> ok[k])
                              && row.field == ["itotal", "iused", "iavail", "size", "used", "avail"][i])
  {
    var ok := Readable(columns);
    var i := FirstFalse(ok);
    if i == 6 {
      assert ok[0] && ok[1] && ok[2] && ok[3] && ok[4] && ok[5];
    } else {
      assert !ok[i];
    }
  }

  // ----- concatenation -----

  lemma {:induction false} FirstMalformedOfConcat(a: seq<string>, b: seq<string>)
    ensures FirstMalformed(a + b)
         == if FirstMalformed(a) < |a| then FirstMalformed(a) else |a| + FirstMalformed(b)
  {
    hide Classify;
    if a == [] {
      assert a + b == b;
    } else {
      assert (a + b)[1..] == a[1..] + b;
      FirstMalformedOfConcat(a[1..], b);
    }
  }

  lemma {:induction false} CollectedOfConcat(a: seq<string>, b: seq<string>)
    ensures Collected(a + b) == Collected(a) + Collected(b)
  {
    hide Classify;
    if b == [] {
      assert a + b == a && Collected(a) + [] == Collected(a);
    } else {
      assert (a + b)[..|a + b| - 1] == a + b[..|b| - 1];
      CollectedOfConcat(a, b[..|b| - 1]);
    }
  }

  /** Parsing a concatenation concatenates the results when both parts parse; otherwise it reports the first
      part's error, or the second part's with its line number shifted. */
  lemma ParsedOfConcat(a: seq<string>, b: seq<string>)
    ensures Parsed(a + b) ==
            match Parsed(a)
            case Failure(e) => Failure(e)
            case Success(xs) =>
              match Parsed(b)
              case Failure(e) => Failure(e.(number := |a| + e.number))
              case Success(ys) => Success(xs + ys)
  {
    hide Classify, FirstMalformed, Collected;
    FirstMalformedOfConcat(a, b);
    CollectedOfConcat(a, b);
  }

  // ----- printing -----

  // Whitespace around and between the nine columns.
  datatype Layout = Layout(left: string, gaps: seq<string>, right: string)

  predicate ValidLayout(l: Layout) {
    && AllSpace(l.left) && AllSpace(l.right) && |l.gaps| == 8
    && forall i :: 0 <= i < 8 ==> l.gaps[i] != "" && AllSpace(l.gaps[i])
  }

  predicate IsWord(s: string) {
    s != "" && NoSpace(s)
  }

  // Eight words and a last column that may contain whitespace inside.
  predicate ValidColumns(columns: seq<string>) {
    && |columns| == 9 && (forall i :: 0 <= i < 8 ==> IsWord(columns[i]))
    && columns[8] != "" && Trimmed(columns[8])
  }

  function Spaced(words: seq<string>, gaps: seq<string>, rest: string): string
    requires |words| == |gaps|
  {
    if words == [] then rest else words[0] + gaps[0] + Spaced(words[1..], gaps[1..], rest)
  }

  function PrintColumns(columns: seq<string>, l: Layout): string
    requires |columns| == 9 && |l.gaps| == 8
  {
    l.left + Spaced(columns[..8], l.gaps, columns[8]) + l.right
  }

  lemma {:induction false} WordIsPrefix(w: string, rest: string)
    requires NoSpace(w) && (rest == "" || IsSpace(rest[0]))
    ensures Word(w + rest) == w
  {
    if w == "" {
      assert w + rest == rest;
    } else {
      assert (w + rest)[1..] == w[1..] + rest;
      WordIsPrefix(w[1..], rest);
    }
  }

  lemma SplitOneWord(w: string, gap: string, rest: string, n: nat)
    requires IsWord(w) && gap != "" && AllSpace(gap) && rest != "" && !IsSpace(rest[0]) && n > 0
    ensures SplitWords(w + gap + rest, n) == [w] + SplitWords(rest, n - 1)
  {
    var s := w + gap + rest;
    assert s == w + (gap + rest) && (gap + rest)[0] == gap[0];
    assert LStrip(s) == s;
    WordIsPrefix(w, gap + rest);
    assert s[|w|..] == gap + rest;
    LStripPad(gap, rest);
    assert LStrip(rest) == rest;
  }

  lemma {:induction false} SpacedStartsWithWord(words: seq<string>, gaps: seq<string>, rest: string)
    requires |words| == |gaps| && (forall i :: 0 <= i < |words| ==> IsWord(words[i]))
    requires rest != "" && !IsSpace(rest[0])
    ensures Spaced(words, gaps, rest) != "" && !IsSpace(Spaced(words, gaps, rest)[0])
  {
    if words != [] {
      assert IsWord(words[0]);
      assert Spaced(words, gaps, rest)[0] == words[0][0];
    }
  }

  lemma {:induction false} SpacedEndsWithRest(words: seq<string>, gaps: seq<string>, rest: string)
    requires |words| == |gaps| && rest != ""
    ensures var s := Spaced(words, gaps, rest); s != "" && s[|s| - 1] == rest[|rest| - 1]
  {
    if words != [] {
      SpacedEndsWithRest(words[1..], gaps[1..], rest);
    }
  }

  lemma {:induction false} SplitSpaced(words: seq<string>, gaps: seq<string>, rest: string)
    requires |words| == |gaps| && (forall i :: 0 <= i < |words| ==> IsWord(words[i]))
    requires forall i :: 0 <= i < |gaps| ==> gaps[i] != "" && AllSpace(gaps[i])
    requires rest != "" && !IsSpace(rest[0])
    ensures SplitWords(Spaced(words, gaps, rest), |words|) == words + [rest]
  {
    hide NoSpace, AllSpace;
    if words != [] {
      var tail := Spaced(words[1..], gaps[1..], rest);
      SpacedStartsWithWord(words[1..], gaps[1..], rest);
      SplitOneWord(words[0], gaps[0], tail, |words|);
      SplitSpaced(words[1..], gaps[1..], rest);
      assert [words[0]] + (words[1..] + [rest]) == words + [rest];
    }
  }

  lemma {:induction false} SpacedSplit(a: seq<string>, b: seq<string>, ga: seq<string>, gb: seq<string>, rest: string)
    requires |a| == |ga| && |b| == |gb|
    ensures Spaced(a + b, ga + gb, rest) == Spaced(a, ga, Spaced(b, gb, rest))
  {
    if a == [] {
      assert a + b == b && ga + gb == gb;
    } else {
      assert (a + b)[1..] == a[1..] + b && (ga + gb)[1..] == ga[1..] + gb;
      SpacedSplit(a[1..], b, ga[1..], gb, rest);
    }
  }

  // Printed columns are found again, whatever whitespace separates and surrounds them.
  lemma ColumnsRoundTrip(columns: seq<string>, l: Layout)
    requires ValidColumns(columns) && ValidLayout(l)
    ensures Strip(PrintColumns(columns, l)) != "" && Columns(Strip(PrintColumns(columns, l))) == Some(columns)
  {
    hide NoSpace, AllSpace;
    var body := Spaced(columns[..8], l.gaps, columns[8]);
    SpacedStartsWithWord(columns[..8], l.gaps, columns[8]);
    SpacedEndsWithRest(columns[..8], l.gaps, columns[8]);
    StripPadded(l.left, body, l.right);
    var words, last := columns[..7], [columns[7]];
    var gaps, lastGap := l.gaps[..7], [l.gaps[7]];
    assert columns[..8] == words + last && l.gaps == gaps + lastGap;
    SpacedSplit(words, last, gaps, lastGap, columns[8]);
    var remainder := Spaced(last, lastGap, columns[8]);
    SpacedStartsWithWord(last, lastGap, columns[8]);
    SplitSpaced(words, gaps, remainder);
    SplitSpaced(last, lastGap, columns[8]);
    assert words + (last + [columns[8]]) == columns;
  }

  function InodeText(n: Option<nat>): string {
    match n
    case None => "-"
    case Some(k) => DecText(k)
  }

  function ColumnsOf(u: FilesystemUsage): seq<string> {
    [u.source, u.fsType, InodeText(u.inodesTotal), InodeText(u.inodesUsed), InodeText(u.inodesAvailable),
     DecText(u.sizeBytes), DecText(u.usedBytes), DecText(u.availableBytes), u.target]
  }

  predicate Printable(u: FilesystemUsage) {
    IsWord(u.source) && IsWord(u.fsType) && u.target != "" && Trimmed(u.target)
  }

  lemma NumbersRoundTrip(n: nat)
    ensures IsWord(DecText(n)) && TryParseBytes(DecText(n)) == Some(n)
    ensures IsWord(InodeText(Some(n))) && TryParseInode(InodeText(Some(n))) == Some(Some(n))
  {
    DecRoundTrip(n);
    assert DecText(n) != "-" by { assert IsDigit(DecText(n)[0]); }
  }

  lemma InodesRoundTrip(n: Option<nat>)
    ensures IsWord(InodeText(n)) && TryParseInode(InodeText(n)) == Some(n)
  {
    if n.Some? {
      NumbersRoundTrip(n.value);
    }
  }

  // A column reads as a number exactly if it is not empty and holds digits alone; a dash only as an absent inode count.
  lemma NumbersExactlyWhen(text: string)
    ensures TryParseBytes(text).Some? <==> text != "" && forall i :: 0 <= i < |text| ==> text[i] in "0123456789"
    ensures TryParseInode(text) == Some(None) <==> text == "-"
    ensures text != "-" ==>
              TryParseInode(text) == if TryParseBytes(text).Some? then Some(TryParseBytes(text)) else None
  {
    hide IsDigit;
    forall i | 0 <= i < |text| {
      HexDigits(text[i]);
    }
  }

  lemma RowRoundTrip(u: FilesystemUsage, l: Layout)
    requires Printable(u) && ValidLayout(l)
    ensures var line := PrintColumns(ColumnsOf(u), l); Classify(line) == Data(u.(rawLine := line))
  {
    hide DecText, IsWord, Columns, Strip, InodeText, TryParseInode, TryParseBytes, PrintColumns;
    InodesRoundTrip(u.inodesTotal);
    InodesRoundTrip(u.inodesUsed);
    InodesRoundTrip(u.inodesAvailable);
    NumbersRoundTrip(u.sizeBytes);
    NumbersRoundTrip(u.usedBytes);
    NumbersRoundTrip(u.availableBytes);
    ColumnsRoundTrip(ColumnsOf(u), l);
    var line := PrintColumns(ColumnsOf(u), l);
    RowDecidedByNumericColumns(ColumnsOf(u), line);
  }

  // ----- tables -----

  // What a table can hold between data rows: blank lines, and header or banner lines with no numeric column.
  datatype Item =
    | Row(usage: FilesystemUsage, layout: Layout)
    | BlankLine(text: string)
    | Header(columns: seq<string>, layout: Layout)

  predicate ValidItem(item: Item) {
    match item
    case Row(u, l) => Printable(u) && ValidLayout(l)
    case BlankLine(text) => AllSpace(text)
    case Header(columns, l) =>
      ValidColumns(columns) && ValidLayout(l) && forall i :: 0 <= i < 6 ==> !Readable(columns)[i]
  }

  function ItemLine(item: Item): string
    requires ValidItem(item)
  {
    match item
    case Row(u, l) => PrintColumns(ColumnsOf(u), l)
    case BlankLine(text) => text
    case Header(columns, l) => PrintColumns(columns, l)
  }

  function PrintTable(items: seq<Item>): (lines: seq<string>)
    requires forall i :: 0 <= i < |items| ==> ValidItem(items[i])
    ensures |lines| == |items|
  {
    if items == [] then [] else PrintTable(items[..|items| - 1]) + [ItemLine(items[|items| - 1])]
  }

  // The records printed, each remembering its own line.
  function Records(items: seq<Item>): seq<FilesystemUsage>
    requires forall i :: 0 <= i < |items| ==> ValidItem(items[i])
  {
    if items == [] then []
    else
      var item := items[|items| - 1];
      Records(items[..|items| - 1]) + if item.Row? then [item.usage.(rawLine := ItemLine(item))] else []
  }

  lemma ItemClass(item: Item)
    requires ValidItem(item)
    ensures item.Row? ==> Classify(ItemLine(item)) == Data(item.usage.(rawLine := ItemLine(item)))
    ensures item.BlankLine? ==> Classify(ItemLine(item)) == Blank
    ensures item.Header? ==> Classify(ItemLine(item)) == Skipped
  {
    hide Columns, Strip, PrintColumns, Readable;
    match item
    case Row(u, l) => RowRoundTrip(u, l);
    case BlankLine(text) => StripTrims(text);
    case Header(columns, l) =>
      ColumnsRoundTrip(columns, l);
      RowDecidedByNumericColumns(columns, PrintColumns(columns, l));
  }

  /** Printing any records with any positive whitespace between columns, interleaved with blank and header
      lines, and parsing the table gives back exactly those records in order. */
  lemma {:induction false} TableRoundTrip(items: seq<Item>)
    requires forall i :: 0 <= i < |items| ==> ValidItem(items[i])
    ensures Parsed(PrintTable(items)) == Success(Records(items))
  {
    hide Classify, ItemLine, ValidItem;
    if items != [] {
      var front, last := items[..|items| - 1], items[|items| - 1];
      TableRoundTrip(front);
      ItemClass(last);
      var line := ItemLine(last);
      ParsedOfConcat(PrintTable(front), [line]);
      assert [line][..0] == [] && [line][1..] == [];
      assert FirstMalformed([line]) == 1;
      assert Collected([line]) == if last.Row? then [last.usage.(rawLine := line)] else [];
    }
  }
}
