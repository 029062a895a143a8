/** What each printed line is read as, whatever whitespace it carries, and the round trip of whole reports. */
module EfiText {
  import opened Wrappers
  import opened Text
  import opened EfiParser

  // Whitespace around a line, and between its prefix and what follows.
  datatype Spacing = Spacing(left: string, gap: string, right: string)

  predicate ValidSpacing(l: Spacing) {
    AllSpace(l.left) && AllSpace(l.gap) && AllSpace(l.right)
  }

  function FieldText(prefix: string, value: string, l: Spacing): string {
    l.left + prefix + l.gap + value + l.right
  }

  function Body(value: string, l: Spacing): string {
    if value == "" then "" else l.gap + value
  }

  lemma TrimmedStrips(s: string)
    requires Trimmed(s)
    ensures Strip(s) == s
  {
    StripPadded("", s, "");
    assert "" + s + "" == s;
  }

  lemma FieldStrips(prefix: string, value: string, l: Spacing)
    requires ValidSpacing(l) && prefix != "" && Trimmed(prefix) && Trimmed(value)
    ensures Strip(FieldText(prefix, value, l)) == prefix + Body(value, l)
    ensures Strip(Body(value, l)) == value && LStrip(Body(value, l)) == value
  {
    var text := FieldText(prefix, value, l);
    TrimmedStrips(value);
    if value == "" {
      assert text == l.left + prefix + (l.gap + l.right);
      StripPadded(l.left, prefix, l.gap + l.right);
      assert prefix + "" == prefix;
    } else {
      var inner := prefix + (l.gap + value);
      assert text == l.left + inner + l.right;
      assert inner[0] == prefix[0] && inner[|inner| - 1] == value[|value| - 1];
      StripPadded(l.left, inner, l.right);
      StripPadded(l.gap, value, "");
      assert l.gap + value + "" == l.gap + value;
      LStripPad(l.gap, value);
    }
  }

  // ----- field lines -----

  lemma HexFour(s: string)
    ensures IsHex4(s) <==> |s| == 4 && forall i :: 0 <= i < 4 ==> s[i] in "0123456789abcdefABCDEF"
  {
    if |s| == 4 {
      HexDigits(s[0]);
      HexDigits(s[1]);
      HexDigits(s[2]);
      HexDigits(s[3]);
      assert (forall i :: 0 <= i < 4 ==> s[i] in "0123456789abcdefABCDEF") ==>
          s[0] in "0123456789abcdefABCDEF" && s[1] in "0123456789abcdefABCDEF"
          && s[2] in "0123456789abcdefABCDEF" && s[3] in "0123456789abcdefABCDEF";
    }
  }

  // An absent, well-formed or malformed boot number behind `BootCurrent:`.
  lemma CurrentLine(v: string, l: Spacing)
    requires ValidSpacing(l) && Trimmed(v)
    ensures ReadLine(FieldText("BootCurrent:", v, l))
         == if v == "" then SetCurrent(None) else if IsHex4(v) then SetCurrent(Some(v)) else Malformed("BootCurrent")
  {
    hide Strip, LStrip, IsHex4, ParseBootOrder, ParseEntry, LeadingDigits, FieldText, Body;
    FieldStrips("BootCurrent:", v, l);
    var s := "BootCurrent:" + Body(v, l);
    assert s[12..] == Body(v, l) && s != "";
  }

  lemma NextLine(v: string, l: Spacing)
    requires ValidSpacing(l) && Trimmed(v)
    ensures ReadLine(FieldText("BootNext:", v, l))
         == if v == "" then SetNext(None) else if IsHex4(v) then SetNext(Some(v)) else Malformed("BootNext")
  {
    hide Strip, LStrip, IsHex4, ParseBootOrder, ParseEntry, LeadingDigits, FieldText, Body;
    FieldStrips("BootNext:", v, l);
    var s := "BootNext:" + Body(v, l);
    assert s[9..] == Body(v, l) && s != "" && s[4] == 'N' && s[0] == 'B';
  }

  // Leading digits behind `Timeout:` are the seconds, whatever follows them; without any the line is malformed.
  lemma TimeoutLine(digits: string, suffix: string, l: Spacing)
    requires ValidSpacing(l) && AllDigits(digits) && (suffix == "" || !IsDigit(suffix[0])) && Trimmed(digits + suffix)
    ensures ReadLine(FieldText("Timeout:", digits + suffix, l))
         == if digits == "" then Malformed("Timeout") else SetTimeout(DecValue(digits))
  {
    hide Strip, LStrip, IsHex4, ParseBootOrder, ParseOptionalHex4, ParseEntry, LeadingDigits, FieldText, Body, DecValue;
    var v := digits + suffix;
    FieldStrips("Timeout:", v, l);
    var s := "Timeout:" + Body(v, l);
    assert s[8..] == Body(v, l) && s[0] == 'T';
    LeadingDigitsOf(digits, suffix);
  }

  lemma {:induction false} LeadingDigitsOf(digits: string, rest: string)
    requires AllDigits(digits) && (rest == "" || !IsDigit(rest[0]))
    ensures LeadingDigits(digits + rest) == digits
  {
    if digits == "" {
      assert digits + rest == rest;
    } else {
      assert (digits + rest)[1..] == digits[1..] + rest;
      LeadingDigitsOf(digits[1..], rest);
    }
  }

  // Whitespace around each number of a boot order.
  function Padded(parts: seq<string>, pads: seq<(string, string)>): (r: seq<string>)
    requires |parts| == |pads|
    ensures |r| == |parts|
  {
    seq(|parts|, i requires 0 <= i < |parts| => pads[i].0 + parts[i] + pads[i].1)
  }

  predicate ValidPads(pads: seq<(string, string)>) {
    forall i :: 0 <= i < |pads| ==> AllSpace(pads[i].0) && AllSpace(pads[i].1)
  }

  lemma PartsRoundTrip(parts: seq<string>, pads: seq<(string, string)>)
    requires |parts| == |pads| && parts != [] && ValidPads(pads)
    requires forall i :: 0 <= i < |parts| ==> Trimmed(parts[i]) && ',' !in parts[i]
    ensures StripAll(Split(Join(Padded(parts, pads), ','), ',')) == parts
  {
    hide Strip, Trimmed, Split, Join;
    var padded := Padded(parts, pads);
    forall i | 0 <= i < |parts|
      ensures ',' !in padded[i] && Strip(padded[i]) == parts[i]
    {
      StripPadded(pads[i].0, parts[i], pads[i].1);
      assert !IsSpace(',');
    }
    SplitJoin(padded, ',');
    assert StripAll(padded) == parts;
  }

  /** Comma-separated numbers, each with any whitespace around it, are read in order; one bad number, or an empty
      one between commas, makes the line malformed. */
  lemma OrderLine(parts: seq<string>, pads: seq<(string, string)>, l: Spacing)
    requires ValidSpacing(l) && |parts| == |pads| && parts != [] && ValidPads(pads)
    requires forall i :: 0 <= i < |parts| ==> Trimmed(parts[i]) && ',' !in parts[i]
    requires Trimmed(Join(Padded(parts, pads), ',')) && Join(Padded(parts, pads), ',') != ""
    ensures ReadLine(FieldText("BootOrder:", Join(Padded(parts, pads), ','), l))
         == if forall i :: 0 <= i < |parts| ==> IsHex4(parts[i]) then SetOrder(parts) else Malformed("BootOrder")
  {
    hide Strip, LStrip, IsHex4, ParseOptionalHex4, ParseEntry, LeadingDigits, FieldText, Body, Join, Split, Padded;
    var v := Join(Padded(parts, pads), ',');
    PartsRoundTrip(parts, pads);
    TrimmedStrips(v);
    var read := StripAll(Split(v, ','));
    assert read == parts;
    assert (forall i :: 0 <= i < |read| ==> IsHex4(read[i])) <==> forall i :: 0 <= i < |parts| ==> IsHex4(parts[i]);
    OrderField(v, l);
  }

  lemma OrderField(v: string, l: Spacing)
    requires ValidSpacing(l) && Trimmed(v)
    ensures ReadLine(FieldText("BootOrder:", v, l)) ==
            match ParseBootOrder(v) case Some(numbers) => SetOrder(numbers) case None => Malformed("BootOrder")
  {
    hide LStrip, Strip, IsHex4, ParseOptionalHex4, ParseEntry, LeadingDigits, FieldText, Body, Split;
    FieldStrips("BootOrder:", v, l);
    TrimmedStrips(v);
    var s := "BootOrder:" + Body(v, l);
    assert s[10..] == Body(v, l) && s != "" && s[4] == 'O' && s[0] == 'B';
  }

  lemma EmptyOrderLine(l: Spacing)
    requires ValidSpacing(l)
    ensures ReadLine(FieldText("BootOrder:", "", l)) == SetOrder([])
  {
    hide LStrip, IsHex4, FieldText;
    TrimmedStrips("");
    OrderField("", l);
  }

  // ----- entry lines -----

  // A label is non-empty, tab-free and does not start with whitespace; nothing printed last ends in whitespace.
  predicate PrintableEntry(e: BootEntry) {
    && IsHex4(e.bootNumber)
    && e.description != "" && '\t' !in e.description && !IsSpace(e.description[0])
    && (if e.devicePath == "" then !IsSpace(e.description[|e.description| - 1])
        else !IsSpace(e.devicePath[|e.devicePath| - 1]))
  }

  // What an entry line holds behind its number and marker.
  function EntryTail(e: BootEntry): string {
    e.description + if e.devicePath == "" then "" else "\t" + e.devicePath
  }

  function EntryHead(e: BootEntry): string {
    "Boot" + e.bootNumber + if e.active then "*" else ""
  }

  function EntryLine(e: BootEntry, l: Spacing): string {
    FieldText(EntryHead(e), EntryTail(e), l)
  }

  lemma TailFacts(e: BootEntry)
    requires PrintableEntry(e)
    ensures Partition(EntryTail(e), '\t') == (e.description, e.devicePath)
    ensures EntryTail(e) != "" && Trimmed(EntryTail(e))
  {
    assert EntryTail(e)[0] == e.description[0];
    if e.devicePath == "" {
      assert EntryTail(e) == e.description;
      PartitionNone(e.description, '\t');
    } else {
      assert EntryTail(e) == e.description + ['\t'] + e.devicePath;
      PartitionAt(e.description, e.devicePath, '\t');
    }
  }

  lemma NoFieldPrefix(s: string)
    requires "Boot" <= s && |s| > 8 && IsHex4(s[4..8])
    ensures !("BootCurrent:" <= s) && !("Timeout:" <= s) && !("BootOrder:" <= s) && !("BootNext:" <= s)
  {
    assert IsHex(s[4..8][0]) && IsHex(s[4..8][1]);
    assert s[0] == "Boot"[0];
  }

  // An entry is read with its number, marker, label and path, whatever whitespace stands behind the marker.
  lemma EntryLineParses(e: BootEntry, l: Spacing)
    requires PrintableEntry(e) && ValidSpacing(l) && l.gap != ""
    ensures ReadLine(EntryLine(e, l)) == AddEntry(e.(rawLine := EntryLine(e, l)))
  {
    hide LStrip, Strip, Partition, EntryTail, ParseOptionalHex4, ParseBootOrder, LeadingDigits, DecValue, FieldText;
    var head, tail := EntryHead(e), EntryTail(e);
    TailFacts(e);
    assert head[0] == 'B' && (head[|head| - 1] == '*' || head[|head| - 1] == e.bootNumber[3]);
    FieldStrips(head, tail, l);
    var s := head + Body(tail, l);
    assert s == head + (l.gap + tail);
    assert s[4..8] == e.bootNumber && s[|head|..] == l.gap + tail;
    assert s[8] == (if e.active then '*' else l.gap[0]);
    NoFieldPrefix(s);
  }

  // The shape of a stripped line that holds an entry.
  lemma EntryShape(s: string, line: string) returns (gap: string)
    requires ParseEntry(s, line).Some? && Trimmed(s)
    ensures var e := ParseEntry(s, line).value;
            && PrintableEntry(e) && AllSpace(gap) && gap != "" && s == EntryHead(e) + (gap + EntryTail(e))
            && e.rawLine == line
  {
    hide LStrip, Partition, Strip;
    var e := ParseEntry(s, line).value;
    var head := EntryHead(e);
    var rest := if e.active then s[9..] else s[8..];
    var tail;
    gap, tail := LStripSplits(rest);
    assert s == head + rest;
    assert rest[|rest| - 1] == s[|s| - 1];
    LStripBlank(rest);
    TailOf(rest, gap, tail, e);
  }

  lemma TailOf(rest: string, gap: string, tail: string, e: BootEntry)
    requires rest == gap + tail && tail == LStrip(rest) && AllSpace(gap)
    requires rest != "" && IsSpace(rest[0]) && !IsSpace(rest[|rest| - 1])
    requires (e.description, e.devicePath) == Partition(tail, '\t') && IsHex4(e.bootNumber)
    ensures PrintableEntry(e) && gap != "" && tail == EntryTail(e)
  {
    hide LStrip, Partition, IsHex4;
    LStripBlank(rest);
    assert tail[|tail| - 1] == rest[|rest| - 1];
    PartitionParts(tail);
    assert tail[0] != '\t';
    assert e.description[0] == tail[0];
  }

  // And only such lines are read as entries.
  lemma EntryLineIsPrinted(line: string) returns (l: Spacing)
    requires ReadLine(line).AddEntry?
    ensures var e := ReadLine(line).entry;
            PrintableEntry(e) && ValidSpacing(l) && l.gap != "" && line == EntryLine(e, l) && e.rawLine == line
  {
    hide Strip, ParseEntry, ParseOptionalHex4, ParseBootOrder, LeadingDigits, DecValue, PrintableEntry;
    hide EntryHead, EntryTail;
    var left, right := StripSplits(line);
    StripTrims(line);
    var gap := EntryShape(Strip(line), line);
    var e := ReadLine(line).entry;
    l := Spacing(left, gap, right);
    Assembled(left, EntryHead(e), gap, EntryTail(e), right);
  }

  lemma Assembled(a: string, b: string, c: string, d: string, e: string)
    ensures a + (b + (c + d)) + e == a + b + c + d + e
  {
  }

  lemma {:induction false} PartitionParts(s: string)
    ensures var (a, b) := Partition(s, '\t');
            && '\t' !in a && (b != "" ==> s == a + "\t" + b) && (b == "" ==> s == a || s == a + "\t")
            && (a == "" ==> s == "" || s[0] == '\t')
  {
    if s != "" && s[0] != '\t' {
      PartitionParts(s[1..]);
      assert s == [s[0]] + s[1..];
    }
  }

  // A line is ignored exactly when it is blank, carries none of the four prefixes and is no entry.
  lemma IgnoredExactlyWhen(line: string)
    ensures ReadLine(line).Ignored?
       <==> var s := Strip(line);
            s == "" || (!("BootCurrent:" <= s) && !("Timeout:" <= s) && !("BootOrder:" <= s) && !("BootNext:" <= s)
                        && !exists e, l ::
                             PrintableEntry(e) && ValidSpacing(l) && l.gap != "" && line == EntryLine(e, l))
  {
    hide Strip, ParseOptionalHex4, ParseBootOrder, LeadingDigits, DecValue, ParseEntry, EntryLine, PrintableEntry;
    if ReadLine(line).AddEntry? {
      var l := EntryLineIsPrinted(line);
    }
    if e: BootEntry, l: Spacing :| PrintableEntry(e) && ValidSpacing(l) && l.gap != "" && line == EntryLine(e, l) {
      EntryLineParses(e, l);
    }
  }
}
