/** Parsing efibootmgr's report line by line. */
module EfiParser {
  import opened Wrappers
  import opened Text

  datatype BootEntry = BootEntry(
    bootNumber: string, description: string, active: bool, devicePath: string, rawLine: string)

  datatype Configuration = Configuration(
    current: Option<string>, timeout: Option<nat>, order: seq<string>, next: Option<string>, entries: seq<BootEntry>)

  const EMPTY := Configuration(None, None, [], None, [])

  datatype Event =
    | Ignored
    | SetCurrent(number: Option<string>)
    | SetTimeout(seconds: nat)
    | SetOrder(numbers: seq<string>)
    | SetNext(number: Option<string>)
    | AddEntry(entry: BootEntry)
    | Malformed(field: string)

  datatype ParseError = MalformedLine(field: string, line: string, number: nat) | DuplicateEntries

  predicate IsHex4(s: string) {
    |s| == 4 && IsHex(s[0]) && IsHex(s[1]) && IsHex(s[2]) && IsHex(s[3])
  }

  // Nothing after the prefix means absent; otherwise four hex digits, or the line is malformed (`None`).
  function ParseOptionalHex4(value: string): Option<Option<string>> {
    var v := Strip(value);
    if v == "" then Some(None) else if IsHex4(v) then Some(Some(v)) else None
  }

  function StripAll(parts: seq<string>): (r: seq<string>)
    ensures |r| == |parts|
  {
    seq(|parts|, i requires 0 <= i < |parts| => Strip(parts[i]))
  }

  function ParseBootOrder(value: string): Option<seq<string>> {
    var v := Strip(value);
    if v == "" then Some([])
    else
      var parts := StripAll(Split(v, ','));
      if forall i :: 0 <= i < |parts| ==> IsHex4(parts[i]) then Some(parts) else None
  }

  function LeadingDigits(s: string): (d: string)
    ensures d <= s && AllDigits(d)
  {
    if s != "" && IsDigit(s[0]) then [s[0]] + LeadingDigits(s[1..]) else ""
  }

  // `Boot####`, an optional asterisk, whitespace, then the label up to a tab and the path behind it.
  function ParseEntry(s: string, line: string): Option<BootEntry> {
    if !("Boot" <= s && |s| > 8 && IsHex4(s[4..8])) then None
    else
      var active := s[8] == '*';
      var rest := if active then s[9..] else s[8..];
      if rest == "" || !IsSpace(rest[0]) then None
      else
        var (description, path) := Partition(LStrip(rest), '\t');
        Some(BootEntry(s[4..8], description, active, path, line))
  }

  function Read(s: string, line: string): Event {
    if "BootCurrent:" <= s then
      (match ParseOptionalHex4(s[12..]) case Some(v) => SetCurrent(v) case None => Malformed("BootCurrent"))
    else if "Timeout:" <= s then
      var digits := LeadingDigits(LStrip(s[8..]));
      if digits == "" then Malformed("Timeout") else SetTimeout(DecValue(digits))
    else if "BootOrder:" <= s then
      (match ParseBootOrder(s[10..]) case Some(v) => SetOrder(v) case None => Malformed("BootOrder"))
    else if "BootNext:" <= s then
      (match ParseOptionalHex4(s[9..]) case Some(v) => SetNext(v) case None => Malformed("BootNext"))
    else
      match ParseEntry(s, line) case Some(e) => AddEntry(e) case None => Ignored
  }

  function ReadLine(line: string): Event {
    if Strip(line) == "" then Ignored else Read(Strip(line), line)
  }

  function Apply(c: Configuration, event: Event): Configuration {
    match event
    case SetCurrent(n) => c.(current := n)
    case SetTimeout(t) => c.(timeout := Some(t))
    case SetOrder(o) => c.(order := o)
    case SetNext(n) => c.(next := n)
    case AddEntry(e) => c.(entries := c.entries + [e])
    case _ => c
  }

  function Folded(lines: seq<string>): Configuration {
    if lines == [] then EMPTY else Apply(Folded(lines[..|lines| - 1]), ReadLine(lines[|lines| - 1]))
  }

  function FirstMalformed(lines: seq<string>): (i: nat)
    ensures i <= |lines|
  {
    if lines == [] || ReadLine(lines[0]).Malformed? then 0 else 1 + FirstMalformed(lines[1..])
  }

  lemma {:induction false} FirstMalformedIsFirst(lines: seq<string>)
    ensures var i := FirstMalformed(lines);
            && (i < |lines| ==> ReadLine(lines[i]).Malformed?)
            && forall k :: 0 <= k < i ==> !ReadLine(lines[k]).Malformed?
  {
    hide ReadLine;
    if lines != [] && !ReadLine(lines[0]).Malformed? {
      FirstMalformedIsFirst(lines[1..]);
      assert forall k :: 1 <= k < |lines| ==> lines[k] == lines[1..][k - 1];
    }
  }

  predicate DistinctEntries(entries: seq<BootEntry>) {
    forall i, j :: 0 <= i < j < |entries| ==> entries[i].bootNumber != entries[j].bootNumber
  }

  function Parsed(lines: seq<string>): Result<Configuration, ParseError> {
    var i := FirstMalformed(lines);
    if i < |lines| then
      FirstMalformedIsFirst(lines);
      Failure(MalformedLine(ReadLine(lines[i]).field, lines[i], i + 1))
    else if DistinctEntries(Folded(lines).entries) then Success(Folded(lines))
    else Failure(DuplicateEntries)
  }

  method ParseFirmwareBootConfiguration(lines: seq<string>) returns (r: Result<Configuration, ParseError>)
    ensures r == Parsed(lines)
  {
    hide Strip, Read, FirstMalformed;
    FirstMalformedIsFirst(lines);
    var current, timeout, order, next, entries := None, None, [], None, [];
    for i := 0 to |lines|
      invariant i <= FirstMalformed(lines)
      invariant Folded(lines[..i]) == Configuration(current, timeout, order, next, entries)
    {
      assert lines[..i + 1][..i] == lines[..i];
      var line := lines[i];
      var stripped := Strip(line);
      if stripped == "" {
        continue;
      }
      match Read(stripped, line) {
        case Malformed(field) => return Failure(MalformedLine(field, line, i + 1));
        case SetCurrent(n) => current := n;
        case SetTimeout(t) => timeout := Some(t);
        case SetOrder(o) => order := o;
        case SetNext(n) => next := n;
        case AddEntry(e) => entries := entries + [e];
        case Ignored =>
      }
    }
    assert lines[..|lines|] == lines;
    if !DistinctEntries(entries) {
      return Failure(DuplicateEntries);
    }
    r := Success(Configuration(current, timeout, order, next, entries));
  }
}
