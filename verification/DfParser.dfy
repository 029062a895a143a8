/** Parsing df's table: whitespace columns, a three-way row classification, and first-error positions. */
module DfParser {
  import opened Wrappers
  import opened Text

  datatype FilesystemUsage = FilesystemUsage(
    source: string, target: string, fsType: string,
    sizeBytes: nat, usedBytes: nat, availableBytes: nat,
    inodesTotal: Option<nat>, inodesUsed: Option<nat>, inodesAvailable: Option<nat>,
    rawLine: string)

  datatype Row =
    | Blank
    | Skipped
    | Data(usage: FilesystemUsage)
    | MalformedRow
    | MalformedField(field: string)
  {
    predicate Malformed() {
      MalformedRow? || MalformedField?
    }
  }

  datatype RowError = RowError(row: Row, line: string, number: nat)

  // ----- columns -----

  function Word(s: string): (w: string)
    ensures w <= s && NoSpace(w)
    ensures s != "" && !IsSpace(s[0]) ==> w != ""
  {
    if s != "" && !IsSpace(s[0]) then [s[0]] + Word(s[1..]) else ""
  }

  // Python's `s.split(None, maxsplit)`.
  function SplitWords(s: string, maxsplit: nat): seq<string>
    decreases maxsplit
  {
    var t := LStrip(s);
    if t == "" then []
    else if maxsplit == 0 then [t]
    else [Word(t)] + SplitWords(t[|Word(t)|..], maxsplit - 1)
  }

  // The nine columns of a stripped line; only the last may contain whitespace.
  function Columns(stripped: string): (r: Option<seq<string>>)
    ensures r.Some? ==> |r.value| == 9
  {
    var parts := SplitWords(stripped, 7);
    if |parts| != 8 then None
    else
      var remainder := SplitWords(parts[7], 1);
      if |remainder| != 2 then None else Some(parts[..7] + remainder)
  }

  // ----- fields -----

  function TryParseInode(token: string): Option<Option<nat>> {
    if token == "-" then Some(None)
    else if token != "" && AllDigits(token) then Some(Some(DecValue(token)))
    else None
  }

  function TryParseBytes(token: string): Option<nat> {
    if token != "" && AllDigits(token) then Some(DecValue(token)) else None
  }

  function Readable(columns: seq<string>): (ok: seq<bool>)
    requires |columns| == 9
    ensures |ok| == 6
  {
    [TryParseInode(columns[2]).Some?, TryParseInode(columns[3]).Some?, TryParseInode(columns[4]).Some?,
     TryParseBytes(columns[5]).Some?, TryParseBytes(columns[6]).Some?, TryParseBytes(columns[7]).Some?]
  }

  const FIELDS := ["itotal", "iused", "iavail", "size", "used", "avail"]

  function FirstFalse(ok: seq<bool>): (i: nat)
    ensures i <= |ok| && (i < |ok| ==> !ok[i]) && forall k :: 0 <= k < i ==> ok[k]
  {
    if ok == [] || !ok[0] then 0 else 1 + FirstFalse(ok[1..])
  }

  function ClassifyColumns(columns: seq<string>, line: string): (r: Row)
    requires |columns| == 9
    ensures r.Skipped? || r.Data? || r.MalformedField?
  {
    var ok := Readable(columns);
    if true !in ok then Skipped
    else if FirstFalse(ok) < 6 then MalformedField(FIELDS[FirstFalse(ok)])
    else
      assert ok[0] && ok[1] && ok[2] && ok[3] && ok[4] && ok[5];
      Data(FilesystemUsage(
        columns[0], columns[8], columns[1],
        TryParseBytes(columns[5]).value, TryParseBytes(columns[6]).value, TryParseBytes(columns[7]).value,
        TryParseInode(columns[2]).value, TryParseInode(columns[3]).value, TryParseInode(columns[4]).value,
        line))
  }

  function Classify(line: string): Row {
    var stripped := Strip(line);
    if stripped == "" then Blank
    else
      match Columns(stripped)
      case None => MalformedRow
      case Some(columns) => ClassifyColumns(columns, line)
  }

  // ----- whole tables -----

  function FirstMalformed(lines: seq<string>): (i: nat)
    ensures i <= |lines|
  {
    if lines == [] || Classify(lines[0]).Malformed() then 0 else 1 + FirstMalformed(lines[1..])
  }

  lemma {:induction false} FirstMalformedIsFirst(lines: seq<string>)
    ensures var i := FirstMalformed(lines);
            && (i < |lines| ==> Classify(lines[i]).Malformed())
            && forall k :: 0 <= k < i ==> !Classify(lines[k]).Malformed()
  {
    hide Classify;
    if lines != [] && !Classify(lines[0]).Malformed() {
      FirstMalformedIsFirst(lines[1..]);
      assert forall k :: 1 <= k < |lines| ==> lines[k] == lines[1..][k - 1];
    }
  }

  // The data rows, in order.
  function Collected(lines: seq<string>): seq<FilesystemUsage> {
    if lines == [] then []
    else if Classify(lines[|lines| - 1]).Data? then
      Collected(lines[..|lines| - 1]) + [Classify(lines[|lines| - 1]).usage]
    else Collected(lines[..|lines| - 1])
  }

  function Parsed(lines: seq<string>): Result<seq<FilesystemUsage>, RowError> {
    var i := FirstMalformed(lines);
    if i == |lines| then Success(Collected(lines)) else Failure(RowError(Classify(lines[i]), lines[i], i + 1))
  }

  method ParseFilesystemUsage(lines: seq<string>) returns (r: Result<seq<FilesystemUsage>, RowError>)
    ensures r == Parsed(lines)
    ensures r.Failure? ==>
              && 1 <= r.error.number <= |lines| && r.error.line == lines[r.error.number - 1]
              && r.error.row == Classify(r.error.line) && r.error.row.Malformed()
              && forall k :: 0 <= k < r.error.number - 1 ==> !Classify(lines[k]).Malformed()
    ensures r.Success? ==> forall k :: 0 <= k < |lines| ==> !Classify(lines[k]).Malformed()
  {
    hide Columns, ClassifyColumns, Strip, FirstMalformed;
    FirstMalformedIsFirst(lines);
    var filesystems: seq<FilesystemUsage> := [];
    for i := 0 to |lines|
      invariant i <= FirstMalformed(lines)
      invariant filesystems == Collected(lines[..i])
    {
      assert lines[..i + 1][..i] == lines[..i];
      var line := lines[i];
      var stripped := Strip(line);
      if stripped == "" {
        continue;
      }
      var columns := Columns(stripped);
      if columns.None? {
        return Failure(RowError(MalformedRow, line, i + 1));
      }
      match ClassifyColumns(columns.value, line) {
        case MalformedField(field) =>
          return Failure(RowError(MalformedField(field), line, i + 1));
        case Data(usage) =>
          filesystems := filesystems + [usage];
        case _ =>
      }
    }
    assert lines[..|lines|] == lines;
    r := Success(filesystems);
  }
}
