/** The string primitives the parsers rely on, over ASCII character classes. */
module Text {
  // Python's `str.isspace` restricted to ASCII.
  predicate IsSpace(c: char) {
    9 <= c as int <= 13 || 28 <= c as int <= 32
  }

  predicate IsDigit(c: char) {
    '0' <= c <= '9'
  }

  predicate IsHex(c: char) {
    IsDigit(c) || 'a' <= c <= 'f' || 'A' <= c <= 'F'
  }

  predicate AllSpace(s: string) {
    forall i :: 0 <= i < |s| ==> IsSpace(s[i])
  }

  predicate NoSpace(s: string) {
    forall i :: 0 <= i < |s| ==> !IsSpace(s[i])
  }

  predicate AllDigits(s: string) {
    forall i :: 0 <= i < |s| ==> IsDigit(s[i])
  }

  // The classes, character by character.
  lemma SpaceCharacters(c: char)
    ensures IsSpace(c) <==> c in "\t\n\U{B}\U{C}\r\U{1C}\U{1D}\U{1E}\U{1F} "
  {
  }

  lemma HexDigits(c: char)
    ensures IsHex(c) <==> c in "0123456789abcdefABCDEF"
    ensures IsDigit(c) <==> c in "0123456789"
  {
  }

  // ----- case, over ASCII -----

  function UpperChar(c: char): char {
    if 'a' <= c <= 'z' then (c as int - 32) as char else c
  }

  function LowerChar(c: char): char {
    if 'A' <= c <= 'Z' then (c as int + 32) as char else c
  }

  function Upper(s: string): string {
    seq(|s|, i requires 0 <= i < |s| => UpperChar(s[i]))
  }

  function Lower(s: string): string {
    seq(|s|, i requires 0 <= i < |s| => LowerChar(s[i]))
  }

  const SMALL := "abcdefghijklmnopqrstuvwxyz"
  const CAPITAL := "ABCDEFGHIJKLMNOPQRSTUVWXYZ"

  // Letters change into their counterparts, and only they change.
  lemma LettersChange(k: nat)
    requires k < 26
    ensures UpperChar(SMALL[k]) == CAPITAL[k] && LowerChar(CAPITAL[k]) == SMALL[k]
  {
    assert SMALL[k] as int == 'a' as int + k && CAPITAL[k] as int == 'A' as int + k;
  }

  lemma SmallLetters(c: char)
    ensures c in SMALL <==> 'a' <= c <= 'z'
  {
    if 'a' <= c <= 'z' {
      var k := c as int - 'a' as int;
      assert SMALL[k] as int == 'a' as int + k;
    }
  }

  lemma CapitalLetters(c: char)
    ensures c in CAPITAL <==> 'A' <= c <= 'Z'
  {
    if 'A' <= c <= 'Z' {
      var k := c as int - 'A' as int;
      assert CAPITAL[k] as int == 'A' as int + k;
    }
  }

  lemma OthersStay(c: char)
    ensures c !in SMALL ==> UpperChar(c) == c
    ensures c !in CAPITAL ==> LowerChar(c) == c
  {
    SmallLetters(c);
    CapitalLetters(c);
  }

  // ----- stripping -----

  function LStrip(s: string): string {
    if s != "" && IsSpace(s[0]) then LStrip(s[1..]) else s
  }

  function RStrip(s: string): string {
    if s != "" && IsSpace(s[|s| - 1]) then RStrip(s[..|s| - 1]) else s
  }

  function Strip(s: string): string {
    RStrip(LStrip(s))
  }

  // Text with no whitespace at either end.
  predicate Trimmed(s: string) {
    s == "" || (!IsSpace(s[0]) && !IsSpace(s[|s| - 1]))
  }

  lemma {:induction false} LStripPad(pad: string, s: string)
    requires AllSpace(pad)
    ensures LStrip(pad + s) == LStrip(s)
  {
    if pad == "" {
      assert pad + s == s;
    } else {
      assert (pad + s)[1..] == pad[1..] + s;
      LStripPad(pad[1..], s);
    }
  }

  lemma {:induction false} RStripPad(s: string, pad: string)
    requires AllSpace(pad)
    ensures RStrip(s + pad) == RStrip(s)
  {
    if pad == "" {
      assert s + pad == s;
    } else {
      assert (s + pad)[..|s + pad| - 1] == s + pad[..|pad| - 1];
      RStripPad(s, pad[..|pad| - 1]);
    }
  }

  lemma {:induction false} StripPadded(left: string, s: string, right: string)
    requires AllSpace(left) && AllSpace(right) && Trimmed(s)
    ensures Strip(left + s + right) == s
  {
    assert left + s + right == left + (s + right);
    LStripPad(left, s + right);
    if s == "" {
      assert s + right == right + "";
      LStripPad(right, "");
    } else {
      RStripPad(s, right);
    }
  }

  lemma {:induction false} LStripBlank(s: string)
    ensures LStrip(s) == "" <==> AllSpace(s)
    ensures |LStrip(s)| <= |s| && LStrip(s) == s[|s| - |LStrip(s)|..]
    ensures LStrip(s) != "" ==> !IsSpace(LStrip(s)[0])
  {
    if s != "" && IsSpace(s[0]) {
      LStripBlank(s[1..]);
      assert forall i :: 1 <= i < |s| ==> s[i] == s[1..][i - 1];
    }
  }

  lemma {:induction false} RStripKeeps(s: string)
    ensures RStrip(s) <= s
    ensures RStrip(s) != "" ==> !IsSpace(RStrip(s)[|RStrip(s)| - 1])
    ensures s != "" && !IsSpace(s[0]) ==> RStrip(s) != "" && RStrip(s)[0] == s[0]
  {
    if s != "" && IsSpace(s[|s| - 1]) {
      RStripKeeps(s[..|s| - 1]);
    }
  }

  lemma StripTrims(s: string)
    ensures Trimmed(Strip(s))
    ensures Strip(s) == "" <==> AllSpace(s)
  {
    LStripBlank(s);
    RStripKeeps(LStrip(s));
  }

  // What stripping takes away.
  lemma StripSplits(s: string) returns (left: string, right: string)
    ensures s == left + Strip(s) + right && AllSpace(left) && AllSpace(right)
  {
    var t;
    left, t := LStripSplits(s);
    right := RStripSplits(t);
  }

  lemma {:induction false} LStripSplits(s: string) returns (left: string, rest: string)
    ensures s == left + rest && rest == LStrip(s) && AllSpace(left)
  {
    if s != "" && IsSpace(s[0]) {
      var l;
      l, rest := LStripSplits(s[1..]);
      left := [s[0]] + l;
    } else {
      left, rest := "", s;
    }
  }

  lemma {:induction false} RStripSplits(s: string) returns (right: string)
    ensures s == RStrip(s) + right && AllSpace(right)
  {
    if s != "" && IsSpace(s[|s| - 1]) {
      var r := RStripSplits(s[..|s| - 1]);
      right := r + [s[|s| - 1]];
    } else {
      right := "";
    }
  }

  // ----- splitting on a separator character, and joining -----

  function Split(s: string, sep: char): (parts: seq<string>)
    ensures |parts| >= 1
  {
    if s == "" then [""]
    else
      var rest := Split(s[1..], sep);
      if s[0] == sep then [""] + rest else [[s[0]] + rest[0]] + rest[1..]
  }

  function Join(parts: seq<string>, sep: char): string {
    if parts == [] then ""
    else if |parts| == 1 then parts[0]
    else parts[0] + [sep] + Join(parts[1..], sep)
  }

  predicate Free(parts: seq<string>, sep: char) {
    forall i :: 0 <= i < |parts| ==> sep !in parts[i]
  }

  lemma {:induction false} SplitFree(s: string, sep: char)
    ensures Free(Split(s, sep), sep)
  {
    if s != "" {
      SplitFree(s[1..], sep);
    }
  }

  lemma {:induction false} SplitOne(a: string, sep: char)
    requires sep !in a
    ensures Split(a, sep) == [a]
  {
    if a != "" {
      SplitOne(a[1..], sep);
      assert a[0] in a && [a[0]] + a[1..] == a;
    }
  }

  lemma {:induction false} SplitHead(a: string, b: string, sep: char)
    requires sep !in a
    ensures Split(a + [sep] + b, sep) == [a] + Split(b, sep)
  {
    var s := a + [sep] + b;
    if a == "" {
      assert s[1..] == b;
    } else {
      assert s[1..] == a[1..] + [sep] + b;
      SplitHead(a[1..], b, sep);
      assert a[0] in a && [a[0]] + a[1..] == a;
    }
  }

  lemma JoinHead(first: string, rest: seq<string>, sep: char)
    requires rest != []
    ensures Join([first] + rest, sep) == first + [sep] + Join(rest, sep)
  {
    assert ([first] + rest)[1..] == rest;
  }

  // Separator-free leading parts survive a join and re-split whatever follows them.
  lemma {:induction false} SplitJoinPrefix(a: seq<string>, b: seq<string>, sep: char)
    requires Free(a, sep) && b != []
    ensures Split(Join(a + b, sep), sep) == a + Split(Join(b, sep), sep)
  {
    if a == [] {
      assert a + b == b;
      assert a + Split(Join(b, sep), sep) == Split(Join(b, sep), sep);
    } else {
      var rest := Split(Join(b, sep), sep);
      JoinHead(a[0], a[1..] + b, sep);
      assert a + b == [a[0]] + (a[1..] + b) && a + rest == [a[0]] + (a[1..] + rest);
      SplitHead(a[0], Join(a[1..] + b, sep), sep);
      SplitJoinPrefix(a[1..], b, sep);
    }
  }

  lemma SplitJoin(parts: seq<string>, sep: char)
    requires Free(parts, sep) && parts != []
    ensures Split(Join(parts, sep), sep) == parts
  {
    var n := |parts| - 1;
    assert parts == parts[..n] + [parts[n]];
    SplitJoinPrefix(parts[..n], [parts[n]], sep);
    SplitOne(parts[n], sep);
  }

  lemma {:induction false} JoinOfSplit(s: string, sep: char)
    ensures Join(Split(s, sep), sep) == s
  {
    if s != "" {
      var rest := Split(s[1..], sep);
      JoinOfSplit(s[1..], sep);
      if s[0] == sep {
        JoinHead("", rest, sep);
        assert s == "" + [sep] + s[1..];
      } else {
        JoinOfHead([s[0]], rest, sep);
        assert s == [s[0]] + s[1..];
      }
    }
  }

  lemma JoinOfHead(start: string, parts: seq<string>, sep: char)
    requires parts != []
    ensures Join([start + parts[0]] + parts[1..], sep) == start + Join(parts, sep)
  {
    var longer := [start + parts[0]] + parts[1..];
    assert longer[1..] == parts[1..];
    if |parts| > 1 {
      assert start + parts[0] + [sep] + Join(parts[1..], sep) == start + (parts[0] + [sep] + Join(parts[1..], sep));
    }
  }

  // Python's `s.partition(sep)` without the separator: the whole text and "" when it is absent.
  function Partition(s: string, sep: char): (string, string) {
    if s == "" then ("", "")
    else if s[0] == sep then ("", s[1..])
    else var (a, b) := Partition(s[1..], sep); ([s[0]] + a, b)
  }

  lemma {:induction false} PartitionAt(a: string, b: string, sep: char)
    requires sep !in a
    ensures Partition(a + [sep] + b, sep) == (a, b)
  {
    var s := a + [sep] + b;
    if a == "" {
      assert s[1..] == b;
    } else {
      assert s[1..] == a[1..] + [sep] + b;
      PartitionAt(a[1..], b, sep);
      assert a[0] in a && [a[0]] + a[1..] == a;
    }
  }

  lemma {:induction false} PartitionNone(a: string, sep: char)
    requires sep !in a
    ensures Partition(a, sep) == (a, "")
  {
    if a != "" {
      PartitionNone(a[1..], sep);
      assert a[0] in a && [a[0]] + a[1..] == a;
    }
  }

  // ----- decimal numbers -----

  function DigitValue(c: char): nat
    requires IsDigit(c)
  {
    c as int - '0' as int
  }

  function DigitChar(d: nat): char
    requires d < 10
  {
    ('0' as int + d) as char
  }

  function DecValue(s: string): nat
    requires AllDigits(s)
  {
    if s == "" then 0 else 10 * DecValue(s[..|s| - 1]) + DigitValue(s[|s| - 1])
  }

  function DecText(n: nat): string {
    if n < 10 then [DigitChar(n)] else DecText(n / 10) + [DigitChar(n % 10)]
  }

  lemma DigitsInOrder(d: nat)
    requires d < 10
    ensures DigitChar(d) == "0123456789"[d] && IsDigit(DigitChar(d)) && DigitValue(DigitChar(d)) == d
  {
    assert "0123456789"[d] as int == '0' as int + d;
  }

  lemma {:induction false} DecRoundTrip(n: nat)
    ensures DecText(n) != "" && AllDigits(DecText(n))
    ensures DecValue(DecText(n)) == n
  {
    if n >= 10 {
      DecRoundTrip(n / 10);
      assert DecText(n)[..|DecText(n)| - 1] == DecText(n / 10);
    }
  }
}
