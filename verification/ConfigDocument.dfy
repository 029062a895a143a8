/**
 A configuration document as a value, with the reads and writes that dotted paths denote.
 Mappings remember the insertion order of their keys, as the source's dictionaries do.
 */
module ConfigDocument {
  import opened Wrappers
  import opened Text

  datatype Scalar = Null | Bool(b: bool) | Int(i: int) | Float(r: real) | Str(s: string)

  datatype Doc =
    | Leaf(scalar: Scalar)
    | List(items: seq<Doc>)
    | Mapping(keys: seq<string>, fields: map<string, Doc>)

  const EMPTY_MAPPING := Mapping([], map[])
  const ABSENT := Leaf(Null)

  datatype UsageError =
    | EmptyPath
    | MissingField(segment: string)
    | NotAnIndex(segment: string)
    | IndexOutOfRange(index: int)
    | ScalarDescent(segment: string)
    | NonMapping(segment: string)
    | NoEquals(item: string)
    | EmptySetPath(item: string)

  type Path = seq<string>

  // Every mapping lists each of its keys exactly once.
  ghost predicate WellFormed(d: Doc) {
    match d
    case Leaf(_) => true
    case List(items) => forall i :: 0 <= i < |items| ==> WellFormed(items[i])
    case Mapping(keys, fields) =>
      && Enumerates(keys, fields.Keys)
      && forall k :: k in fields ==> WellFormed(fields[k])
  }

  predicate Enumerates(keys: seq<string>, names: set<string>) {
    && (forall i :: 0 <= i < |keys| ==> keys[i] in names)
    && (forall k :: k in names ==> k in keys)
    && (forall i, j :: 0 <= i < j < |keys| ==> keys[i] != keys[j])
  }

  // ----- list indices: Python's `int(segment)` over ASCII, and negative indexing -----

  predicate GroupedDigits(s: string) {
    && s != "" && IsDigit(s[0]) && IsDigit(s[|s| - 1])
    && (forall i :: 0 <= i < |s| ==> IsDigit(s[i]) || s[i] == '_')
    && (forall i :: 0 < i < |s| ==> IsDigit(s[i - 1]) || IsDigit(s[i]))
  }

  function DropUnderscores(s: string): (r: string)
    requires forall i :: 0 <= i < |s| ==> IsDigit(s[i]) || s[i] == '_'
    ensures AllDigits(r)
  {
    if s == "" then ""
    else if s[0] == '_' then DropUnderscores(s[1..])
    else [s[0]] + DropUnderscores(s[1..])
  }

  // The whitespace `int` skips: C's, which is narrower than that of `str.strip`.
  predicate IntSpace(c: char) {
    c == ' ' || 9 <= c as int <= 13
  }

  function SkipIntSpace(s: string): string {
    if s != "" && IntSpace(s[0]) then SkipIntSpace(s[1..])
    else if s != "" && IntSpace(s[|s| - 1]) then SkipIntSpace(s[..|s| - 1])
    else s
  }

  function ParseInt(text: string): Option<int> {
    var s := SkipIntSpace(text);
    if s != "" && s[0] in "+-" then
      if GroupedDigits(s[1..]) then
        var n: int := DecValue(DropUnderscores(s[1..]));
        Some(if s[0] == '-' then 0 - n else n)
      else None
    else if GroupedDigits(s) then Some(DecValue(DropUnderscores(s)))
    else None
  }

  function ItemAt<T>(items: seq<T>, index: int): Option<T> {
    if 0 <= index < |items| then Some(items[index])
    else if -|items| <= index < 0 then Some(items[index + |items|])
    else None
  }

  // ----- reading -----

  function Get(d: Doc, path: Path): Result<Doc, UsageError> {
    if path == [] then Success(d)
    else
      match d
      case Mapping(_, fields) =>
        if path[0] in fields then Get(fields[path[0]], path[1..]) else Failure(MissingField(path[0]))
      case List(items) =>
        (match ParseInt(path[0])
         case None => Failure(NotAnIndex(path[0]))
         case Some(index) =>
           match ItemAt(items, index)
           case None => Failure(IndexOutOfRange(index))
           case Some(item) => Get(item, path[1..]))
      case Leaf(_) => Failure(ScalarDescent(path[0]))
  }

  // ----- writing -----

  function SetKey(d: Doc, key: string, v: Doc): Doc
    requires d.Mapping?
  {
    Mapping(if key in d.fields then d.keys else d.keys + [key], d.fields[key := v])
  }

  // The child a write descends into: a missing or null child becomes an empty mapping.
  function Child(d: Doc, key: string): Doc
    requires d.Mapping?
  {
    if key in d.fields && d.fields[key] != ABSENT then d.fields[key] else EMPTY_MAPPING
  }

  function Put(d: Doc, path: Path, v: Doc): (r: Result<Doc, UsageError>)
    requires d.Mapping? && path != []
    ensures r.Success? ==> r.value.Mapping?
    decreases path
  {
    if |path| == 1 then Success(SetKey(d, path[0], v))
    else
      var child := Child(d, path[0]);
      if child.Mapping? then
        var updated :- Put(child, path[1..], v);
        Success(SetKey(d, path[0], updated))
      else Failure(NonMapping(path[0]))
  }

  // ----- relations between paths -----

  predicate Comparable(p: Path, q: Path) {
    p <= q || q <= p
  }

  // The path exists and every step but the last one is taken through a mapping.
  predicate HasPath(d: Doc, path: Path) {
    path == [] || (d.Mapping? && path[0] in d.fields && HasPath(d.fields[path[0]], path[1..]))
  }

  // ----- lens laws -----

  lemma {:induction false} PutThenGet(d: Doc, p: Path, v: Doc)
    requires d.Mapping? && p != [] && Put(d, p, v).Success?
    ensures Get(Put(d, p, v).value, p) == Success(v)
    ensures HasPath(Put(d, p, v).value, p)
    decreases p
  {
    if |p| > 1 {
      PutThenGet(Child(d, p[0]), p[1..], v);
    }
  }

  // A write is invisible to every read at an incomparable path, including reads through lists.
  lemma {:induction false} PutKeepsOthers(d: Doc, p: Path, v: Doc, q: Path)
    requires d.Mapping? && p != [] && Put(d, p, v).Success?
    requires !Comparable(p, q)
    ensures Get(Put(d, p, v).value, q).Success? <==> Get(d, q).Success?
    ensures Get(d, q).Success? ==> Get(Put(d, p, v).value, q) == Get(d, q)
    decreases p
  {
    if |p| > 1 && q[0] == p[0] {
      assert [p[0]] + p[1..] == p && [q[0]] + q[1..] == q;
      var child := Child(d, p[0]);
      PutKeepsOthers(child, p[1..], v, q[1..]);
      assert q[1..] != [];
    }
  }

  lemma {:induction false} PutWhatIsThere(d: Doc, p: Path, v: Doc)
    requires d.Mapping? && p != []
    requires Get(d, p) == Success(v) && Put(d, p, v).Success?
    ensures Put(d, p, v) == Success(d)
    decreases p
  {
    assert d.fields[p[0] := d.fields[p[0]]] == d.fields;
    if |p| > 1 {
      PutWhatIsThere(Child(d, p[0]), p[1..], v);
    }
  }

  lemma {:induction false} PutTwice(d: Doc, p: Path, v: Doc, w: Doc)
    requires d.Mapping? && p != [] && Put(d, p, v).Success?
    ensures Put(Put(d, p, v).value, p, w) == Put(d, p, w)
    decreases p
  {
    if |p| > 1 {
      PutTwice(Child(d, p[0]), p[1..], v, w);
      var child' := Put(Child(d, p[0]), p[1..], v).value;
      assert Child(Put(d, p, v).value, p[0]) == child';
      if Put(d, p, w).Success? {
        var x := Put(child', p[1..], w).value;
        SetTwice(d, p[0], child', x);
      }
    } else {
      SetTwice(d, p[0], v, w);
    }
  }

  // A write is refused exactly when some proper prefix of the path holds a list or a non-null scalar.
  predicate BlockedAt(d: Doc, p: Path, n: nat)
    requires n <= |p|
  {
    var r := Get(d, p[..n]);
    r.Success? && !r.value.Mapping? && r.value != ABSENT
  }

  lemma {:induction false} PutFailsExactlyWhenBlocked(d: Doc, p: Path, v: Doc)
    requires d.Mapping? && p != []
    ensures Put(d, p, v).Failure? <==> exists n: nat :: n < |p| && BlockedAt(d, p, n)
  {
    if |p| == 1 {
      assert forall n: nat :: n < |p| ==> p[..n] == [];
    } else if p[0] in d.fields {
      var c := d.fields[p[0]];
      forall n: nat | 1 <= n < |p|
        ensures BlockedAt(d, p, n) == BlockedAt(c, p[1..], n - 1)
      {
        assert p[..n][0] == p[0] && p[..n][1..] == p[1..][..n - 1];
      }
      assert p[..0] == [] && p[1..][..0] == [];
      if c.Mapping? {
        PutFailsExactlyWhenBlocked(c, p[1..], v);
        if n: nat :| n < |p| && BlockedAt(d, p, n) {
          assert BlockedAt(c, p[1..], n - 1);
        }
        if n: nat :| n < |p[1..]| && BlockedAt(c, p[1..], n) {
          assert BlockedAt(d, p, n + 1);
        }
      } else if c == ABSENT {
        PutIntoFreshSucceeds(p[1..], v);
      } else {
        assert BlockedAt(c, p[1..], 0);
        assert BlockedAt(d, p, 1);
      }
    } else {
      PutIntoFreshSucceeds(p[1..], v);
      assert p[..0] == [];
      assert forall n: nat :: 1 <= n < |p| ==> p[..n][0] == p[0];
    }
  }

  lemma {:induction false} PutIntoFreshSucceeds(p: Path, v: Doc)
    requires p != []
    ensures Put(EMPTY_MAPPING, p, v).Success?
  {
    if |p| > 1 {
      PutIntoFreshSucceeds(p[1..], v);
    }
  }

  lemma {:induction false} PutKeepsWellFormed(d: Doc, p: Path, v: Doc)
    requires d.Mapping? && p != [] && Put(d, p, v).Success?
    requires WellFormed(d) && WellFormed(v)
    ensures WellFormed(Put(d, p, v).value)
    decreases p
  {
    if |p| > 1 {
      PutKeepsWellFormed(Child(d, p[0]), p[1..], v);
    }
  }

  // ----- existing paths -----

  lemma {:induction false} HasPathPuts(d: Doc, p: Path, v: Doc)
    requires d.Mapping? && p != [] && HasPath(d, p)
    ensures Put(d, p, v).Success? && Get(d, p).Success?
  {
    if |p| > 1 {
      HasPathPuts(d.fields[p[0]], p[1..], v);
    }
  }

  lemma {:induction false} PutKeepsPaths(d: Doc, p: Path, v: Doc, q: Path)
    requires d.Mapping? && p != [] && HasPath(d, p) && HasPath(d, q) && !Comparable(p, q)
    ensures Put(d, p, v).Success? && HasPath(Put(d, p, v).value, q)
  {
    HasPathPuts(d, p, v);
    if q[0] == p[0] {
      assert [p[0]] + p[1..] == p && [q[0]] + q[1..] == q;
      PutKeepsPaths(d.fields[p[0]], p[1..], v, q[1..]);
    }
  }

  // Writes at incomparable existing paths commute, key order included.
  lemma {:induction false} PutsCommute(d: Doc, p: Path, v: Doc, q: Path, w: Doc)
    requires d.Mapping? && p != [] && q != []
    requires HasPath(d, p) && HasPath(d, q) && !Comparable(p, q)
    ensures Put(d, p, v).Success? && Put(d, q, w).Success?
    ensures Put(Put(d, p, v).value, q, w).Success?
    ensures Put(Put(d, p, v).value, q, w) == Put(Put(d, q, w).value, p, v)
    decreases p
  {
    if p[0] == q[0] {
      var a := p[0];
      assert [a] + p[1..] == p && [a] + q[1..] == q;
      var c := d.fields[a];
      PutsCommute(c, p[1..], v, q[1..], w);
      var cp, cq := Put(c, p[1..], v).value, Put(c, q[1..], w).value;
      SetTwice(d, a, cp, Put(cp, q[1..], w).value);
      SetTwice(d, a, cq, Put(cq, p[1..], v).value);
    } else {
      PutsApartCommute(d, p, v, q, w);
    }
  }

  lemma PutsApartCommute(d: Doc, p: Path, v: Doc, q: Path, w: Doc)
    requires d.Mapping? && p != [] && q != []
    requires HasPath(d, p) && HasPath(d, q) && p[0] != q[0]
    ensures Put(d, p, v).Success? && Put(d, q, w).Success?
    ensures Put(Put(d, p, v).value, q, w).Success?
    ensures Put(Put(d, p, v).value, q, w) == Put(Put(d, q, w).value, p, v)
  {
    var x, y := PutChild(d, p, v), PutChild(d, q, w);
    PutUnder(d, p, v);
    PutUnder(d, q, w);
    PutUnder(SetKey(d, p[0], x), q, w);
    PutUnder(SetKey(d, q[0], y), p, v);
    assert d.fields[p[0] := x][q[0] := y] == d.fields[q[0] := y][p[0] := x];
  }

  lemma SetTwice(d: Doc, key: string, x: Doc, y: Doc)
    requires d.Mapping?
    ensures SetKey(SetKey(d, key, x), key, y) == SetKey(d, key, y)
  {
    assert d.fields[key := x][key := y] == d.fields[key := y];
  }

  // What a write at an existing path stores under the first key.
  function PutChild(d: Doc, p: Path, v: Doc): Doc
    requires d.Mapping? && p != [] && HasPath(d, p)
  {
    if |p| == 1 then v
    else
      assert HasPath(d.fields[p[0]], p[1..]);
      HasPathPuts(d.fields[p[0]], p[1..], v);
      Put(d.fields[p[0]], p[1..], v).value
  }

  lemma PutUnder(d: Doc, p: Path, v: Doc)
    requires d.Mapping? && p != [] && HasPath(d, p)
    ensures Put(d, p, v) == Success(SetKey(d, p[0], PutChild(d, p, v)))
  {
    HasPathPuts(d, p, v);
  }

  // Creating the next intermediate mapping ahead of time does not change what a write achieves.
  lemma {:induction false} PutThroughCreated(d: Doc, p: Path, n: nat, v: Doc)
    requires d.Mapping? && 0 < n < |p|
    requires HasPath(d, p[..n - 1]) && Get(d, p[..n - 1]).Success?
    requires var m := Get(d, p[..n - 1]).value; m.Mapping? && (p[n - 1] !in m.fields || m.fields[p[n - 1]] == ABSENT)
    ensures Put(d, p[..n], EMPTY_MAPPING).Success?
    ensures Put(Put(d, p[..n], EMPTY_MAPPING).value, p, v) == Put(d, p, v)
  {
    if n == 1 {
      assert p[..0] == [] && p[..1] == [p[0]];
      PutIntoFreshSucceeds(p[1..], v);
      var x := Put(EMPTY_MAPPING, p[1..], v).value;
      SetTwice(d, p[0], EMPTY_MAPPING, x);
    } else {
      assert p[..n - 1][0] == p[0] && p[..n - 1][1..] == p[1..][..n - 2];
      assert p[..n][0] == p[0] && p[..n][1..] == p[1..][..n - 1];
      var c := d.fields[p[0]];
      PutThroughCreated(c, p[1..], n - 1, v);
      var c1 := Put(c, p[1..][..n - 1], EMPTY_MAPPING).value;
      var d1 := Put(d, p[..n], EMPTY_MAPPING).value;
      assert d1 == SetKey(d, p[0], c1) && Child(d1, p[0]) == c1;
      if Put(c, p[1..], v).Success? {
        var x := Put(c, p[1..], v).value;
        SetTwice(d, p[0], c1, x);
      }
    }
  }

  // A write is refused at the first step that would leave the mappings.
  lemma {:induction false} PutStopsAt(d: Doc, p: Path, n: nat, v: Doc)
    requires d.Mapping? && n + 1 < |p|
    requires HasPath(d, p[..n]) && Get(d, p[..n]).Success?
    requires var m := Get(d, p[..n]).value; m.Mapping? && !Child(m, p[n]).Mapping?
    ensures Put(d, p, v) == Failure(NonMapping(p[n]))
  {
    if n == 0 {
      assert p[..0] == [];
    } else {
      assert p[..n][0] == p[0] && p[..n][1..] == p[1..][..n - 1];
      PutStopsAt(d.fields[p[0]], p[1..], n - 1, v);
    }
  }

  // ----- list indices -----

  lemma {:induction false} NoUnderscores(digits: string)
    requires AllDigits(digits)
    ensures DropUnderscores(digits) == digits
  {
    if digits != "" {
      NoUnderscores(digits[1..]);
      assert digits == [digits[0]] + digits[1..];
    }
  }

  lemma DigitsParse(digits: string)
    requires digits != "" && AllDigits(digits)
    ensures GroupedDigits(digits) && DropUnderscores(digits) == digits
    ensures SkipIntSpace(digits) == digits && SkipIntSpace("-" + digits) == "-" + digits && digits[0] !in "+-"
  {
    hide DropUnderscores;
    NoUnderscores(digits);
    var last := digits[|digits| - 1];
    assert IsDigit(digits[0]) && IsDigit(last);
    assert ("-" + digits)[|digits|] == last && ("-" + digits)[0] == '-';
  }

  lemma ParseIntOf(digits: string)
    requires digits != "" && AllDigits(digits)
    ensures ParseInt(digits) == Some(DecValue(digits))
    ensures ParseInt("-" + digits) == Some(0 - DecValue(digits))
  {
    hide SkipIntSpace, DecValue, DropUnderscores, GroupedDigits, AllDigits;
    DigitsParse(digits);
    var negative := "-" + digits;
    assert negative[1..] == digits && negative[0] == '-';
  }

  // Surrounding C whitespace is skipped; any other character in front of the digits is refused.
  lemma {:induction false} ParseIntSkips(pad: string, digits: string)
    requires (forall i :: 0 <= i < |pad| ==> IntSpace(pad[i])) && digits != "" && AllDigits(digits)
    ensures ParseInt(pad + digits) == Some(DecValue(digits))
  {
    hide DecValue;
    if pad == "" {
      assert pad + digits == digits;
      ParseIntOf(digits);
    } else {
      ParseIntSkips(pad[1..], digits);
      assert (pad + digits)[1..] == pad[1..] + digits;
    }
  }

  lemma ParseIntRefuses(c: char, digits: string)
    requires digits != "" && AllDigits(digits) && !IntSpace(c) && !IsDigit(c) && c !in "+-"
    ensures ParseInt([c] + digits) == None
  {
    var text := [c] + digits;
    assert IsDigit(digits[|digits| - 1]) && text[|digits|] == digits[|digits| - 1] && text[0] == c;
    assert SkipIntSpace(text) == text;
  }

  lemma ParseIntRoundTrip(n: nat)
    ensures ParseInt(DecText(n)) == Some(n)
    ensures ParseInt("-" + DecText(n)) == Some(0 - n)
  {
    hide ParseInt, DecText, DecValue;
    DecRoundTrip(n);
    ParseIntOf(DecText(n));
  }

  // A decimal segment reads the list item at that position, a negative one counts from the end; others fail.
  lemma ListRead(items: seq<Doc>, n: nat, rest: Path)
    ensures Get(List(items), [DecText(n)] + rest)
         == if n < |items| then Get(items[n], rest) else Failure(IndexOutOfRange(n))
    ensures n > 0 ==>
              Get(List(items), ["-" + DecText(n)] + rest)
              == if n <= |items| then Get(items[|items| - n], rest) else Failure(IndexOutOfRange(0 - n))
  {
    hide ParseInt;
    ParseIntRoundTrip(n);
    assert ([DecText(n)] + rest)[1..] == rest && (["-" + DecText(n)] + rest)[1..] == rest;
  }
}
