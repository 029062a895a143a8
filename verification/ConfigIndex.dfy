/** Which texts are list indices, where a read stops, and in which order a write leaves the keys. */
module ConfigIndex {
  import opened Wrappers
  import opened Text
  import opened ConfigDocument

  // ----- every way of spelling an integer -----

  // Groups of digits joined by single underscores, with an optional sign and whitespace around.
  datatype Spelling = Spelling(left: string, sign: string, groups: seq<string>, right: string)

  predicate IntPadding(s: string) {
    forall i :: 0 <= i < |s| ==> s[i] in " \t\n\U{B}\U{C}\r"
  }

  predicate ValidGroups(groups: seq<string>) {
    groups != [] && forall i :: 0 <= i < |groups| ==> groups[i] != "" && AllDigits(groups[i])
  }

  predicate ValidSpelling(y: Spelling) {
    IntPadding(y.left) && IntPadding(y.right) && y.sign in ["", "+", "-"] && ValidGroups(y.groups)
  }

  function Spelled(y: Spelling): string {
    y.left + (y.sign + Join(y.groups, '_')) + y.right
  }

  function AllOf(groups: seq<string>): (digits: string)
    requires forall i :: 0 <= i < |groups| ==> AllDigits(groups[i])
    ensures AllDigits(digits)
  {
    if groups == [] then ""
    else
      var (first, rest) := (groups[0], AllOf(groups[1..]));
      assert AllDigits(first);
      first + rest
  }

  // ----- whitespace -----

  predicate AllIntSpace(s: string) {
    forall i :: 0 <= i < |s| ==> IntSpace(s[i])
  }

  lemma IntSpaceCharacters(c: char)
    ensures IntSpace(c) <==> c in " \t\n\U{B}\U{C}\r"
  {
  }

  lemma PaddingIsSpace(s: string)
    ensures IntPadding(s) <==> AllIntSpace(s)
  {
    hide IntSpace;
    forall i | 0 <= i < |s| {
      IntSpaceCharacters(s[i]);
    }
  }

  predicate NoPadding(s: string) {
    s != "" && !IntSpace(s[0]) && !IntSpace(s[|s| - 1])
  }

  lemma {:induction false} SkipLeft(left: string, s: string)
    requires AllIntSpace(left)
    ensures SkipIntSpace(left + s) == SkipIntSpace(s)
  {
    if left == "" {
      assert left + s == s;
    } else {
      assert (left + s)[1..] == left[1..] + s;
      SkipLeft(left[1..], s);
    }
  }

  lemma {:induction false} SkipRight(s: string, right: string)
    requires AllIntSpace(right) && NoPadding(s)
    ensures SkipIntSpace(s + right) == s
  {
    if right == "" {
      assert s + right == s;
    } else {
      var text := s + right;
      assert text[|text| - 1] == right[|right| - 1] && text[0] == s[0];
      assert text[..|text| - 1] == s + right[..|right| - 1];
      SkipRight(s, right[..|right| - 1]);
    }
  }

  lemma {:induction false} SkippedParts(s: string) returns (left: string, right: string)
    ensures s == left + SkipIntSpace(s) + right && AllIntSpace(left) && AllIntSpace(right)
    ensures SkipIntSpace(s) != "" ==> NoPadding(SkipIntSpace(s))
  {
    left, right := "", "";
    if s != "" && IntSpace(s[0]) {
      left, right := SkippedParts(s[1..]);
      left := [s[0]] + left;
    } else if s != "" && IntSpace(s[|s| - 1]) {
      left, right := SkippedParts(s[..|s| - 1]);
      right := right + [s[|s| - 1]];
    }
  }

  // ----- digits -----

  lemma {:induction false} DropConcat(a: string, b: string)
    requires forall i :: 0 <= i < |a| ==> IsDigit(a[i])
    requires forall i :: 0 <= i < |b| ==> IsDigit(b[i]) || b[i] == '_'
    ensures DropUnderscores(a + b) == a + DropUnderscores(b)
    decreases |a|
  {
    hide DropUnderscores;
    if a == "" {
      assert a + b == b;
    } else {
      assert (a + b)[1..] == a[1..] + b && a == [a[0]] + a[1..];
      DropFirst(a + b);
      DropConcat(a[1..], b);
    }
  }

  lemma DropFirst(s: string)
    requires s != "" && forall i :: 0 <= i < |s| ==> IsDigit(s[i]) || s[i] == '_'
    ensures DropUnderscores(s) == (if s[0] == '_' then "" else [s[0]]) + DropUnderscores(s[1..])
  {
  }

  lemma {:induction false} GroupsAreGrouped(groups: seq<string>)
    requires ValidGroups(groups)
    ensures GroupedDigits(Join(groups, '_')) && DropUnderscores(Join(groups, '_')) == AllOf(groups)
  {
    var a := groups[0];
    if |groups| == 1 {
      DropConcat(a, "");
      assert a + "" == a && IsDigit(a[0]) && IsDigit(a[|a| - 1]);
    } else {
      GroupsAreGrouped(groups[1..]);
      var b := Join(groups[1..], '_');
      Underscored(a, b);
      assert Join(groups, '_') == a + "_" + b;
    }
  }

  lemma Underscored(a: string, b: string)
    requires a != "" && AllDigits(a) && GroupedDigits(b)
    ensures var s := a + "_" + b; GroupedDigits(s) && DropUnderscores(s) == a + DropUnderscores(b)
  {
    var s := a + "_" + b;
    assert s == a + ("_" + b) && ("_" + b)[1..] == b;
    assert forall i :: 0 <= i < |s| ==> s[i] == if i < |a| then a[i] else if i == |a| then '_' else b[i - |a| - 1];
    assert IsDigit(s[0]) && IsDigit(s[|s| - 1]);
    DropConcat(a, "_" + b);
  }

  lemma {:induction false} GroupedIsGroups(s: string) returns (groups: seq<string>)
    requires GroupedDigits(s)
    ensures ValidGroups(groups) && s == Join(groups, '_')
    decreases |s|
  {
    var k := UnderscoreAt(s);
    if k == |s| {
      groups := [s];
    } else {
      var more := GroupedIsGroups(s[k + 1..]);
      groups := [s[..k]] + more;
      JoinHead(s[..k], more, '_');
      assert s == s[..k] + ['_'] + s[k + 1..];
    }
  }

  lemma UnderscoreAt(s: string) returns (k: nat)
    requires GroupedDigits(s)
    ensures k <= |s| && AllDigits(s[..k]) && k > 0
    ensures k < |s| ==> s[k] == '_' && GroupedDigits(s[k + 1..])
  {
    if i :| 0 <= i < |s| && s[i] == '_' && forall j :: 0 <= j < i ==> s[j] != '_' {
      k := i;
      var rest := s[k + 1..];
      assert forall j :: 0 <= j < |rest| ==> rest[j] == s[k + 1 + j];
      assert IsDigit(s[k + 1]);
      assert rest[|rest| - 1] == s[|s| - 1];
    } else {
      k := |s|;
      NoneFirst(s, |s|);
    }
  }

  // Without a first underscore there is none.
  lemma {:induction false} NoneFirst(s: string, n: nat)
    requires n <= |s|
    requires !exists i :: 0 <= i < |s| && s[i] == '_' && forall j :: 0 <= j < i ==> s[j] != '_'
    ensures forall j :: 0 <= j < n ==> s[j] != '_'
  {
    if n > 0 {
      NoneFirst(s, n - 1);
    }
  }

  // ----- the theorem -----

  lemma SpellingIsRead(y: Spelling)
    requires ValidSpelling(y)
    ensures var n := DecValue(AllOf(y.groups));
            ParseInt(Spelled(y)) == Some(if y.sign == "-" then 0 - n else n)
  {
    hide DecValue, DropUnderscores, GroupedDigits, AllOf, Join, SkipIntSpace;
    var digits := Join(y.groups, '_');
    GroupsAreGrouped(y.groups);
    GroupedEnds(digits);
    var body := y.sign + digits;
    assert body[|body| - 1] == digits[|digits| - 1];
    assert NoPadding(body);
    PaddingIsSpace(y.left);
    PaddingIsSpace(y.right);
    assert Spelled(y) == y.left + (body + y.right);
    SkipLeft(y.left, body + y.right);
    SkipRight(body, y.right);
    if y.sign == "" {
      assert body == digits;
    } else {
      assert body[1..] == digits;
    }
  }

  lemma NothingIsNoNumber()
    ensures !GroupedDigits("")
  {
  }

  lemma GroupedEnds(s: string)
    requires GroupedDigits(s)
    ensures s != "" && IsDigit(s[0]) && IsDigit(s[|s| - 1])
  {
  }

  /** A segment is a list index exactly when it spells an integer: digits in groups joined by single underscores, an
      optional sign, and whitespace around; and then it is the integer it spells. */
  lemma IndexExactlyWhenSpelled(text: string)
    ensures ParseInt(text).Some? <==> exists y :: ValidSpelling(y) && text == Spelled(y)
    ensures forall y :: ValidSpelling(y) && text == Spelled(y) ==>
              var n := DecValue(AllOf(y.groups)); ParseInt(text) == Some(if y.sign == "-" then 0 - n else n)
  {
    hide DecValue, DropUnderscores, GroupedDigits, AllOf, Join, SkipIntSpace;
    forall y | ValidSpelling(y) && text == Spelled(y)
      ensures var n := DecValue(AllOf(y.groups)); ParseInt(text) == Some(if y.sign == "-" then 0 - n else n)
    {
      SpellingIsRead(y);
    }
    if ParseInt(text).Some? {
      var left, right := SkippedParts(text);
      PaddingIsSpace(left);
      PaddingIsSpace(right);
      var s := SkipIntSpace(text);
      NothingIsNoNumber();
      var sign := if s[0] in "+-" then [s[0]] else "";
      var groups := GroupedIsGroups(s[|sign|..]);
      assert s == sign + s[|sign|..];
      var y := Spelling(left, sign, groups, right);
      assert ValidSpelling(y) && text == Spelled(y);
    }
  }

  // ----- where a read stops -----

  /** A read goes on from whatever its first steps reach, and fails there with the error of what it finds: a mapping
      without the key, a list for a segment that is no index, a scalar. */
  lemma {:induction false} ReadGoesOn(d: Doc, p: Path, segment: string, rest: Path)
    ensures Get(d, p).Failure? ==> Get(d, p + [segment] + rest) == Get(d, p)
    ensures Get(d, p).Success? ==>
              var (at, r) := (Get(d, p).value, Get(d, p + [segment] + rest));
              && (at.Mapping? ==> r == if segment in at.fields then Get(at.fields[segment], rest)
                                       else Failure(MissingField(segment)))
              && (at.List? && ParseInt(segment).None? ==> r == Failure(NotAnIndex(segment)))
              && (at.List? && ParseInt(segment).Some? ==>
                    var n := ParseInt(segment).value;
                    r == if 0 <= n < |at.items| then Get(at.items[n], rest)
                         else if n < 0 <= |at.items| + n then Get(at.items[|at.items| + n], rest)
                         else Failure(IndexOutOfRange(n)))
              && (at.Leaf? ==> r == Failure(ScalarDescent(segment)))
    decreases |p|
  {
    hide ParseInt;
    var path := p + [segment] + rest;
    if p == [] {
      assert path[0] == segment && path[1..] == rest;
    } else {
      assert path[0] == p[0] && path[1..] == p[1..] + [segment] + rest;
      match d
      case Leaf(_) =>
      case List(items) =>
        if ParseInt(p[0]).Some? && ItemAt(items, ParseInt(p[0]).value).Some? {
          ReadGoesOn(ItemAt(items, ParseInt(p[0]).value).value, p[1..], segment, rest);
        }
      case Mapping(_, fields) =>
        if p[0] in fields {
          ReadGoesOn(fields[p[0]], p[1..], segment, rest);
        }
    }
  }

  // ----- key order -----

  /** A write leaves the keys of every mapping on its way in their order, and puts a new key behind them. */
  lemma {:induction false} NewKeysGoLast(d: Doc, p: Path, n: nat, v: Doc)
    requires d.Mapping? && n < |p| && Put(d, p, v).Success?
    ensures var (before, after) := (Get(d, p[..n]), Get(Put(d, p, v).value, p[..n]));
            && after.Success? && after.value.Mapping?
            && after.value.keys == if before.Failure? || !before.value.Mapping? then [p[n]]
                                   else if p[n] in before.value.fields then before.value.keys
                                   else before.value.keys + [p[n]]
    decreases p
  {
    if n == 0 {
      assert p[..0] == [];
    } else {
      assert p[..n][0] == p[0] && p[..n][1..] == p[1..][..n - 1];
      NewKeysGoLast(Child(d, p[0]), p[1..], n - 1, v);
      if p[0] !in d.fields || d.fields[p[0]] == ABSENT {
        EmptyHoldsNothing(p[1..][..n - 1]);
      }
    }
  }

  lemma EmptyHoldsNothing(p: Path)
    ensures Get(EMPTY_MAPPING, p) == if p == [] then Success(EMPTY_MAPPING) else Failure(MissingField(p[0]))
    ensures Get(ABSENT, p) == if p == [] then Success(ABSENT) else Failure(ScalarDescent(p[0]))
  {
  }
}
