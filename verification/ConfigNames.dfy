/** Environment names and the document paths they stand for. */
module ConfigNames {
  import opened Wrappers
  import opened Text
  import opened ConfigDocument
  import opened ConfigOverrides
  import opened ConfigLaws

  // The name a user writes for a document path: upper-cased segments joined by underscores.
  function EnvName(path: Path): (key: string)
    ensures IsConfigKey(key)
  {
    ENV_PREFIX + Join(AllUpper(path), '_')
  }

  predicate FirstAlong(d: Doc, path: Path)
    requires HasPath(d, path)
  {
    path == [] || (FirstOf(d.keys, path[0]) && FirstAlong(d.fields[path[0]], path[1..]))
  }

  // Sibling keys are distinct whatever their case, and no key contains an underscore or a dot.
  ghost predicate PlainKeys(d: Doc) {
    d.Mapping? ==>
      && (forall i, j :: 0 <= i < j < |d.keys| ==> Upper(d.keys[i]) != Upper(d.keys[j]))
      && (forall k :: k in d.fields ==> '_' !in k && '.' !in k && PlainKeys(d.fields[k]))
  }

  lemma {:induction false} FindIsFirst(keys: seq<string>, key: string)
    requires key in keys
    ensures FindActualKey(keys, Upper(key)) == Some(key) <==> FirstOf(keys, key)
  {
    hide Upper, FindActualKey;
    var found := FindActualKey(keys, Upper(key)).value;
    if FirstOf(keys, key) {
      var i :| 0 <= i < |keys| && keys[i] == key && forall j :: 0 <= j < i ==> Upper(keys[j]) != Upper(key);
      var k :| 0 <= k < |keys| && keys[k] == found && forall j :: 0 <= j < k ==> Upper(keys[j]) != Upper(found);
      assert i == k;
    }
  }

  lemma UpperKeeps(s: string, c: char)
    requires c == '_' || c == '.'
    ensures c in Upper(s) <==> c in s
    ensures c in Lower(s) <==> c in s
  {
    if c in s {
      var i :| 0 <= i < |s| && s[i] == c;
      assert Upper(s)[i] == c && Lower(s)[i] == c;
    }
    if c in Upper(s) {
      var i :| 0 <= i < |s| && Upper(s)[i] == c;
      assert s[i] == c;
    }
    if c in Lower(s) {
      var i :| 0 <= i < |s| && Lower(s)[i] == c;
      assert s[i] == c;
    }
  }

  lemma FreeUpper(parts: seq<string>, c: char)
    requires c == '_' || c == '.'
    ensures Free(AllUpper(parts), c) <==> Free(parts, c)
    ensures Free(AllLower(parts), c) <==> Free(parts, c)
  {
    forall i | 0 <= i < |parts|
      ensures (c in AllUpper(parts)[i] <==> c in parts[i]) && (c in AllLower(parts)[i] <==> c in parts[i])
    {
      UpperKeeps(parts[i], c);
    }
  }

  lemma {:induction false} SplitLength(a: string, b: string, sep: char)
    ensures |Split(a + [sep] + b, sep)| == |Split(a, sep)| + |Split(b, sep)|
    ensures sep in a <==> |Split(a, sep)| > 1
  {
    var s := a + [sep] + b;
    if a == "" {
      assert s[1..] == b;
    } else {
      assert s[1..] == a[1..] + [sep] + b;
      SplitLength(a[1..], b, sep);
      assert a == [a[0]] + a[1..];
    }
  }

  // A join re-splits into at least as many parts, and into more when a part contains the separator.
  lemma {:induction false} JoinSplitGrows(parts: seq<string>, sep: char)
    requires parts != []
    ensures |Split(Join(parts, sep), sep)| >= |parts|
    ensures !Free(parts, sep) ==> |Split(Join(parts, sep), sep)| > |parts|
  {
    SplitLength(parts[0], "", sep);
    if |parts| > 1 {
      SplitLength(parts[0], Join(parts[1..], sep), sep);
      JoinSplitGrows(parts[1..], sep);
    }
  }

  lemma {:induction false} ResolveDotFree(d: Doc, segments: seq<string>)
    requires Free(segments, '.')
    ensures Free(Resolve(d, segments), '.')
    decreases segments
  {
    FreeUpper(segments, '.');
    if segments != [] && d.Mapping? {
      var actual := ActualKey(d.keys, segments[0]);
      UpperKeeps(actual, '.');
      UpperKeeps(segments[0], '.');
      ResolveDotFree(Step(d, actual), segments[1..]);
    }
  }

  lemma {:induction false} ResolveUpper(d: Doc, path: Path)
    requires WellFormed(d) && HasPath(d, path)
    ensures Resolve(d, AllUpper(path)) == path <==> FirstAlong(d, path)
    decreases path
  {
    if path != [] {
      var key := path[0];
      assert AllUpper(path)[1..] == AllUpper(path[1..]);
      FindIsFirst(d.keys, key);
      var found := FindActualKey(d.keys, Upper(key)).value;
      assert |Upper(found)| == |found| && |Upper(key)| == |key|;
      if found == key {
        assert ActualKey(d.keys, Upper(key)) == key;
        ResolveUpper(d.fields[key], path[1..]);
        assert path == [key] + path[1..];
        assert Resolve(d, AllUpper(path))[1..] == Resolve(d.fields[key], AllUpper(path[1..]));
      } else {
        assert Resolve(d, AllUpper(path))[0] == found;
      }
    }
  }

  // A name resolves to its own path exactly when no segment contains an underscore or a dot and the walk, looking for
  // the upper-cased segments, takes that path.
  lemma NameTargets(d: Doc, path: Path)
    requires path != []
    ensures EnvTarget(d, EnvName(path)) == path
       <==> Free(path, '_') && Free(path, '.') && Resolve(d, AllUpper(path)) == path
    ensures d.Mapping? && EnvTarget(d, EnvName(path)) == path ==>
              forall raw: string, coerce: Coercion ::
                EnvStep(d, (EnvName(path), raw), coerce)
                == if path == [""] then Failure(EmptyPath) else Put(d, path, Leaf(coerce(raw)))
  {
    var upper := AllUpper(path);
    var name := EnvName(path);
    assert name[|ENV_PREFIX|..] == Join(upper, '_');
    var walk := Resolve(d, EnvSegments(name));
    FreeUpper(path, '_');
    FreeUpper(path, '.');
    if !Free(path, '_') {
      JoinSplitGrows(upper, '_');
      JoinSplitGrows(walk, '.');
    } else if !Free(path, '.') {
      SplitFree(EnvPath(d, name), '.');
    } else {
      SplitJoin(upper, '_');
      ResolveDotFree(d, upper);
      SplitJoin(walk, '.');
      if walk == path {
        JoinedEmpty(path);
      }
    }
  }

  /** An existing path is what its own environment name resolves to exactly when no segment contains an underscore
      or a dot and, at every step, no earlier sibling key has the same upper-casing. Then the name writes there,
      except at the path of one empty key, which is refused. */
  lemma EnvNameRoundTrip(d: Doc, path: Path)
    requires WellFormed(d) && HasPath(d, path) && path != []
    ensures EnvTarget(d, EnvName(path)) == path
       <==> Free(path, '_') && Free(path, '.') && FirstAlong(d, path)
    ensures Free(path, '_') && Free(path, '.') && FirstAlong(d, path) ==>
              forall raw: string, coerce: Coercion ::
                EnvStep(d, (EnvName(path), raw), coerce)
                == if path == [""] then Failure(EmptyPath) else Put(d, path, Leaf(coerce(raw)))
  {
    hide Resolve, EnvStep, EnvName, Free, FirstAlong;
    NameTargets(d, path);
    ResolveUpper(d, path);
  }

  lemma JoinedEmpty(path: Path)
    requires path != []
    ensures Join(path, '.') == "" <==> path == [""]
  {
  }

  lemma {:induction false} PlainKeysAreFirst(d: Doc, path: Path)
    requires WellFormed(d) && PlainKeys(d) && HasPath(d, path)
    ensures Free(path, '_') && Free(path, '.') && FirstAlong(d, path)
    decreases path
  {
    if path != [] {
      var i :| 0 <= i < |d.keys| && d.keys[i] == path[0];
      assert forall j :: 0 <= j < i ==> Upper(d.keys[j]) != Upper(d.keys[i]);
      PlainKeysAreFirst(d.fields[path[0]], path[1..]);
      assert path == [path[0]] + path[1..];
    }
  }

  // In a document of plain keys every existing path can be set through its environment name, and only it changes.
  lemma PlainEnvNameSets(d: Doc, path: Path, raw: string, coerce: Coercion)
    requires d.Mapping? && WellFormed(d) && PlainKeys(d) && HasPath(d, path) && path != [] && path != [""]
    ensures EnvStep(d, (EnvName(path), raw), coerce).Success?
    ensures var after := EnvStep(d, (EnvName(path), raw), coerce).value;
            && Get(after, path) == Success(Leaf(coerce(raw)))
            && forall q :: !Comparable(path, q) && Get(d, q).Success? ==> Get(after, q) == Get(d, q)
  {
    PlainKeysAreFirst(d, path);
    EnvNameRoundTrip(d, path);
    var v := Leaf(coerce(raw));
    HasPathPuts(d, path, v);
    PutThenGet(d, path, v);
    forall q | !Comparable(path, q) {
      PutKeepsOthers(d, path, v, q);
    }
  }

  // ----- names of paths that do not exist yet -----

  predicate NoCapitals(path: Path) {
    forall i, j :: 0 <= i < |path| && 0 <= j < |path[i]| ==> path[i][j] !in CAPITAL
  }

  // The path `p` exists, and the mapping it leads to, if it is one, has no key that reads like `segment`.
  predicate LeavesAt(d: Doc, p: Path, segment: string) {
    HasPath(d, p) && Get(d, p).Success?
    && (Get(d, p).value.Mapping? ==> forall k :: k in Get(d, p).value.keys ==> Upper(k) != Upper(segment))
  }

  lemma CaseReturns(s: string)
    ensures Lower(Upper(s)) == s <==> forall j :: 0 <= j < |s| ==> s[j] !in CAPITAL
  {
    forall j | 0 <= j < |s|
      ensures LowerChar(UpperChar(s[j])) == s[j] <==> s[j] !in CAPITAL
    {
      CharacterReturns(s[j]);
    }
  }

  lemma CharacterReturns(c: char)
    ensures LowerChar(UpperChar(c)) == c <==> c !in CAPITAL
  {
    CapitalLetters(c);
  }

  lemma AllReturn(path: Path)
    ensures AllLower(AllUpper(path)) == path <==> NoCapitals(path)
  {
    hide Lower, Upper;
    forall i | 0 <= i < |path|
      ensures Lower(Upper(path[i])) == path[i] <==> forall j :: 0 <= j < |path[i]| ==> path[i][j] !in CAPITAL
    {
      CaseReturns(path[i]);
    }
  }

  // Where the walk leaves the mappings, or finds no key, the segments are lower-cased from there on.
  lemma ResolveNew(at: Doc, q: Path)
    requires WellFormed(at) && q != [] && LeavesAt(at, [], q[0])
    ensures Resolve(at, AllUpper(q)) == q <==> NoCapitals(q)
  {
    hide Upper, Lower, FindActualKey, NoCapitals;
    AllReturn(q);
    var segments := AllUpper(q);
    if at.Mapping? {
      var lower := Lower(segments[0]);
      assert ActualKey(at.keys, segments[0]) == lower by { assert FindActualKey(at.keys, segments[0]) == None; }
      var walk := Resolve(at, segments);
      if lower == q[0] {
        assert lower !in at.keys;
        assert Step(at, lower) == ABSENT;
      }
      assert walk == [lower] + Resolve(Step(at, lower), segments[1..]);
      assert AllLower(segments) == [lower] + AllLower(segments[1..]);
    }
  }

  lemma {:induction false} ResolveCreates(d: Doc, p: Path, q: Path)
    requires WellFormed(d) && q != [] && LeavesAt(d, p, q[0])
    ensures Resolve(d, AllUpper(p + q)) == p + q <==> FirstAlong(d, p) && NoCapitals(q)
    decreases p
  {
    hide Upper, NoCapitals;
    if p == [] {
      assert p + q == q;
      ResolveNew(d, q);
    } else {
      var key, rest := p[0], p[1..] + q;
      assert p + q == [key] + rest;
      assert AllUpper(p + q)[1..] == AllUpper(rest);
      FindIsFirst(d.keys, key);
      var found := FindActualKey(d.keys, Upper(key)).value;
      ActualKeyFound(d.keys, key, found);
      if found == key {
        ResolveCreates(d.fields[key], p[1..], q);
        assert Resolve(d, AllUpper(p + q)) == [key] + Resolve(d.fields[key], AllUpper(rest));
        assert Resolve(d, AllUpper(p + q))[1..] == Resolve(d.fields[key], AllUpper(rest));
      } else {
        assert Resolve(d, AllUpper(p + q))[0] == found;
      }
    }
  }

  lemma ActualKeyFound(keys: seq<string>, key: string, found: string)
    requires FindActualKey(keys, Upper(key)) == Some(found)
    ensures ActualKey(keys, Upper(key)) == found
  {
    hide FindActualKey;
    assert |Upper(key)| == |key| && |Upper(found)| == |found|;
  }

  /** A path that does not exist yet is what its environment name resolves to exactly when no segment contains an
      underscore or a dot, the existing part is found at every step, and the new part has no capital letter. Then the
      variable creates it below a mapping or a null, and is refused below any other value. */
  lemma NewNameRoundTrip(d: Doc, p: Path, q: Path)
    requires d.Mapping? && WellFormed(d) && q != [] && LeavesAt(d, p, q[0])
    ensures EnvTarget(d, EnvName(p + q)) == p + q
       <==> Free(p + q, '_') && Free(p + q, '.') && FirstAlong(d, p) && NoCapitals(q)
    ensures EnvTarget(d, EnvName(p + q)) == p + q && p + q != [""] ==>
              forall raw: string, coerce: Coercion ::
                var (after, at) := (EnvStep(d, (EnvName(p + q), raw), coerce), Get(d, p).value);
                if at.Mapping? || at == ABSENT then after == Put(d, p + q, Leaf(coerce(raw))) && after.Success?
                else after == Failure(NonMapping(p[|p| - 1]))
  {
    hide Resolve, EnvStep, EnvName, Free, FirstAlong, NoCapitals, EnvTarget, Put;
    NameTargets(d, p + q);
    ResolveCreates(d, p, q);
    forall v: Doc
      ensures var at := Get(d, p).value;
              if at.Mapping? || at == ABSENT then Put(d, p + q, v).Success?
              else p != [] && Put(d, p + q, v) == Failure(NonMapping(p[|p| - 1]))
    {
      PutBelow(d, p, q, v);
    }
  }

  lemma {:induction false} PutBelow(d: Doc, p: Path, q: Path, v: Doc)
    requires d.Mapping? && WellFormed(d) && q != [] && LeavesAt(d, p, q[0])
    ensures var at := Get(d, p).value;
            if at.Mapping? || at == ABSENT then Put(d, p + q, v).Success?
            else p != [] && Put(d, p + q, v) == Failure(NonMapping(p[|p| - 1]))
    decreases p
  {
    if p == [] {
      assert p + q == q;
      assert forall k :: k in d.fields ==> k in d.keys;
      PutIntoNothing(q[1..], v);
    } else {
      var child := d.fields[p[0]];
      assert (p + q)[1..] == p[1..] + q && (p + q)[0] == p[0];
      if child.Mapping? {
        PutBelow(child, p[1..], q, v);
      } else {
        assert HasPath(child, p[1..]) && p[1..] == [];
        PutIntoNothing(q, v);
      }
    }
  }

  lemma {:induction false} PutIntoNothing(q: Path, v: Doc)
    ensures q != [] ==> Put(EMPTY_MAPPING, q, v).Success?
  {
    if |q| > 1 {
      PutIntoNothing(q[1..], v);
    }
  }

  /** In a document of plain keys, a variable whose name spells an existing mapping or null and then new lower-case
      segments creates exactly that path: `BCS_CFG_METADATA_NAME` on `{metadata: {}}` writes `metadata.name`. */
  lemma PlainNameCreates(d: Doc, p: Path, q: Path, raw: string, coerce: Coercion)
    requires d.Mapping? && WellFormed(d) && PlainKeys(d) && q != [] && LeavesAt(d, p, q[0])
    requires Free(q, '_') && Free(q, '.') && NoCapitals(q) && p + q != [""]
    requires Get(d, p).value.Mapping? || Get(d, p).value == ABSENT
    ensures EnvStep(d, (EnvName(p + q), raw), coerce).Success?
    ensures var after := EnvStep(d, (EnvName(p + q), raw), coerce).value;
            && Get(after, p + q) == Success(Leaf(coerce(raw)))
            && forall other :: !Comparable(p + q, other) && Get(d, other).Success? ==>
                 Get(after, other) == Get(d, other)
  {
    hide EnvStep, EnvName, FirstAlong, NoCapitals, EnvTarget, Put;
    PlainKeysAreFirst(d, p);
    NewNameRoundTrip(d, p, q);
    var v := Leaf(coerce(raw));
    PutThenGet(d, p + q, v);
    forall other | !Comparable(p + q, other) {
      PutKeepsOthers(d, p + q, v, other);
    }
  }

  // ----- names that are not upper-case -----

  predicate HasSmall(segment: string) {
    exists j :: 0 <= j < |segment| && segment[j] in SMALL
  }

  lemma SmallIsNoKey(keys: seq<string>, segment: string)
    requires HasSmall(segment)
    ensures ActualKey(keys, segment) == Lower(segment)
  {
    hide FindActualKey;
    var found := FindActualKey(keys, segment);
    var j :| 0 <= j < |segment| && segment[j] in SMALL;
    SmallLetters(segment[j]);
    assert forall k :: Upper(k) == segment ==> UpperChar(k[j]) == segment[j];
  }

  lemma {:induction false} SmallResolves(d: Doc, segments: seq<string>)
    requires forall i :: 0 <= i < |segments| ==> HasSmall(segments[i])
    ensures Resolve(d, segments) == AllLower(segments)
    decreases segments
  {
    hide Lower, HasSmall;
    if segments != [] && d.Mapping? {
      SmallIsNoKey(d.keys, segments[0]);
      SmallResolves(Step(d, Lower(segments[0])), segments[1..]);
    }
  }

  /** Keys are matched against upper-case segments only: a name with a small letter in every segment stands for its
      lower-cased segments, whatever the document. */
  lemma SmallNamesAreLowered(d: Doc, segments: seq<string>)
    requires segments != [] && Free(segments, '_') && Free(segments, '.')
    requires forall i :: 0 <= i < |segments| ==> HasSmall(segments[i])
    ensures EnvTarget(d, ENV_PREFIX + Join(segments, '_')) == AllLower(segments)
  {
    hide Lower, HasSmall, Join, Resolve, AllLower;
    var name := ENV_PREFIX + Join(segments, '_');
    assert name[|ENV_PREFIX|..] == Join(segments, '_');
    SplitJoin(segments, '_');
    SmallResolves(d, segments);
    ResolveDotFree(d, segments);
    SplitJoin(Resolve(d, segments), '.');
  }

  lemma MetadataName()
    ensures EnvName(["metadata", "name"]) == "BCS_CFG_METADATA_NAME"
  {
    hide Upper;
    UpperMetadata();
    UpperName();
    var parts := AllUpper(["metadata", "name"]);
    assert parts == ["METADATA", "NAME"];
    assert Join(parts, '_') == "METADATA" + ['_'] + Join(parts[1..], '_') && parts[1..] == ["NAME"];
  }

  lemma UpperMetadata()
    ensures Upper("metadata") == "METADATA"
  {
  }

  lemma UpperName()
    ensures Upper("name") == "NAME"
  {
  }
}
