/** What whole override runs guarantee: precedence, order independence and the environment-name round trip. */
module ConfigLaws {
  import opened Wrappers
  import opened Text
  import opened ConfigDocument
  import opened ConfigOverrides

  // ----- dotted paths -----

  /** A dotted path means the segments between its dots, in reading and in writing: every text is one such path, and
      only the empty one is refused as such. */
  lemma DottedPaths(d: Doc, segments: Path, path: string, v: Doc)
    requires d.Mapping? && segments != [] && Free(segments, '.')
    ensures Free(Split(path, '.'), '.') && Join(Split(path, '.'), '.') == path
    ensures path == Join(segments, '.') ==> segments == Split(path, '.') && (path == "" <==> segments == [""])
    ensures path == Join(segments, '.') ==>
              && GetPath(d, path) == (if segments == [""] then Failure(EmptyPath) else Get(d, segments))
              && PutPath(d, path, v) == (if segments == [""] then Failure(EmptyPath) else Put(d, segments, v))
  {
    hide Get, Put, Split, Join;
    SplitFree(path, '.');
    JoinOfSplit(path, '.');
    SplitJoin(segments, '.');
    SplitNothing('.');
  }

  lemma SplitNothing(sep: char)
    ensures Split("", sep) == [""] && Join([""], sep) == ""
  {
  }

  // What is written at a dotted path is read back there, and elsewhere nothing changes.
  lemma PutPathThenGetPath(d: Doc, path: string, v: Doc, other: string)
    requires d.Mapping? && PutPath(d, path, v).Success?
    ensures GetPath(PutPath(d, path, v).value, path) == Success(v)
    ensures other != "" && !Comparable(Split(path, '.'), Split(other, '.')) && GetPath(d, other).Success? ==>
              GetPath(PutPath(d, path, v).value, other) == GetPath(d, other)
  {
    PutThenGet(d, Split(path, '.'), v);
    if !Comparable(Split(path, '.'), Split(other, '.')) {
      PutKeepsOthers(d, Split(path, '.'), v, Split(other, '.'));
    }
  }

  // ----- precedence of `--set` -----

  function SetPath(item: string): Path {
    Split(Strip(Partition(item, '=').0), '.')
  }

  function SetValue(item: string, coerce: Coercion): Doc {
    Leaf(coerce(Partition(item, '=').1))
  }

  // The text before the first equals sign, without surrounding whitespace, is the path; the rest is the raw value.
  lemma SetOptionRoundTrip(left: string, path: string, right: string, raw: string, coerce: Coercion)
    requires AllSpace(left) && AllSpace(right) && Trimmed(path) && '=' !in path
    ensures var item := left + path + right + "=" + raw;
            && ParseSetOption(item, coerce)
               == (if path == "" then Failure(EmptySetPath(item)) else Success((path, coerce(raw))))
            && SetPath(item) == Split(path, '.') && SetValue(item, coerce) == Leaf(coerce(raw))
    ensures ParseSetOption(left + path + right, coerce) == Failure(NoEquals(left + path + right))
  {
    var padded := left + path + right;
    assert '=' !in left && '=' !in right by {
      assert !IsSpace('=');
    }
    PartitionAt(padded, raw, '=');
    StripPadded(left, path, right);
    assert (padded + "=" + raw)[|padded|] == '=';
  }

  // A path no `--set` item touches reads the same before and after the `--set` layer.
  lemma {:induction false} SetsKeepOthers(d: Doc, sets: seq<string>, coerce: Coercion, q: Path)
    requires d.Mapping? && ApplySets(d, sets, coerce).Success?
    requires forall item :: item in sets ==> !Comparable(SetPath(item), q)
    ensures Get(ApplySets(d, sets, coerce).value, q).Success? <==> Get(d, q).Success?
    ensures Get(d, q).Success? ==> Get(ApplySets(d, sets, coerce).value, q) == Get(d, q)
  {
    if sets != [] {
      var n := |sets| - 1;
      SetsKeepOthers(d, sets[..n], coerce, q);
      var before := ApplySets(d, sets[..n], coerce).value;
      PutKeepsOthers(before, SetPath(sets[n]), SetValue(sets[n], coerce), q);
    }
  }

  // The last `--set` for a path decides its value, whatever the environment layer did.
  lemma {:induction false} LastSetWins(d: Doc, env: seq<EnvItem>, sets: seq<string>, coerce: Coercion, i: nat)
    requires d.Mapping? && ApplyLayers(d, env, sets, coerce).Success? && i < |sets|
    requires forall j :: i < j < |sets| ==> !Comparable(SetPath(sets[j]), SetPath(sets[i]))
    ensures Get(ApplyLayers(d, env, sets, coerce).value, SetPath(sets[i])) == Success(SetValue(sets[i], coerce))
    decreases |sets|
  {
    var layered := ApplyEnv(d, env, coerce).value;
    var n := |sets| - 1;
    var before := ApplySets(layered, sets[..n], coerce).value;
    if i == n {
      PutThenGet(before, SetPath(sets[i]), SetValue(sets[i], coerce));
    } else {
      LastSetWins(d, env, sets[..n], coerce, i);
      PutKeepsOthers(before, SetPath(sets[n]), SetValue(sets[n], coerce), SetPath(sets[i]));
    }
  }

  // Every item before the k-th applies and the k-th is refused.
  predicate StopsAt(d: Doc, sets: seq<string>, coerce: Coercion, k: nat)
    requires d.Mapping? && k < |sets|
  {
    && ApplySets(d, sets[..k], coerce).Success?
    && SetStep(ApplySets(d, sets[..k], coerce).value, sets[k], coerce).Failure?
  }

  // A run fails exactly when it stops at some item, and then with that item's error.
  lemma {:induction false} StoppingFails(d: Doc, sets: seq<string>, coerce: Coercion, k: nat)
    requires d.Mapping? && k < |sets| && StopsAt(d, sets, coerce, k)
    ensures ApplySets(d, sets, coerce)
         == Failure(SetStep(ApplySets(d, sets[..k], coerce).value, sets[k], coerce).error)
  {
    if k < |sets| - 1 {
      var front := sets[..|sets| - 1];
      assert front[..k] == sets[..k] && front[k] == sets[k];
      assert StopsAt(d, front, coerce, k);
      StoppingFails(d, front, coerce, k);
    }
  }

  lemma {:induction false} FailingStops(d: Doc, sets: seq<string>, coerce: Coercion) returns (k: nat)
    requires d.Mapping? && ApplySets(d, sets, coerce).Failure?
    ensures k < |sets| && StopsAt(d, sets, coerce, k)
  {
    var n := |sets| - 1;
    if ApplySets(d, sets[..n], coerce).Failure? {
      k := FailingStops(d, sets[..n], coerce);
      assert sets[..n][..k] == sets[..k];
    } else {
      k := n;
    }
  }

  // ----- order independence of the environment -----

  // Where an environment name writes to, as `set_by_path` re-splits it.
  function EnvTarget(d: Doc, key: string): (r: Path)
    requires IsConfigKey(key)
    ensures r != []
  {
    Split(EnvPath(d, key), '.')
  }

  // The variable resolves, against this document, to a path that exists through mappings.
  predicate Lands(d: Doc, item: EnvItem) {
    IsConfigKey(item.0) ==> EnvPath(d, item.0) != "" && HasPath(d, EnvTarget(d, item.0))
  }

  predicate Apart(d: Doc, a: EnvItem, b: EnvItem) {
    IsConfigKey(a.0) && IsConfigKey(b.0) ==> !Comparable(EnvTarget(d, a.0), EnvTarget(d, b.0))
  }

  // Every variable lands, and no two of them write to comparable paths.
  ghost predicate Settled(d: Doc, env: multiset<EnvItem>) {
    && (forall x :: x in env ==> Lands(d, x))
    && (forall x, y :: x in env && y in env && x != y ==> Apart(d, x, y))
    && (forall x :: x in env && IsConfigKey(x.0) ==> env[x] == 1)
  }

  lemma SettledPart(d: Doc, all: multiset<EnvItem>, part: multiset<EnvItem>)
    requires Settled(d, all) && part <= all
    ensures Settled(d, part)
  {
  }

  lemma SettledPair(d: Doc, rest: multiset<EnvItem>, x: EnvItem, y: EnvItem)
    requires Settled(d, rest + multiset{x} + multiset{y})
    ensures Settled(d, rest + multiset{x}) && Settled(d, rest + multiset{y})
    ensures Lands(d, x) && Lands(d, y) && Apart(d, x, y)
  {
    var all := rest + multiset{x} + multiset{y};
    SettledPart(d, all, rest + multiset{x});
    SettledPart(d, all, rest + multiset{y});
    assert x in all && y in all && (x == y ==> all[x] >= 2);
  }

  lemma EnvSnoc(d: Doc, env: seq<EnvItem>, x: EnvItem, coerce: Coercion)
    requires d.Mapping?
    ensures ApplyEnv(d, env, coerce).Success? ==>
              ApplyEnv(d, env + [x], coerce) == EnvStep(ApplyEnv(d, env, coerce).value, x, coerce)
    ensures ApplyEnv(d, env, coerce).Failure? ==> ApplyEnv(d, env + [x], coerce).Failure?
  {
    assert (env + [x])[..|env|] == env;
  }

  // A write that is not a prefix of the resolved walk leaves the resolution alone.
  lemma {:induction false} ResolveSurvivesPut(d: Doc, segments: seq<string>, p: Path, v: Doc)
    requires d.Mapping? && p != [] && HasPath(d, p) && !(p <= Resolve(d, segments))
    ensures Put(d, p, v).Success? && Resolve(Put(d, p, v).value, segments) == Resolve(d, segments)
    decreases segments
  {
    HasPathPuts(d, p, v);
    if segments != [] {
      var actual := ActualKey(d.keys, segments[0]);
      assert |p| == 1 && p[0] == actual ==> p <= Resolve(d, segments);
      if actual == p[0] {
        assert [p[0]] + p[1..] == p;
        ResolveSurvivesPut(d.fields[actual], segments[1..], p[1..], v);
      }
    }
  }

  lemma PrefixOfWalkIsPrefixOfTarget(p: Path, walk: seq<string>)
    requires Free(p, '.') && p <= walk && p != []
    ensures p <= Split(Join(walk, '.'), '.')
  {
    if |p| == |walk| {
      assert p == walk;
      SplitJoin(p, '.');
    } else {
      assert walk == p + walk[|p|..];
      SplitJoinPrefix(p, walk[|p|..], '.');
    }
  }

  // One step of a settled run: the write succeeds and every variable apart from it still resolves as before.
  lemma StepKeepsTarget(d: Doc, x: EnvItem, y: EnvItem, coerce: Coercion)
    requires d.Mapping? && Lands(d, x) && Lands(d, y) && Apart(d, x, y)
    ensures EnvStep(d, x, coerce).Success?
    ensures var after := EnvStep(d, x, coerce).value;
            Lands(after, y) && (IsConfigKey(y.0) ==> EnvPath(after, y.0) == EnvPath(d, y.0))
  {
    if IsConfigKey(x.0) {
      var p, v := EnvTarget(d, x.0), Leaf(coerce(x.1));
      HasPathPuts(d, p, v);
      if IsConfigKey(y.0) {
        SplitFree(EnvPath(d, x.0), '.');
        if p <= Resolve(d, EnvSegments(y.0)) {
          PrefixOfWalkIsPrefixOfTarget(p, Resolve(d, EnvSegments(y.0)));
        }
        ResolveSurvivesPut(d, EnvSegments(y.0), p, v);
        PutKeepsPaths(d, p, v, EnvTarget(d, y.0));
      }
    }
  }

  // After any settled run, a further variable still resolves to the path it had at the start.
  lemma {:induction false} TargetsStay(d: Doc, env: seq<EnvItem>, y: EnvItem, coerce: Coercion)
    requires d.Mapping? && Settled(d, multiset(env) + multiset{y})
    ensures ApplyEnv(d, env, coerce).Success?
    ensures var after := ApplyEnv(d, env, coerce).value;
            Lands(after, y) && (IsConfigKey(y.0) ==> EnvPath(after, y.0) == EnvPath(d, y.0))
  {
    var all := multiset(env) + multiset{y};
    assert y in all;
    if env != [] {
      var front, x := env[..|env| - 1], env[|env| - 1];
      assert env == front + [x];
      assert all == multiset(front) + multiset{x} + multiset{y};
      SettledPair(d, multiset(front), x, y);
      TargetsStay(d, front, x, coerce);
      TargetsStay(d, front, y, coerce);
      EnvSnoc(d, front, x, coerce);
      StepKeepsTarget(ApplyEnv(d, front, coerce).value, x, y, coerce);
    }
  }

  // Two variables that land apart can be applied in either order.
  lemma StepsCommute(d: Doc, x: EnvItem, y: EnvItem, coerce: Coercion)
    requires d.Mapping? && Lands(d, x) && Lands(d, y) && Apart(d, x, y)
    ensures EnvStep(d, x, coerce).Success? && EnvStep(d, y, coerce).Success?
    ensures EnvStep(EnvStep(d, x, coerce).value, y, coerce) == EnvStep(EnvStep(d, y, coerce).value, x, coerce)
  {
    StepKeepsTarget(d, x, y, coerce);
    StepKeepsTarget(d, y, x, coerce);
    if IsConfigKey(x.0) && IsConfigKey(y.0) {
      PutsCommute(d, EnvTarget(d, x.0), Leaf(coerce(x.1)), EnvTarget(d, y.0), Leaf(coerce(y.1)));
    }
  }

  lemma LastTwoStand(d: Doc, env: seq<EnvItem>, x: EnvItem, y: EnvItem, coerce: Coercion)
    requires d.Mapping? && Settled(d, multiset(env) + multiset{x} + multiset{y})
    ensures ApplyEnv(d, env, coerce).Success?
    ensures var before := ApplyEnv(d, env, coerce).value;
            Lands(before, x) && Lands(before, y) && Apart(before, x, y)
  {
    SettledPair(d, multiset(env), x, y);
    TargetsStay(d, env, x, coerce);
    TargetsStay(d, env, y, coerce);
  }

  lemma SwapLastTwo(d: Doc, env: seq<EnvItem>, x: EnvItem, y: EnvItem, coerce: Coercion)
    requires d.Mapping? && Settled(d, multiset(env) + multiset{x} + multiset{y})
    ensures ApplyEnv(d, env + [x] + [y], coerce) == ApplyEnv(d, env + [y] + [x], coerce)
    ensures ApplyEnv(d, env + [x], coerce).Success?
  {
    LastTwoStand(d, env, x, y, coerce);
    StepsCommute(ApplyEnv(d, env, coerce).value, x, y, coerce);
    EnvSnoc(d, env, x, coerce);
    EnvSnoc(d, env, y, coerce);
    EnvSnoc(d, env + [x], y, coerce);
    EnvSnoc(d, env + [y], x, coerce);
  }

  lemma SettledRegroup(d: Doc, front: multiset<EnvItem>, mid: multiset<EnvItem>, x: EnvItem, y: EnvItem)
    requires Settled(d, front + multiset{x} + (mid + multiset{y}))
    ensures Settled(d, front + multiset{x} + mid)
    ensures Settled(d, front + mid + multiset{x} + multiset{y})
  {
    SettledPart(d, front + multiset{x} + (mid + multiset{y}), front + multiset{x} + mid);
    assert front + mid + multiset{x} + multiset{y} == front + multiset{x} + (mid + multiset{y});
  }

  // Moving one variable to the end of the environment changes nothing.
  lemma {:induction false} MoveLast(d: Doc, front: seq<EnvItem>, x: EnvItem, back: seq<EnvItem>, coerce: Coercion)
    requires d.Mapping? && Settled(d, multiset(front) + multiset{x} + multiset(back))
    ensures ApplyEnv(d, front + [x] + back, coerce) == ApplyEnv(d, front + back + [x], coerce)
    decreases |back|
  {
    if back == [] {
      assert front + [x] + back == front + back + [x];
    } else {
      var mid, y := back[..|back| - 1], back[|back| - 1];
      var rest := front + mid;
      assert back == mid + [y];
      assert front + [x] + back == (front + [x] + mid) + [y];
      assert rest + [y] + [x] == front + back + [x];
      assert multiset(back) == multiset(mid) + multiset{y};
      assert multiset(rest) == multiset(front) + multiset(mid);
      SettledRegroup(d, multiset(front), multiset(mid), x, y);
      MoveLast(d, front, x, mid, coerce);
      SwapLastTwo(d, rest, x, y, coerce);
      AppendSame(d, front + [x] + mid, rest + [x], y, coerce);
    }
  }

  lemma AppendSame(d: Doc, a: seq<EnvItem>, b: seq<EnvItem>, y: EnvItem, coerce: Coercion)
    requires d.Mapping? && ApplyEnv(d, a, coerce) == ApplyEnv(d, b, coerce)
    ensures ApplyEnv(d, a + [y], coerce) == ApplyEnv(d, b + [y], coerce)
  {
    assert (a + [y])[..|a|] == a && (b + [y])[..|b|] == b;
  }

  lemma {:induction false} SettledApplies(d: Doc, env: seq<EnvItem>, coerce: Coercion)
    requires d.Mapping? && Settled(d, multiset(env))
    ensures ApplyEnv(d, env, coerce).Success?
  {
    if env != [] {
      var front, x := env[..|env| - 1], env[|env| - 1];
      assert env == front + [x];
      TargetsStay(d, front, x, coerce);
      EnvSnoc(d, front, x, coerce);
      StepKeepsTarget(ApplyEnv(d, front, coerce).value, x, ("", ""), coerce);
    }
  }

  /** Every permutation of the environment produces the same document, key order included, although
      each variable is resolved against the document as already modified. */
  lemma {:induction false} EnvironmentOrderIrrelevant(d: Doc, a: seq<EnvItem>, b: seq<EnvItem>, coerce: Coercion)
    requires d.Mapping? && Settled(d, multiset(a)) && multiset(a) == multiset(b)
    ensures ApplyEnv(d, a, coerce).Success?
    ensures ApplyEnv(d, b, coerce) == ApplyEnv(d, a, coerce)
    decreases |a|
  {
    SettledApplies(d, a, coerce);
    if a == [] {
      assert |b| == |multiset(b)| == 0;
    } else {
      var front, x := a[..|a| - 1], a[|a| - 1];
      assert a == front + [x];
      var left, right := WithdrawFrom(a, b);
      MoveLast(d, left, x, right, coerce);
      SettledPart(d, multiset(a), multiset(front));
      EnvironmentOrderIrrelevant(d, front, left + right, coerce);
      AppendSame(d, front, left + right, x, coerce);
    }
  }

  // The last item of one ordering, located in another ordering of the same items.
  lemma WithdrawFrom(a: seq<EnvItem>, b: seq<EnvItem>) returns (left: seq<EnvItem>, right: seq<EnvItem>)
    requires a != [] && multiset(a) == multiset(b)
    ensures b == left + [a[|a| - 1]] + right
    ensures multiset(left) + multiset{a[|a| - 1]} + multiset(right) == multiset(a)
    ensures multiset(left + right) == multiset(a[..|a| - 1])
  {
    var front, x := a[..|a| - 1], a[|a| - 1];
    assert a == front + [x];
    assert x in multiset(b);
    var j :| 0 <= j < |b| && b[j] == x;
    left, right := b[..j], b[j + 1..];
    assert b == left + [x] + right;
    assert multiset(left + right) == multiset(b) - multiset{x};
    assert multiset(front) == multiset(a) - multiset{x};
  }

  // Every landed variable takes effect: reading where it resolved at the start gives its coerced value.
  lemma {:induction false} EnvironmentTakesEffect(d: Doc, env: seq<EnvItem>, x: EnvItem, coerce: Coercion)
    requires d.Mapping? && Settled(d, multiset(env)) && x in env && IsConfigKey(x.0)
    ensures ApplyEnv(d, env, coerce).Success?
    ensures Get(ApplyEnv(d, env, coerce).value, EnvTarget(d, x.0)) == Success(Leaf(coerce(x.1)))
  {
    var j :| 0 <= j < |env| && env[j] == x;
    var front := env[..j] + env[j + 1..];
    assert env == env[..j] + [x] + env[j + 1..];
    assert multiset(front + [x]) == multiset(env);
    EnvironmentOrderIrrelevant(d, env, front + [x], coerce);
    TargetsStay(d, front, x, coerce);
    EnvSnoc(d, front, x, coerce);
    var before := ApplyEnv(d, front, coerce).value;
    PutThenGet(before, EnvTarget(d, x.0), Leaf(coerce(x.1)));
  }
}
