/**
 `get_by_path`, `set_by_path` and the override layers on the mutable document, proved against the value-level
 functions.
 */
module ConfigMutation {
  import opened Wrappers
  import opened Text
  import opened ConfigDocument
  import opened ConfigOverrides
  import opened ConfigHeap
  import opened ConfigLaws

  ghost function View(nodes: set<Node>): Store
    reads nodes
  {
    map n | n in nodes :: n.body
  }

  ghost predicate Owned(t: Tree)
    reads Nodes(t)
  {
    Unshared(t) && Stored(t, View(Nodes(t)))
  }

  // A view that differs at most at the written container still stores every tree that avoids it.
  lemma OwnedFrom(t: Tree, h: Store)
    requires Unshared(t) && Stored(t, h)
    requires forall n :: n in Nodes(t) && n in h ==> n.body == h[n]
    ensures Owned(t)
  {
    StoredOnly(t, h, View(Nodes(t)));
  }

  lemma {:induction false} StoredOnly(t: Tree, h: Store, h': Store)
    requires Stored(t, h) && forall n :: n in Nodes(t) ==> n in h' && (n in h ==> h'[n] == h[n])
    ensures Stored(t, h')
  {
    match t
    case TLeaf(_) =>
    case TList(node, items) =>
      forall i | 0 <= i < |items|
        ensures Stored(items[i], h')
      {
        assert Nodes(items[i]) <= Nodes(t);
        StoredOnly(items[i], h, h');
      }
    case TDict(node, _, fields) =>
      forall k | k in fields
        ensures Stored(fields[k], h')
      {
        FieldNodes(t, k);
        StoredOnly(fields[k], h, h');
      }
  }

  // What one key assignment means for the decorated tree and for the document value.
  lemma AssignmentFacts(t: Tree, p: Path, key: string, sub: Tree)
    requires Owned(t) && Reaches(t, p) && At(t, p).TDict? && WellFormed(Plainly(t))
    requires Unshared(sub) && WellFormed(Plainly(sub)) && Nodes(sub) !! Nodes(t)
    ensures var t' := SetAt(t, p, key, sub);
            && t'.TDict? && t'.node == t.node && Unshared(t') && Nodes(t') <= Nodes(t) + Nodes(sub)
            && Put(Plainly(t), p + [key], Plainly(sub)) == Success(Plainly(t')) && WellFormed(Plainly(t'))
    ensures At(t, p).node in Nodes(t) && At(t, p).node.body == BodyOf(At(t, p))
  {
    AtFacts(t, p);
    AtStored(t, View(Nodes(t)), p);
    SetAtNodes(t, p, key, sub);
    SetAtIsPut(t, p, key, sub);
    PutKeepsWellFormed(Plainly(t), p + [key], Plainly(sub));
  }

  // The heap after the assignment stores the updated tree.
  lemma AfterAssignment(t: Tree, h: Store, p: Path, key: string, sub: Tree)
    requires Stored(t, h) && Unshared(t) && Stored(sub, h) && Unshared(sub)
    requires h.Keys == Nodes(t) + Nodes(sub) && Nodes(sub) !! Nodes(t)
    requires Reaches(t, p) && At(t, p).TDict? && At(t, p).node in Nodes(t)
    requires forall n :: n in h && n != At(t, p).node ==> n.body == h[n]
    requires At(t, p).node.body == BodyOf(SetAt(At(t, p), [], key, sub))
    ensures Owned(SetAt(t, p, key, sub))
  {
    var h' := View(h.Keys);
    StoredApart(sub, h, h', At(t, p).node);
    WriteStored(t, h, h', p, key, sub);
    SetAtNodes(t, p, key, sub);
    OwnedFrom(SetAt(t, p, key, sub), h');
  }

  lemma BothStored(t: Tree, sub: Tree)
    requires Owned(t) && Owned(sub)
    ensures Stored(t, View(Nodes(t) + Nodes(sub))) && Stored(sub, View(Nodes(t) + Nodes(sub)))
  {
    StoredOnly(t, View(Nodes(t)), View(Nodes(t) + Nodes(sub)));
    StoredOnly(sub, View(Nodes(sub)), View(Nodes(t) + Nodes(sub)));
  }

  lemma AssignedBody(at: Tree, key: string, sub: Tree)
    requires at.TDict?
    ensures BodyOf(at).DictBody?
    ensures BodyOf(SetAt(at, [], key, sub)) == Assigned(BodyOf(at), key, ValueOf(sub))
  {
    assert BodyOf(SetAt(at, [], key, sub)).fields == BodyOf(at).fields[key := ValueOf(sub)];
  }

  // The cursor of a walk through mappings: its heap body, and what the document value holds there.
  lemma CursorFacts(t: Tree, p: Path, key: string)
    requires Owned(t) && Reaches(t, p) && At(t, p).TDict?
    ensures At(t, p).node in Nodes(t) && At(t, p).node.body == BodyOf(At(t, p))
    ensures Plainly(t).Mapping? && HasPath(Plainly(t), p) && Get(Plainly(t), p) == Success(Plainly(At(t, p)))
    ensures var body, d := At(t, p).node.body, Plainly(At(t, p));
            && body.DictBody? && d.Mapping?
            && (key !in body.fields || body.fields[key] == Plain(Null) <==> key !in d.fields || d.fields[key] == ABSENT)
  {
    AtFacts(t, p);
    AtStored(t, View(Nodes(t)), p);
  }

  lemma ChildFacts(t: Tree, p: Path, key: string)
    requires Owned(t) && Reaches(t, p) && At(t, p).TDict? && key in At(t, p).fields
    ensures Reaches(t, p + [key])
    ensures var c := At(t, p + [key]);
            && c == At(t, p).fields[key]
            && (!c.TLeaf? ==> c.node in Nodes(t) && c.node.body == BodyOf(c))
            && At(t, p).node.body == BodyOf(At(t, p))
            && Plainly(At(t, p)).Mapping? && key in Plainly(At(t, p)).fields
            && Plainly(At(t, p)).fields[key] == Plainly(c) && (Plainly(c).Mapping? <==> c.TDict?)
  {
    AtExtends(t, p, key);
    AtFacts(t, p);
    AtStored(t, View(Nodes(t)), p);
    AtFacts(t, p + [key]);
    AtStored(t, View(Nodes(t)), p + [key]);
  }

  lemma TLeafIsPlain(scalar: Scalar)
    ensures Owned(TLeaf(scalar)) && WellFormed(Plainly(TLeaf(scalar))) && Plainly(TLeaf(scalar)) == Leaf(scalar)
    ensures ValueOf(TLeaf(scalar)) == Plain(scalar) && Nodes(TLeaf(scalar)) == {}
  {
  }

  lemma {:induction false} EnvFailureSpreads(d: Doc, env: seq<EnvItem>, coerce: Coercion, k: nat)
    requires d.Mapping? && k < |env| && ApplyEnv(d, env[..k], coerce).Success?
    requires EnvStep(ApplyEnv(d, env[..k], coerce).value, env[k], coerce).Failure?
    ensures ApplyEnv(d, env, coerce)
         == Failure(EnvStep(ApplyEnv(d, env[..k], coerce).value, env[k], coerce).error)
  {
    if k < |env| - 1 {
      assert env[..|env| - 1][..k] == env[..k];
      EnvFailureSpreads(d, env[..|env| - 1], coerce, k);
    }
  }

  lemma EmptyMappingIsOwned(node: Node)
    requires node.body == DictBody([], map[])
    ensures Owned(TDict(node, [], map[])) && Plainly(TDict(node, [], map[])) == EMPTY_MAPPING
    ensures WellFormed(EMPTY_MAPPING) && Nodes(TDict(node, [], map[])) == {node}
  {
  }

  lemma StoredLeaf(h: Store)
    ensures Stored(TLeaf(Null), h)
  {
  }

  lemma ResolveEmpty(d: Doc)
    ensures Resolve(d, []) == []
  {
  }

  // One step of resolving an environment name at a heap cursor.
  lemma ResolveAt(at: Tree, h: Store, segments: seq<string>)
    requires Stored(at, h) && segments != []
    ensures at.TLeaf? || at.TList? ==> Resolve(Plainly(at), segments) == AllLower(segments)
    ensures !at.TLeaf? ==> at.node in h && h[at.node] == BodyOf(at) && at.node in Nodes(at)
    ensures at.TDict? ==>
              var actual := ActualKey(at.keys, segments[0]);
              var next := if actual in at.fields then at.fields[actual] else TLeaf(Null);
              && Resolve(Plainly(at), segments) == [actual] + Resolve(Plainly(next), segments[1..])
              && Stored(next, h) && Nodes(next) <= Nodes(at)
  {
    if at.TDict? {
      var actual := ActualKey(at.keys, segments[0]);
      if actual in at.fields {
        FieldNodes(at, actual);
      }
    }
  }

  // The first key that upper-cases to the segment.
  method FindKey(keys: seq<string>, upper: string) returns (r: Option<string>)
    ensures r == FindActualKey(keys, upper)
  {
    assert keys[0..] == keys;
    for i := 0 to |keys|
      invariant FindActualKey(keys, upper) == FindActualKey(keys[i..], upper)
    {
      assert keys[i..][1..] == keys[i + 1..];
      if Upper(keys[i]) == upper {
        return Some(keys[i]);
      }
    }
    return None;
  }

  class Document {
    const root: Node
    ghost var tree: Tree
    ghost var owned: set<Node>

    ghost predicate Valid()
      reads this, owned
    {
      owned == Nodes(tree) && tree.TDict? && tree.node == root && Owned(tree) && WellFormed(Plainly(tree))
    }

    // The document as a value.
    ghost function Contents(): (d: Doc)
      reads this
      ensures tree.TDict? ==> d.Mapping?
    {
      Plainly(tree)
    }

    constructor (root: Node, ghost tree: Tree)
      requires tree.TDict? && tree.node == root && Owned(tree) && WellFormed(Plainly(tree))
      ensures Valid() && this.root == root && this.tree == tree
    {
      this.root := root;
      this.tree := tree;
      this.owned := Nodes(tree);
    }

    // Reads the value at a dotted path; `found` is the part of the document it denotes.
    method GetByPath(path: string) returns (r: Result<Value, UsageError>, ghost found: Tree)
      requires Valid()
      ensures r.Success? <==> GetPath(Contents(), path).Success?
      ensures r.Failure? ==> r.error == GetPath(Contents(), path).error
      ensures r.Success? ==> ValueOf(found) == r.value && Plainly(found) == GetPath(Contents(), path).value
      ensures r.Success? ==> Nodes(found) <= owned && Stored(found, View(owned))
    {
      hide Unshared, WellFormed, ParseInt, Split, Put, HasPath;
      found := tree;
      if path == "" {
        return Failure(EmptyPath), found;
      }
      var segments := Split(path, '.');
      var node: Value := Ref(root);
      var i := 0;
      assert segments[0..] == segments;
      while i < |segments|
        invariant 0 <= i <= |segments|
        invariant ValueOf(found) == node
        invariant Nodes(found) <= owned && Stored(found, View(owned))
        invariant Get(Contents(), segments) == Get(Plainly(found), segments[i..])
      {
        var segment := segments[i];
        assert segments[i..][0] == segment && segments[i..][1..] == segments[i + 1..];
        match node {
          case Plain(_) =>
            return Failure(ScalarDescent(segment)), found;
          case Ref(container) =>
            match container.body {
              case DictBody(_, fields) =>
                if segment !in fields {
                  return Failure(MissingField(segment)), found;
                }
                node := fields[segment];
                FieldNodes(found, segment);
                found := found.fields[segment];
              case ListBody(items) =>
                match ParseInt(segment) {
                  case None => return Failure(NotAnIndex(segment)), found;
                  case Some(index) =>
                    match ItemAt(items, index) {
                      case None => return Failure(IndexOutOfRange(index)), found;
                      case Some(item) =>
                        node := item;
                        ghost var at := if index < 0 then index + |items| else index;
                        assert Nodes(found.items[at]) <= Nodes(found);
                        assert Plainly(found).items[at] == Plainly(found.items[at]);
                        found := found.items[at];
                    }
                }
            }
        }
        i := i + 1;
      }
      r := Success(node);
    }

    // `node[key] = value` for the mapping at `p`, with `sub` the tree the value denotes.
    method SetItem(node: Node, key: string, value: Value, ghost p: Path, ghost sub: Tree)
      requires Valid() && Owned(sub) && WellFormed(Plainly(sub)) && ValueOf(sub) == value && Nodes(sub) !! owned
      requires Reaches(tree, p) && At(tree, p).TDict? && At(tree, p).node == node
      modifies this`tree, this`owned, node
      ensures Valid() && tree == SetAt(old(tree), p, key, sub)
      ensures Put(old(Contents()), p + [key], Plainly(sub)) == Success(Contents())
      ensures owned <= old(owned) + Nodes(sub)
    {
      hide Unshared, Stored, WellFormed, Plainly, SetAt, Put;
      AssignmentFacts(tree, p, key, sub);
      BothStored(tree, sub);
      ghost var before, h := tree, View(owned + Nodes(sub));
      AssignedBody(At(before, p), key, sub);
      node.SetItem(key, value);
      assert forall n :: n in h && n != node ==> n.body == h[n];
      tree := SetAt(before, p, key, sub);
      owned := Nodes(tree);
      AfterAssignment(before, h, p, key, sub);
    }

    // `node[key] = {}` for the mapping at `p`.
    method CreateMapping(node: Node, key: string, ghost p: Path) returns (empty: Node)
      requires Valid() && Reaches(tree, p) && At(tree, p).TDict? && At(tree, p).node == node && node in owned
      modifies this`tree, this`owned, node
      ensures Valid() && fresh(empty) && fresh(owned - old(owned))
      ensures Reaches(tree, p + [key]) && At(tree, p + [key]) == TDict(empty, [], map[])
      ensures Put(old(Contents()), p + [key], EMPTY_MAPPING) == Success(Contents())
    {
      hide Unshared, Put, SetAt, At;
      empty := new Node(DictBody([], map[]));
      ghost var leaf := TDict(empty, [], map[]);
      EmptyMappingIsOwned(empty);
      SetAtReaches(tree, p, key, leaf);
      SetItem(node, key, Ref(empty), p, leaf);
    }

    /** Writes a value at a dotted path, creating intermediate mappings on the way down.
        A refused write leaves every container of the document as it was. */
    method SetByPath(path: string, value: Value, ghost sub: Tree, ghost lent: set<Node>)
        returns (failure: Option<UsageError>)
      requires Valid() && Owned(sub) && WellFormed(Plainly(sub)) && ValueOf(sub) == value && Nodes(sub) == lent
                && lent !! owned
      modifies this`tree, this`owned, owned
      ensures Valid()
      ensures failure.None? ==> PutPath(old(Contents()), path, Plainly(sub)) == Success(Contents())
      ensures failure.Some? ==> PutPath(old(Contents()), path, Plainly(sub)) == Failure(failure.value)
      ensures failure.Some? ==> tree == old(tree) && forall n :: n in old(owned) ==> n.body == old(n.body)
      ensures fresh(owned - old(owned) - lent)
    {
      hide Unshared, Stored, WellFormed, Nodes, Plainly, SetAt, Put, HasPath, Get;
      if path == "" {
        return Some(EmptyPath);
      }
      var segments := Split(path, '.');
      var node := root;
      var i := 0;
      ghost var v := Plainly(sub);
      ghost var created := false;
      while i < |segments| - 1
        invariant 0 <= i < |segments|
        invariant Valid() && Owned(sub) && Nodes(sub) == lent && lent !! owned
        invariant Reaches(tree, segments[..i]) && At(tree, segments[..i]).TDict? && At(tree, segments[..i]).node == node
        invariant Contents().Mapping? && Put(Contents(), segments, v) == Put(old(Contents()), segments, v)
        invariant created ==> At(tree, segments[..i]) == TDict(node, [], map[])
        invariant !created ==> tree == old(tree) && forall n :: n in old(owned) ==> n.body == old(n.body)
        invariant fresh(owned - old(owned))
      {
        var segment := segments[i];
        ghost var here := segments[..i];
        assert here + [segment] == segments[..i + 1];
        CursorFacts(tree, here, segment);
        var next := if segment in node.body.fields then node.body.fields[segment] else Plain(Null);
        if next == Plain(Null) {
          PutThroughCreated(Contents(), segments, i + 1, v);
          var empty := CreateMapping(node, segment, here);
          next := Ref(empty);
          created := true;
        } else {
          ChildFacts(tree, here, segment);
          if next.Plain? || !next.node.body.DictBody? {
            PutStopsAt(Contents(), segments, i, v);
            return Some(NonMapping(segment));
          }
        }
        node := next.node;
        i := i + 1;
      }
      ghost var here := segments[..i];
      assert here + [segments[i]] == segments;
      CursorFacts(tree, here, segments[i]);
      SetItem(node, segments[i], value, here, sub);
      failure := None;
    }

    // One `--set path=value` item.
    method ApplySet(item: string, coerce: Coercion) returns (failure: Option<UsageError>)
      requires Valid()
      modifies this`tree, this`owned, owned
      ensures Valid() && fresh(owned - old(owned))
      ensures failure.None? ==> SetStep(old(Contents()), item, coerce) == Success(Contents())
      ensures failure.Some? ==> SetStep(old(Contents()), item, coerce) == Failure(failure.value)
      ensures failure.Some? ==> Contents() == old(Contents())
    {
      hide Unshared, Stored, WellFormed, Put;
      match ParseSetOption(item, coerce) {
        case Failure(error) =>
          failure := Some(error);
        case Success((path, scalar)) =>
          TLeafIsPlain(scalar);
          failure := SetByPath(path, Plain(scalar), TLeaf(scalar), {});
      }
    }

    /** The `--set` layer. `applied` items took effect: all of them, or all before the one that is refused. */
    method ApplySetOverrides(items: seq<string>, coerce: Coercion)
      returns (failure: Option<UsageError>, ghost applied: nat)
      requires Valid()
      modifies this`tree, this`owned, owned
      ensures Valid() && fresh(owned - old(owned))
      ensures applied <= |items| && ApplySets(old(Contents()), items[..applied], coerce) == Success(Contents())
      ensures failure.None? <==> applied == |items|
      ensures failure.Some? ==> SetStep(Contents(), items[applied], coerce) == Failure(failure.value)
    {
      hide Unshared, Stored, WellFormed, Put, SetStep;
      var i := 0;
      while i < |items|
        invariant 0 <= i <= |items|
        invariant Valid() && fresh(owned - old(owned))
        invariant ApplySets(old(Contents()), items[..i], coerce) == Success(Contents())
      {
        failure := ApplySet(items[i], coerce);
        if failure.Some? {
          return failure, i;
        }
        assert items[..i + 1][..i] == items[..i];
        i := i + 1;
      }
      return None, i;
    }

    // Resolves an environment name against the document as it is now.
    method EnvKeyToPath(key: string) returns (path: string)
      requires Valid() && IsConfigKey(key)
      ensures path == EnvPath(Contents(), key)
    {
      hide Unshared, WellFormed, Stored, Nodes, Plainly, Resolve;
      var segments := Split(key[|ENV_PREFIX|..], '_');
      var resolved: seq<string> := [];
      var node: Value := Ref(root);
      ghost var at := tree;
      var i := 0;
      assert segments[0..] == segments && [] + Resolve(Contents(), segments) == Resolve(Contents(), segments);
      while i < |segments|
        invariant 0 <= i <= |segments|
        invariant ValueOf(at) == node && Nodes(at) <= owned && Stored(at, View(owned))
        invariant Resolve(Contents(), segments) == resolved + Resolve(Plainly(at), segments[i..])
      {
        var segment := segments[i];
        assert segments[i..][0] == segment && segments[i..][1..] == segments[i + 1..];
        ResolveAt(at, View(owned), segments[i..]);
        if node.Ref? && node.node.body.DictBody? {
          var keys, fields := node.node.body.keys, node.node.body.fields;
          var found := FindKey(keys, segment);
          var actual := if found.Some? && found.value != "" then found.value else Lower(segment);
          resolved := resolved + [actual];
          if actual in fields {
            node := fields[actual];
            at := at.fields[actual];
          } else {
            node := Plain(Null);
            at := TLeaf(Null);
            TLeafIsPlain(Null);
            StoredLeaf(View(owned));
          }
        } else {
          resolved := resolved + AllLower(segments[i..]);
          return Join(resolved, '.');
        }
        i := i + 1;
      }
      ResolveEmpty(Plainly(at));
      assert segments[i..] == [] && resolved + [] == resolved;
      path := Join(resolved, '.');
    }

    // One environment variable; names without the prefix are skipped.
    method ApplyVariable(item: EnvItem, coerce: Coercion) returns (failure: Option<UsageError>)
      requires Valid()
      modifies this`tree, this`owned, owned
      ensures Valid() && fresh(owned - old(owned))
      ensures failure.None? ==> EnvStep(old(Contents()), item, coerce) == Success(Contents())
      ensures failure.Some? ==> EnvStep(old(Contents()), item, coerce) == Failure(failure.value)
      ensures failure.Some? ==> Contents() == old(Contents())
    {
      hide Unshared, Stored, WellFormed, Put;
      if !IsConfigKey(item.0) {
        return None;
      }
      var path := EnvKeyToPath(item.0);
      var scalar := coerce(item.1);
      TLeafIsPlain(scalar);
      failure := SetByPath(path, Plain(scalar), TLeaf(scalar), {});
    }

    method ApplyEnvOverrides(env: seq<EnvItem>, coerce: Coercion)
      returns (failure: Option<UsageError>, ghost applied: nat)
      requires Valid()
      modifies this`tree, this`owned, owned
      ensures Valid() && fresh(owned - old(owned))
      ensures applied <= |env| && ApplyEnv(old(Contents()), env[..applied], coerce) == Success(Contents())
      ensures failure.None? <==> applied == |env|
      ensures failure.Some? ==> EnvStep(Contents(), env[applied], coerce) == Failure(failure.value)
    {
      hide Unshared, Stored, WellFormed, Put, EnvStep;
      var i := 0;
      while i < |env|
        invariant 0 <= i <= |env|
        invariant Valid() && fresh(owned - old(owned))
        invariant ApplyEnv(old(Contents()), env[..i], coerce) == Success(Contents())
      {
        failure := ApplyVariable(env[i], coerce);
        if failure.Some? {
          return failure, i;
        }
        assert env[..i + 1][..i] == env[..i];
        i := i + 1;
      }
      return None, i;
    }

    // The override layers of `load_raw`: environment, then `--set`.
    method ApplyOverrideLayers(env: seq<EnvItem>, sets: seq<string>, coerce: Coercion)
      returns (failure: Option<UsageError>)
      requires Valid()
      modifies this`tree, this`owned, owned
      ensures Valid()
      ensures failure.None? ==> ApplyLayers(old(Contents()), env, sets, coerce) == Success(Contents())
      ensures failure.Some? ==> ApplyLayers(old(Contents()), env, sets, coerce) == Failure(failure.value)
    {
      hide Unshared, Stored, WellFormed, Put, EnvStep, SetStep;
      ghost var n;
      failure, n := ApplyEnvOverrides(env, coerce);
      assert env[..|env|] == env;
      if failure.Some? {
        EnvFailureSpreads(old(Contents()), env, coerce, n);
        return;
      }
      ghost var layered := Contents();
      failure, n := ApplySetOverrides(sets, coerce);
      assert sets[..|sets|] == sets;
      if failure.Some? {
        StoppingFails(layered, sets, coerce, n);
      }
    }
  }
}
