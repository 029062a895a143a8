/**
 The mutable document: containers on the heap, written in place. A ghost tree decorated with container
 identities says which containers the document owns; `Unshared` is the absence of aliasing (YAML anchors).
 */
module ConfigHeap {
  import opened Wrappers
  import opened ConfigDocument

  datatype Value = Plain(scalar: Scalar) | Ref(node: Node)

  datatype Body = DictBody(keys: seq<string>, fields: map<string, Value>) | ListBody(items: seq<Value>)

  function Assigned(b: Body, key: string, value: Value): Body
    requires b.DictBody?
  {
    DictBody(if key in b.fields then b.keys else b.keys + [key], b.fields[key := value])
  }

  class Node {
    var body: Body

    constructor (body: Body)
      ensures this.body == body
    {
      this.body := body;
    }

    // `self[key] = value`: an existing key keeps its place, a new one goes last.
    method SetItem(key: string, value: Value)
      requires body.DictBody?
      modifies this
      ensures body == Assigned(old(body), key, value)
    {
      body := Assigned(body, key, value);
    }
  }

  datatype Tree =
    | TLeaf(scalar: Scalar)
    | TList(node: Node, items: seq<Tree>)
    | TDict(node: Node, keys: seq<string>, fields: map<string, Tree>)

  ghost function Nodes(t: Tree): set<Node> {
    match t
    case TLeaf(_) => {}
    case TList(node, items) => {node} + set i, n | 0 <= i < |items| && n in Nodes(items[i]) :: n
    case TDict(node, _, fields) => {node} + set k, n | k in fields && n in Nodes(fields[k]) :: n
  }

  ghost function ValueOf(t: Tree): Value {
    if t.TLeaf? then Plain(t.scalar) else Ref(t.node)
  }

  type Store = map<Node, Body>

  ghost function BodyOf(t: Tree): Body
    requires !t.TLeaf?
  {
    match t
    case TList(_, items) => ListBody(seq(|items|, i requires 0 <= i < |items| => ValueOf(items[i])))
    case TDict(_, keys, fields) => DictBody(keys, map k | k in fields :: ValueOf(fields[k]))
  }

  // This view of the heap stores exactly the tree.
  ghost predicate Stored(t: Tree, h: Store) {
    match t
    case TLeaf(_) => true
    case TList(node, items) =>
      && node in h && h[node] == BodyOf(t)
      && forall i :: 0 <= i < |items| ==> Stored(items[i], h)
    case TDict(node, _, fields) =>
      && node in h && h[node] == BodyOf(t)
      && forall k :: k in fields ==> Stored(fields[k], h)
  }

  // No container occurs twice.
  ghost predicate Unshared(t: Tree) {
    match t
    case TLeaf(_) => true
    case TList(node, items) =>
      && (forall i :: 0 <= i < |items| ==> Unshared(items[i]) && node !in Nodes(items[i]))
      && (forall i, j :: 0 <= i < j < |items| ==> Nodes(items[i]) !! Nodes(items[j]))
    case TDict(node, _, fields) =>
      && (forall k :: k in fields ==> Unshared(fields[k]) && node !in Nodes(fields[k]))
      && (forall k, l :: k in fields && l in fields && k != l ==> Nodes(fields[k]) !! Nodes(fields[l]))
  }

  // The document value, with identities forgotten.
  ghost function Plainly(t: Tree): Doc {
    match t
    case TLeaf(s) => Leaf(s)
    case TList(_, items) => List(seq(|items|, i requires 0 <= i < |items| => Plainly(items[i])))
    case TDict(_, keys, fields) => Mapping(keys, map k | k in fields :: Plainly(fields[k]))
  }

  // ----- positions inside a tree, reached through mappings -----

  ghost predicate Reaches(t: Tree, p: Path) {
    p == [] || (t.TDict? && p[0] in t.fields && Reaches(t.fields[p[0]], p[1..]))
  }

  ghost function At(t: Tree, p: Path): Tree
    requires Reaches(t, p)
  {
    if p == [] then t else At(t.fields[p[0]], p[1..])
  }

  // The tree with `key` of the mapping at `p` set to `sub`.
  ghost function SetAt(t: Tree, p: Path, key: string, sub: Tree): Tree
    requires Reaches(t, p) && At(t, p).TDict?
  {
    if p == [] then
      TDict(t.node, if key in t.fields then t.keys else t.keys + [key], t.fields[key := sub])
    else
      TDict(t.node, t.keys, t.fields[p[0] := SetAt(t.fields[p[0]], p[1..], key, sub)])
  }

  lemma {:induction false} AtFacts(t: Tree, p: Path)
    requires Reaches(t, p) && Unshared(t)
    ensures Unshared(At(t, p)) && Nodes(At(t, p)) <= Nodes(t)
    ensures HasPath(Plainly(t), p) && Get(Plainly(t), p) == Success(Plainly(At(t, p)))
    decreases p
  {
    if p != [] {
      AtFacts(t.fields[p[0]], p[1..]);
    }
  }

  lemma {:induction false} AtStored(t: Tree, h: Store, p: Path)
    requires Reaches(t, p) && Stored(t, h)
    ensures Stored(At(t, p), h)
    decreases p
  {
    if p != [] {
      AtStored(t.fields[p[0]], h, p[1..]);
    }
  }

  lemma {:induction false} AtExtends(t: Tree, p: Path, key: string)
    requires Reaches(t, p) && At(t, p).TDict? && key in At(t, p).fields
    ensures Reaches(t, p + [key]) && At(t, p + [key]) == At(t, p).fields[key]
    decreases p
  {
    if p != [] {
      assert (p + [key])[1..] == p[1..] + [key];
      AtExtends(t.fields[p[0]], p[1..], key);
    } else {
      assert (p + [key])[1..] == [];
    }
  }

  lemma FieldNodes(t: Tree, k: string)
    requires t.TDict? && k in t.fields
    ensures Nodes(t.fields[k]) <= Nodes(t)
  {
  }

  // Replacing one child by a tree that meets no other part of the mapping keeps everything unshared.
  lemma ReplaceChild(t: Tree, keys: seq<string>, key: string, c: Tree)
    requires t.TDict? && Unshared(t) && Unshared(c) && t.node !in Nodes(c)
    requires forall l :: l in t.fields && l != key ==> Nodes(t.fields[l]) !! Nodes(c)
    ensures Unshared(TDict(t.node, keys, t.fields[key := c]))
    ensures Nodes(TDict(t.node, keys, t.fields[key := c])) <= Nodes(t) + Nodes(c)
    ensures Nodes(c) <= Nodes(TDict(t.node, keys, t.fields[key := c]))
  {
    var t' := TDict(t.node, keys, t.fields[key := c]);
    FieldNodes(t', key);
    assert t'.fields[key] == c;
  }

  lemma {:induction false} SetAtNodes(t: Tree, p: Path, key: string, sub: Tree)
    requires Reaches(t, p) && At(t, p).TDict? && Unshared(t)
    requires Unshared(sub) && Nodes(sub) !! Nodes(t)
    ensures Unshared(SetAt(t, p, key, sub))
    ensures Nodes(SetAt(t, p, key, sub)) <= Nodes(t) + Nodes(sub)
    ensures Nodes(sub) <= Nodes(SetAt(t, p, key, sub))
    decreases p
  {
    if p == [] {
      forall l | l in t.fields
        ensures Nodes(t.fields[l]) !! Nodes(sub)
      {
        FieldNodes(t, l);
      }
      ReplaceChild(t, if key in t.fields then t.keys else t.keys + [key], key, sub);
    } else {
      var c := t.fields[p[0]];
      FieldNodes(t, p[0]);
      SetAtNodes(c, p[1..], key, sub);
      forall l | l in t.fields && l != p[0]
        ensures Nodes(t.fields[l]) !! Nodes(SetAt(c, p[1..], key, sub))
      {
        FieldNodes(t, l);
      }
      ReplaceChild(t, t.keys, p[0], SetAt(c, p[1..], key, sub));
    }
  }

  lemma {:induction false} SetAtReaches(t: Tree, p: Path, key: string, sub: Tree)
    requires Reaches(t, p) && At(t, p).TDict?
    ensures Reaches(SetAt(t, p, key, sub), p + [key]) && At(SetAt(t, p, key, sub), p + [key]) == sub
    decreases p
  {
    if p == [] {
      assert (p + [key])[1..] == [];
    } else {
      assert (p + [key])[1..] == p[1..] + [key];
      SetAtReaches(t.fields[p[0]], p[1..], key, sub);
    }
  }

  // Setting a key in the decorated tree is the pure write on the document value.
  lemma MappingFacts(t: Tree)
    ensures Plainly(t).Mapping? <==> t.TDict?
  {
  }

  lemma SetAtTop(t: Tree, key: string, sub: Tree)
    requires t.TDict?
    ensures Plainly(SetAt(t, [], key, sub)) == SetKey(Plainly(t), key, Plainly(sub))
  {
    assert SetKey(Plainly(t), key, Plainly(sub)).fields == Plainly(SetAt(t, [], key, sub)).fields;
  }

  lemma SetAtBelow(t: Tree, p: Path, key: string, sub: Tree)
    requires p != [] && Reaches(t, p) && At(t, p).TDict?
    ensures var c := t.fields[p[0]];
            && Child(Plainly(t), p[0]) == (if c == TLeaf(Null) then EMPTY_MAPPING else Plainly(c))
            && Plainly(SetAt(t, p, key, sub)) == SetKey(Plainly(t), p[0], Plainly(SetAt(c, p[1..], key, sub)))
  {
    hide Get, Put, WellFormed;
    var c := t.fields[p[0]];
    assert SetKey(Plainly(t), p[0], Plainly(SetAt(c, p[1..], key, sub))).fields
        == Plainly(SetAt(t, p, key, sub)).fields;
  }

  lemma {:induction false} SetAtIsPut(t: Tree, p: Path, key: string, sub: Tree)
    requires Reaches(t, p) && At(t, p).TDict?
    ensures t.TDict? && Put(Plainly(t), p + [key], Plainly(sub)) == Success(Plainly(SetAt(t, p, key, sub)))
    decreases p
  {
    hide Plainly, SetAt, SetKey, Child;
    if p == [] {
      assert (p + [key])[0] == key;
      MappingFacts(t);
      SetAtTop(t, key, sub);
    } else {
      assert (p + [key])[1..] == p[1..] + [key];
      var c := t.fields[p[0]];
      MappingFacts(t);
      MappingFacts(c);
      SetAtIsPut(c, p[1..], key, sub);
      SetAtBelow(t, p, key, sub);
    }
  }

  // The later view differs from the earlier one at most at one container, and may know more of them.
  ghost predicate DiffersAtMostAt(h: Store, h': Store, written: Node) {
    forall n :: n in h && n != written ==> n in h' && h'[n] == h[n]
  }

  lemma {:induction false} StoredApart(t: Tree, h: Store, h': Store, written: Node)
    requires Stored(t, h) && DiffersAtMostAt(h, h', written) && written !in Nodes(t)
    ensures Stored(t, h')
  {
    match t
    case TLeaf(_) =>
    case TList(node, items) =>
      forall i | 0 <= i < |items|
        ensures Stored(items[i], h')
      {
        assert Nodes(items[i]) <= Nodes(t);
        StoredApart(items[i], h, h', written);
      }
    case TDict(node, _, fields) =>
      forall k | k in fields
        ensures Stored(fields[k], h')
      {
        FieldNodes(t, k);
        StoredApart(fields[k], h, h', written);
      }
  }

  // Writing one mapping's body, and nothing else the tree owns, stores the tree with that key set.
  lemma {:induction false} WriteStored(t: Tree, h: Store, h': Store, p: Path, key: string, sub: Tree)
    requires Stored(t, h) && Unshared(t) && Stored(sub, h')
    requires Reaches(t, p) && At(t, p).TDict? && DiffersAtMostAt(h, h', At(t, p).node)
    requires At(t, p).node in h' && h'[At(t, p).node] == BodyOf(SetAt(At(t, p), [], key, sub))
    ensures Stored(SetAt(t, p, key, sub), h')
    decreases p
  {
    var written := At(t, p).node;
    if p == [] {
      OthersStored(t, h, h', key, written);
      WithChildStored(t, h', if key in t.fields then t.keys else t.keys + [key], key, sub);
    } else {
      var c := t.fields[p[0]];
      AtFacts(c, p[1..]);
      assert written in Nodes(c);
      WriteStored(c, h, h', p[1..], key, sub);
      OthersStored(t, h, h', p[0], written);
      SameBody(t, p[0], SetAt(c, p[1..], key, sub));
      WithChildStored(t, h', t.keys, p[0], SetAt(c, p[1..], key, sub));
    }
  }

  lemma SameBody(t: Tree, key: string, c: Tree)
    requires t.TDict? && key in t.fields && ValueOf(c) == ValueOf(t.fields[key])
    ensures BodyOf(TDict(t.node, t.keys, t.fields[key := c])) == BodyOf(t)
  {
  }

  lemma WithChildStored(t: Tree, h: Store, keys: seq<string>, key: string, c: Tree)
    requires t.TDict? && Stored(c, h) && (forall k :: k in t.fields && k != key ==> Stored(t.fields[k], h))
    requires t.node in h && h[t.node] == BodyOf(TDict(t.node, keys, t.fields[key := c]))
    ensures Stored(TDict(t.node, keys, t.fields[key := c]), h)
  {
    var t' := TDict(t.node, keys, t.fields[key := c]);
    forall k | k in t'.fields
      ensures Stored(t'.fields[k], h)
    {
      if k == key {
        assert t'.fields[k] == c;
      } else {
        assert t'.fields[k] == t.fields[k];
      }
    }
  }

  lemma OthersStored(t: Tree, h: Store, h': Store, key: string, written: Node)
    requires t.TDict? && Stored(t, h) && Unshared(t) && DiffersAtMostAt(h, h', written)
    requires written == t.node || (key in t.fields && written in Nodes(t.fields[key]))
    ensures forall k :: k in t.fields && k != key ==> Stored(t.fields[k], h')
  {
    forall k | k in t.fields && k != key
      ensures Stored(t.fields[k], h')
    {
      StoredApart(t.fields[k], h, h', written);
    }
  }
}
