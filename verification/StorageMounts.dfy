/** The mount forest behind findmnt's nested report, and what flattening it preserves. */
module StorageMounts {
  import opened Wrappers
  import opened StorageModel

  datatype MountTree = MountTree(
    source: string, target: string, fstype: string, options: string, children: seq<MountTree>)

  // The forest a report describes, with the source's checks in the source's order.
  function Decode(entry: Json): Result<MountTree, ParseError>
    decreases entry, 1
  {
    var target :- RequireStr(entry, "target", Findmnt);
    var source :- RequireStr(entry, "source", Findmnt);
    var fstype :- RequireStr(entry, "fstype", Findmnt);
    var options :- RequireStr(entry, "options", Findmnt);
    var children :- Children(entry, Findmnt);
    var below :- if children == [] then Success([])
                 else
                   assert entry.fields["children"] < entry;
                   DecodeAll(entry.fields["children"].items);
    Success(MountTree(source, target, fstype, options, below))
  }

  function DecodeAll(entries: seq<Json>): Result<seq<MountTree>, ParseError>
    decreases entries, 0
  {
    if entries == [] then Success([])
    else
      var first :- Decode(entries[0]);
      var rest :- DecodeAll(entries[1..]);
      Success([first] + rest)
  }

  function Own(t: MountTree, parent: Option<string>): MountEntry {
    MountEntry(t.source, t.target, t.fstype, t.options, parent)
  }

  function Preorder(t: MountTree, parent: Option<string>): seq<MountEntry>
    decreases t, 1
  {
    [Own(t, parent)] + PreorderAll(t.children, Some(t.target))
  }

  function PreorderAll(ts: seq<MountTree>, parent: Option<string>): seq<MountEntry>
    decreases ts, 0
  {
    if ts == [] then [] else Preorder(ts[0], parent) + PreorderAll(ts[1..], parent)
  }

  function NodeCount(ts: seq<MountTree>): nat
    decreases ts
  {
    if ts == [] then 0 else 1 + NodeCount(ts[0].children) + NodeCount(ts[1..])
  }

  lemma {:induction false} EntryFlattensToPreorder(entry: Json, parent: Option<string>)
    ensures ParseMountEntry(entry, parent) ==
            match Decode(entry) case Failure(e) => Failure(e) case Success(t) => Success(Preorder(t, parent))
    decreases entry, 1
  {
    hide RequireStr, Children;
    if entry.JObj? && "children" in entry.fields && entry.fields["children"].JArr?
        && RequireStr(entry, "target", Findmnt).Success?
    {
      var target := RequireStr(entry, "target", Findmnt).value;
      assert entry.fields["children"] < entry;
      EntriesFlattenToPreorder(entry.fields["children"].items, Some(target));
    }
  }

  /** For every report, accepted or rejected: the flat list is the preorder of the forest it describes, and a
      rejected report is rejected with the same error. */
  lemma {:induction false} EntriesFlattenToPreorder(entries: seq<Json>, parent: Option<string>)
    ensures ParseMountEntries(entries, parent) ==
            match DecodeAll(entries) case Failure(e) => Failure(e) case Success(ts) => Success(PreorderAll(ts, parent))
    decreases entries, 0
  {
    hide ParseMountEntry, Decode;
    if entries != [] {
      EntryFlattensToPreorder(entries[0], parent);
      EntriesFlattenToPreorder(entries[1..], parent);
      if Decode(entries[0]).Success? && DecodeAll(entries[1..]).Success? {
        var t, ts := Decode(entries[0]).value, DecodeAll(entries[1..]).value;
        assert ([t] + ts)[0] == t && ([t] + ts)[1..] == ts;
      }
    }
  }

  lemma {:induction false} OneEntryPerNode(ts: seq<MountTree>, parent: Option<string>)
    ensures |PreorderAll(ts, parent)| == NodeCount(ts)
    decreases ts
  {
    if ts != [] {
      OneEntryPerNode(ts[0].children, Some(ts[0].target));
      OneEntryPerNode(ts[1..], parent);
    }
  }

  // Each entry hangs off the given parent, or off an entry before it in the list.
  ghost predicate ParentsPrecede(list: seq<MountEntry>, parent: Option<string>) {
    forall i :: 0 <= i < |list| ==> list[i].parent == parent || Precedes(list, i)
  }

  ghost predicate Precedes(list: seq<MountEntry>, i: nat)
    requires i < |list|
  {
    list[i].parent.Some? && exists j :: 0 <= j < i && list[j].target == list[i].parent.value
  }

  lemma PrecedesAfter(prefix: seq<MountEntry>, list: seq<MountEntry>, i: nat)
    requires i < |list| && Precedes(list, i)
    ensures Precedes(prefix + list, |prefix| + i)
  {
    var j :| 0 <= j < i && list[j].target == list[i].parent.value;
    assert (prefix + list)[|prefix| + j] == list[j];
  }

  lemma {:induction false} ParentsComeFirst(ts: seq<MountTree>, parent: Option<string>)
    ensures ParentsPrecede(PreorderAll(ts, parent), parent)
    decreases ts
  {
    if ts != [] {
      var t := ts[0];
      var below, rest := PreorderAll(t.children, Some(t.target)), PreorderAll(ts[1..], parent);
      var list := PreorderAll(ts, parent);
      ParentsComeFirst(t.children, Some(t.target));
      ParentsComeFirst(ts[1..], parent);
      assert Preorder(t, parent) == [Own(t, parent)] + below;
      assert list == [Own(t, parent)] + below + rest;
      forall i | 0 <= i < |list|
        ensures list[i].parent == parent || Precedes(list, i)
      {
        if 1 <= i <= |below| {
          assert list[i] == below[i - 1];
          if below[i - 1].parent == Some(t.target) {
            assert list[0].target == t.target;
          } else {
            PrecedesAfter([Own(t, parent)], below, i - 1);
            var j :| 0 <= j < i && ([Own(t, parent)] + below)[j].target == below[i - 1].parent.value;
            assert list[j] == ([Own(t, parent)] + below)[j];
          }
        } else if i > |below| {
          assert list[i] == rest[i - 1 - |below|];
          if rest[i - 1 - |below|].parent != parent {
            PrecedesAfter([Own(t, parent)] + below, rest, i - 1 - |below|);
          }
        }
      }
    }
  }

  predicate DistinctTargets(list: seq<MountEntry>) {
    forall i, j :: 0 <= i < j < |list| ==> list[i].target != list[j].target
  }

  predicate Foreign(list: seq<MountEntry>, parent: Option<string>) {
    parent.Some? ==> forall i :: 0 <= i < |list| ==> list[i].target != parent.value
  }

  // Below a node nothing hangs off that node's own parent.
  lemma BelowIsElsewhere(t: MountTree, parent: Option<string>)
    requires Foreign(Preorder(t, parent), parent)
    ensures forall i :: 0 <= i < |PreorderAll(t.children, Some(t.target))| ==>
              PreorderAll(t.children, Some(t.target))[i].parent != parent
  {
    var below := PreorderAll(t.children, Some(t.target));
    ParentsComeFirst(t.children, Some(t.target));
    assert Preorder(t, parent)[0].target == t.target;
    assert forall i :: 0 <= i < |below| ==> Preorder(t, parent)[i + 1] == below[i];
  }

  lemma RestStartsAtParent(ts: seq<MountTree>, parent: Option<string>)
    requires ts != []
    ensures PreorderAll(ts, parent) != [] && PreorderAll(ts, parent)[0] == Own(ts[0], parent)
  {
  }

  // The first entry hanging off this parent, or the length when there is none.
  function FirstUnder(list: seq<MountEntry>, parent: Option<string>): nat {
    if list == [] || list[0].parent == parent then 0 else 1 + FirstUnder(list[1..], parent)
  }

  lemma {:induction false} SplitIsFirst(a: seq<MountEntry>, b: seq<MountEntry>, parent: Option<string>)
    requires forall i :: 0 <= i < |a| ==> a[i].parent != parent
    requires b != [] ==> b[0].parent == parent
    ensures FirstUnder(a + b, parent) == |a|
  {
    if a == [] {
      assert a + b == b;
    } else {
      assert (a + b)[1..] == a[1..] + b;
      SplitIsFirst(a[1..], b, parent);
    }
  }

  // The split between a node's descendants and its following siblings can be read off the flat list.
  lemma SameSplit(a1: seq<MountEntry>, b1: seq<MountEntry>, a2: seq<MountEntry>, b2: seq<MountEntry>,
      parent: Option<string>)
    requires a1 + b1 == a2 + b2
    requires forall i :: 0 <= i < |a1| ==> a1[i].parent != parent
    requires forall i :: 0 <= i < |a2| ==> a2[i].parent != parent
    requires b1 != [] ==> b1[0].parent == parent
    requires b2 != [] ==> b2[0].parent == parent
    ensures a1 == a2 && b1 == b2
  {
    var list := a1 + b1;
    SplitIsFirst(a1, b1, parent);
    SplitIsFirst(a2, b2, parent);
    assert a1 == list[..|a1|] && a2 == list[..|a2|];
    assert b1 == list[|a1|..] && b2 == list[|a2|..];
  }

  /** Flattening loses nothing: two forests with pairwise distinct targets that flatten to the same list are equal. */
  lemma {:induction false} FlatteningIsInjective(f1: seq<MountTree>, f2: seq<MountTree>, parent: Option<string>)
    requires PreorderAll(f1, parent) == PreorderAll(f2, parent)
    requires DistinctTargets(PreorderAll(f1, parent)) && Foreign(PreorderAll(f1, parent), parent)
    ensures f1 == f2
    decreases f1
  {
    if f1 == [] {
      if f2 != [] {
        RestStartsAtParent(f2, parent);
      }
    } else {
      RestStartsAtParent(f1, parent);
      assert f2 != [];
      RestStartsAtParent(f2, parent);
      var t1, t2 := f1[0], f2[0];
      var q := Some(t1.target);
      var list := PreorderAll(f1, parent);
      var a1, a2 := PreorderAll(t1.children, q), PreorderAll(t2.children, q);
      var b1, b2 := PreorderAll(f1[1..], parent), PreorderAll(f2[1..], parent);
      assert list == [Own(t1, parent)] + a1 + b1 && list == [Own(t2, parent)] + a2 + b2;
      assert a1 + b1 == list[1..] && a2 + b2 == list[1..];
      PartsForeign(list, Own(t1, parent), a1, b1, parent);
      PartsForeign(list, Own(t2, parent), a2, b2, parent);
      BelowIsElsewhere(t1, parent);
      BelowIsElsewhere(t2, parent);
      if f1[1..] != [] { RestStartsAtParent(f1[1..], parent); }
      if f2[1..] != [] { RestStartsAtParent(f2[1..], parent); }
      SameSplit(a1, b1, a2, b2, parent);
      FlatteningIsInjective(t1.children, t2.children, q);
      FlatteningIsInjective(f1[1..], f2[1..], parent);
      assert f1 == [t1] + f1[1..] && f2 == [t2] + f2[1..];
    }
  }

  lemma PartsForeign(list: seq<MountEntry>, own: MountEntry, a: seq<MountEntry>, b: seq<MountEntry>,
      parent: Option<string>)
    requires list == [own] + a + b && DistinctTargets(list) && Foreign(list, parent)
    ensures Foreign([own] + a, parent) && Foreign(b, parent) && Foreign(a, Some(own.target))
    ensures DistinctTargets(a) && DistinctTargets(b)
  {
    assert forall i :: 0 <= i < |a| ==> a[i] == list[i + 1];
    assert forall i :: 0 <= i < |b| ==> b[i] == list[i + 1 + |a|];
    assert list[0] == own;
    forall i | 0 <= i < |[own] + a|
      ensures ([own] + a)[i] == list[i]
    {
    }
  }

  // For whole reports: equal flat lists with distinct targets come from the same forest.
  lemma ReportsWithSameMountsAgree(r1: seq<Json>, r2: seq<Json>)
    requires ParseMountEntries(r1, None).Success? && ParseMountEntries(r1, None) == ParseMountEntries(r2, None)
    requires DistinctTargets(ParseMountEntries(r1, None).value)
    ensures DecodeAll(r1).Success? && DecodeAll(r1) == DecodeAll(r2)
  {
    EntriesFlattenToPreorder(r1, None);
    EntriesFlattenToPreorder(r2, None);
    FlatteningIsInjective(DecodeAll(r1).value, DecodeAll(r2).value, None);
  }
}
