/** The loops of the storage parser: the dictionary of blkid facts and the flattening of the mount forest. */
module StorageParser {
  import opened Wrappers
  import opened StorageModel

  lemma {:induction false} FactsFailureSpreads(entries: seq<Json>, lib: Library, k: nat)
    requires k <= |entries| && IndexFacts(entries[..k], lib).Failure?
    ensures IndexFacts(entries, lib) == IndexFacts(entries[..k], lib)
  {
    if k < |entries| {
      assert entries[..|entries| - 1][..k] == entries[..k];
      FactsFailureSpreads(entries[..|entries| - 1], lib, k);
    } else {
      assert entries[..k] == entries;
    }
  }

  method FillFacts(root: Json, lib: Library) returns (r: Result<map<string, BlkidFacts>, ParseError>)
    ensures r == ParseBlkid(root, lib)
  {
    var entries :- RequireList(root, "blockdevices", Blkid);
    var facts: map<string, BlkidFacts> := map[];
    for i := 0 to |entries|
      invariant IndexFacts(entries[..i], lib) == Success(facts)
    {
      assert entries[..i + 1][..i] == entries[..i];
      var name := RequireStr(entries[i], "name", Blkid);
      if name.Failure? {
        FactsFailureSpreads(entries, lib, i + 1);
        return Failure(name.error);
      }
      facts := facts[name.value := FactsOf(entries[i], lib)];
    }
    assert entries[..|entries|] == entries;
    r := Success(facts);
  }

  lemma {:induction false} MountsSplit(a: seq<Json>, b: seq<Json>, parent: Option<string>)
    ensures ParseMountEntries(a + b, parent) ==
            match ParseMountEntries(a, parent)
            case Failure(e) => Failure(e)
            case Success(xs) =>
              match ParseMountEntries(b, parent)
              case Failure(e) => Failure(e)
              case Success(ys) => Success(xs + ys)
  {
    if a == [] {
      assert a + b == b;
      assert forall ys: seq<MountEntry> :: [] + ys == ys;
    } else {
      assert (a + b)[1..] == a[1..] + b;
      MountsSplit(a[1..], b, parent);
      if ParseMountEntry(a[0], parent).Success? && ParseMountEntries(a[1..], parent).Success?
          && ParseMountEntries(b, parent).Success?
      {
        var x, xs := ParseMountEntry(a[0], parent).value, ParseMountEntries(a[1..], parent).value;
        var ys := ParseMountEntries(b, parent).value;
        assert x + (xs + ys) == x + xs + ys;
      }
    }
  }

  lemma MountsOne(entry: Json, parent: Option<string>)
    ensures ParseMountEntries([entry], parent) == ParseMountEntry(entry, parent)
  {
    assert [entry][1..] == [];
    if ParseMountEntry(entry, parent).Success? {
      assert ParseMountEntry(entry, parent).value + [] == ParseMountEntry(entry, parent).value;
    }
  }

  // One nested entry: its own record, then everything below it in order.
  method FlattenEntry(entry: Json, parent: Option<string>) returns (r: Result<seq<MountEntry>, ParseError>)
    ensures r == ParseMountEntry(entry, parent)
    decreases entry
  {
    hide RequireStr, Children;
    var target :- RequireStr(entry, "target", Findmnt);
    var source :- RequireStr(entry, "source", Findmnt);
    var fstype :- RequireStr(entry, "fstype", Findmnt);
    var options :- RequireStr(entry, "options", Findmnt);
    var own := [MountEntry(source, target, fstype, options, parent)];
    var children :- Children(entry, Findmnt);
    var below: seq<MountEntry> := [];
    for i := 0 to |children|
      invariant ParseMountEntries(children[..i], Some(target)) == Success(below)
    {
      hide ParseMountEntry, ParseMountEntries;
      assert children[..i + 1] == children[..i] + [children[i]];
      assert children == children[..i + 1] + children[i + 1..];
      assert children[i] < entry by {
        assert entry.fields["children"] < entry && entry.fields["children"] == JArr(children);
      }
      MountsSplit(children[..i], [children[i]], Some(target));
      MountsOne(children[i], Some(target));
      var more := FlattenEntry(children[i], Some(target));
      if more.Failure? {
        MountsSplit(children[..i + 1], children[i + 1..], Some(target));
        EntryFailsBelow(entry, parent, target, children, more.error);
        return Failure(more.error);
      }
      below := below + more.value;
    }
    assert children[..|children|] == children;
    r := Success(own + below);
  }

  lemma EntryFailsBelow(entry: Json, parent: Option<string>, target: string, children: seq<Json>, error: ParseError)
    requires RequireStr(entry, "target", Findmnt) == Success(target)
    requires RequireStr(entry, "source", Findmnt).Success? && RequireStr(entry, "fstype", Findmnt).Success?
    requires RequireStr(entry, "options", Findmnt).Success? && Children(entry, Findmnt) == Success(children)
    requires children != [] && ParseMountEntries(children, Some(target)) == Failure(error)
    ensures ParseMountEntry(entry, parent) == Failure(error)
  {
  }

  method FlattenMounts(root: Json) returns (r: Result<seq<MountEntry>, ParseError>)
    ensures r == ParseFindmnt(root)
  {
    var raw :- RequireList(root, "filesystems", Findmnt);
    var entries: seq<MountEntry> := [];
    for i := 0 to |raw|
      invariant ParseMountEntries(raw[..i], None) == Success(entries)
    {
      hide ParseMountEntry, ParseMountEntries;
      assert raw[..i + 1] == raw[..i] + [raw[i]];
      assert raw == raw[..i + 1] + raw[i + 1..];
      MountsSplit(raw[..i], [raw[i]], None);
      MountsOne(raw[i], None);
      var more := FlattenEntry(raw[i], None);
      if more.Failure? {
        MountsSplit(raw[..i + 1], raw[i + 1..], None);
        return Failure(more.error);
      }
      entries := entries + more.value;
    }
    assert raw[..|raw|] == raw;
    r := Success(entries);
  }

  // The whole merge, in the source's order: the device tree, blkid's facts, then the mounts.
  method Merge(lsblk: Json, blkid: Json, findmnt: Json, lib: Library)
      returns (r: Result<StorageConfiguration, ParseError>)
    ensures r == ParseStorageTopology(lsblk, blkid, findmnt, lib)
  {
    hide ParseLsblk, ParseBlkid, ParseFindmnt, Annotated, DistinctPaths, DistinctNumbers;
    ghost var whole := ParseStorageTopology(lsblk, blkid, findmnt, lib);
    var devices :- ParseLsblk(lsblk, lib);
    var facts := FillFacts(blkid, lib);
    if facts.Failure? {
      assert whole == Failure(facts.error);
      return Failure(facts.error);
    }
    var mounts := FlattenMounts(findmnt);
    if mounts.Failure? {
      assert whole == Failure(mounts.error);
      return Failure(mounts.error);
    }
    var annotated := Annotated(devices, facts.value, mounts.value);
    r := if DistinctPaths(annotated) then Success(StorageConfiguration(annotated, mounts.value))
        else Failure(DuplicatePaths);
    assert whole == r;
  }
}
