/** What the merged topology keeps of each tool's report. */
module StorageLaws {
  import opened Wrappers
  import opened StorageModel

  // ----- the lsblk skeleton -----

  datatype PartitionSkeleton = PartitionSkeleton(name: string, path: string, number: int, size: Option<int>)

  datatype DeviceSkeleton = DeviceSkeleton(
    name: string, path: string, deviceType: string, size: Option<int>,
    isRemovable: bool, isReadOnly: bool, isNvme: bool,
    model: Option<string>, vendor: Option<string>, serial: Option<string>,
    partitions: seq<PartitionSkeleton>)

  function PartitionFrame(p: Partition): PartitionSkeleton {
    PartitionSkeleton(p.name, p.path, p.number, p.size)
  }

  function DeviceFrame(d: BlockDevice): DeviceSkeleton {
    DeviceSkeleton(d.name, d.path, d.deviceType, d.size, d.isRemovable, d.isReadOnly, d.isNvme,
                   d.model, d.vendor, d.serial,
                   seq(|d.partitions|, i requires 0 <= i < |d.partitions| => PartitionFrame(d.partitions[i])))
  }

  function Frames(devices: seq<BlockDevice>): seq<DeviceSkeleton> {
    seq(|devices|, i requires 0 <= i < |devices| => DeviceFrame(devices[i]))
  }

  // The two annotation passes without their skip-if-unchanged shortcuts.
  function FullyAnnotated(d: BlockDevice, facts: map<string, BlkidFacts>, mounts: seq<MountEntry>): BlockDevice {
    var index := IndexMounts(mounts);
    d.(partitions := seq(|d.partitions|, i requires 0 <= i < |d.partitions| =>
         AnnotatePartitionWithMount(
           AnnotatePartitionWithBlkid(d.partitions[i], Lookup(facts, d.partitions[i].path)),
           Lookup(index, d.partitions[i].path))),
       mountPoint := if d.path in index then Some(index[d.path].target) else d.mountPoint)
  }

  lemma BlkidKeepsPath(d: BlockDevice, facts: map<string, BlkidFacts>)
    ensures var first := AnnotateDeviceWithBlkid(d, facts);
            && |first.partitions| == |d.partitions| && first == d.(partitions := first.partitions)
            && forall i :: 0 <= i < |d.partitions| ==>
                 && first.partitions[i] == AnnotatePartitionWithBlkid(d.partitions[i],
                     Lookup(facts, d.partitions[i].path))
                 && first.partitions[i].path == d.partitions[i].path
  {
  }

  lemma ShortcutsChangeNothing(d: BlockDevice, facts: map<string, BlkidFacts>, mounts: seq<MountEntry>)
    ensures AnnotateDeviceWithMounts(AnnotateDeviceWithBlkid(d, facts), mounts) == FullyAnnotated(d, facts, mounts)
  {
    hide IndexMounts, AnnotatePartitionWithMount, AnnotatePartitionWithBlkid, AnnotateDeviceWithBlkid;
    BlkidKeepsPath(d, facts);
    var first := AnnotateDeviceWithBlkid(d, facts);
    assert AnnotateDeviceWithMounts(first, mounts).partitions == FullyAnnotated(d, facts, mounts).partitions;
  }

  lemma AnnotatingKeepsFrame(d: BlockDevice, facts: map<string, BlkidFacts>, mounts: seq<MountEntry>)
    ensures DeviceFrame(AnnotateDeviceWithMounts(AnnotateDeviceWithBlkid(d, facts), mounts)) == DeviceFrame(d)
  {
    hide IndexMounts;
    ShortcutsChangeNothing(d, facts, mounts);
  }

  /** The result has exactly lsblk's devices and partitions, in order, and so its partition numbers and device
      paths are still distinct although copying a model re-runs no validator; it is refused only for duplicate paths. */
  lemma MergeKeepsSkeleton(lsblk: Json, blkid: Json, findmnt: Json, lib: Library)
    requires ParseStorageTopology(lsblk, blkid, findmnt, lib).Success?
    ensures ParseLsblk(lsblk, lib).Success? && ParseFindmnt(findmnt).Success?
    ensures var config := ParseStorageTopology(lsblk, blkid, findmnt, lib).value;
            && Frames(config.devices) == Frames(ParseLsblk(lsblk, lib).value)
            && DistinctPaths(config.devices)
            && (forall i :: 0 <= i < |config.devices| ==> DistinctNumbers(config.devices[i].partitions))
            && config.mounts == ParseFindmnt(findmnt).value
  {
    hide ParseLsblk, ParseBlkid, ParseFindmnt, AnnotateDeviceWithBlkid, AnnotateDeviceWithMounts, DeviceFrame;
    var devices := ParseLsblk(lsblk, lib).value;
    var facts := ParseBlkid(blkid, lib).value;
    var mounts := ParseFindmnt(findmnt).value;
    var config := ParseStorageTopology(lsblk, blkid, findmnt, lib).value;
    forall i | 0 <= i < |devices|
      ensures DeviceFrame(config.devices[i]) == DeviceFrame(devices[i]) && DistinctNumbers(config.devices[i].partitions)
    {
      AnnotatingKeepsFrame(devices[i], facts, mounts);
      SameFrameDistinct(config.devices[i], devices[i]);
    }
  }

  lemma SameFrameDistinct(d: BlockDevice, e: BlockDevice)
    requires DeviceFrame(d) == DeviceFrame(e)
    ensures DistinctNumbers(d.partitions) <==> DistinctNumbers(e.partitions)
    ensures d.path == e.path
  {
    assert |DeviceFrame(d).partitions| == |d.partitions| && |DeviceFrame(e).partitions| == |e.partitions|;
    assert forall i :: 0 <= i < |d.partitions| ==> DeviceFrame(d).partitions[i].number == d.partitions[i].number;
    assert forall i :: 0 <= i < |e.partitions| ==> DeviceFrame(e).partitions[i].number == e.partitions[i].number;
  }

  // When each tool's report parses on its own, the merge is refused exactly when two lsblk devices share a path.
  lemma MergeRefusesExactlyDuplicatePaths(lsblk: Json, blkid: Json, findmnt: Json, lib: Library)
    requires ParseLsblk(lsblk, lib).Success? && ParseBlkid(blkid, lib).Success? && ParseFindmnt(findmnt).Success?
    ensures ParseStorageTopology(lsblk, blkid, findmnt, lib).Success? <==> DistinctPaths(ParseLsblk(lsblk, lib).value)
  {
    hide ParseLsblk, ParseBlkid, ParseFindmnt, AnnotateDeviceWithBlkid, AnnotateDeviceWithMounts, DeviceFrame;
    var devices := ParseLsblk(lsblk, lib).value;
    var facts := ParseBlkid(blkid, lib).value;
    var mounts := ParseFindmnt(findmnt).value;
    var annotated := Annotated(devices, facts, mounts);
    forall i | 0 <= i < |devices|
      ensures annotated[i].path == devices[i].path
    {
      AnnotatingKeepsFrame(devices[i], facts, mounts);
      SameFrameDistinct(annotated[i], devices[i]);
    }
  }

  // ----- indexes against plain scans -----

  // The i-th entry has this name and no later one does.
  ghost predicate LastNamed(entries: seq<Json>, name: string, i: nat)
    requires forall k :: 0 <= k < |entries| ==> entries[k].JObj?
  {
    && i < |entries| && Field(entries[i], "name") == JStr(name)
    && forall k :: i < k < |entries| ==> Field(entries[k], "name") != JStr(name)
  }

  // The facts of the last entry with this name, scanning from the end.
  function LastFacts(entries: seq<Json>, name: string, lib: Library): (r: Option<BlkidFacts>)
    requires forall k :: 0 <= k < |entries| ==> entries[k].JObj?
    ensures r.Some? ==> exists i: nat :: LastNamed(entries, name, i) && r.value == FactsOf(entries[i], lib)
    ensures r.None? ==> forall k :: 0 <= k < |entries| ==> Field(entries[k], "name") != JStr(name)
  {
    if entries == [] then None
    else
      var n := |entries| - 1;
      if Field(entries[n], "name") == JStr(name) then
        assert LastNamed(entries, name, n);
        Some(FactsOf(entries[n], lib))
      else
        var r := LastFacts(entries[..n], name, lib);
        LastNamedLonger(entries, name);
        r
  }

  lemma LastNamedLonger(entries: seq<Json>, name: string)
    requires forall k :: 0 <= k < |entries| ==> entries[k].JObj?
    requires entries != [] && Field(entries[|entries| - 1], "name") != JStr(name)
    ensures forall i: nat :: LastNamed(entries[..|entries| - 1], name, i) ==> LastNamed(entries, name, i)
    ensures forall k :: 0 <= k < |entries| - 1 ==> entries[..|entries| - 1][k] == entries[k]
  {
    hide Field;
  }

  lemma {:induction false} IndexIsLastFacts(entries: seq<Json>, lib: Library, path: string)
    requires (forall k :: 0 <= k < |entries| ==> entries[k].JObj?) && IndexFacts(entries, lib).Success?
    ensures Lookup(IndexFacts(entries, lib).value, path) == LastFacts(entries, path, lib)
  {
    hide FactsOf, Field;
    if entries != [] {
      var n := |entries| - 1;
      IndexIsLastFacts(entries[..n], lib, path);
      NamedBy(entries[n]);
    }
  }

  lemma NamedBy(entry: Json)
    requires RequireStr(entry, "name", Blkid).Success?
    ensures entry.JObj? && Field(entry, "name") == JStr(RequireStr(entry, "name", Blkid).value)
  {
  }

  /** A path is indexed exactly when some entry names it, with the facts of the last such entry. */
  lemma FactsComeFromLastEntry(entries: seq<Json>, lib: Library, path: string)
    requires (forall k :: 0 <= k < |entries| ==> entries[k].JObj?) && IndexFacts(entries, lib).Success?
    ensures path in IndexFacts(entries, lib).value
       <==> exists k :: 0 <= k < |entries| && Field(entries[k], "name") == JStr(path)
    ensures forall i: nat :: LastNamed(entries, path, i) ==>
              && path in IndexFacts(entries, lib).value
              && IndexFacts(entries, lib).value[path] == FactsOf(entries[i], lib)
  {
    hide FactsOf, Field, IndexFacts;
    IndexIsLastFacts(entries, lib, path);
    var last := LastFacts(entries, path, lib);
    if last.Some? {
      var j: nat :| LastNamed(entries, path, j) && last.value == FactsOf(entries[j], lib);
      forall i: nat | LastNamed(entries, path, i)
        ensures i == j
      {
        assert Field(entries[i], "name") == JStr(path) && Field(entries[j], "name") == JStr(path);
      }
    }
  }

  // The i-th mount has this source and no later one does.
  ghost predicate LastFrom(mounts: seq<MountEntry>, source: string, i: nat) {
    i < |mounts| && mounts[i].source == source && forall k :: i < k < |mounts| ==> mounts[k].source != source
  }

  // The last mount with this source, scanning from the end.
  function LastMount(mounts: seq<MountEntry>, source: string): (r: Option<MountEntry>)
    ensures r.Some? ==> exists i: nat :: LastFrom(mounts, source, i) && r.value == mounts[i]
    ensures r.None? ==> forall m :: m in mounts ==> m.source != source
  {
    if mounts == [] then None
    else
      var n := |mounts| - 1;
      if mounts[n].source == source then
        assert LastFrom(mounts, source, n);
        Some(mounts[n])
      else
        var r := LastMount(mounts[..n], source);
        LastFromLonger(mounts, source);
        r
  }

  lemma LastFromLonger(mounts: seq<MountEntry>, source: string)
    requires mounts != [] && mounts[|mounts| - 1].source != source
    ensures forall i: nat :: LastFrom(mounts[..|mounts| - 1], source, i) ==> LastFrom(mounts, source, i)
    ensures forall k :: 0 <= k < |mounts| - 1 ==> mounts[..|mounts| - 1][k] == mounts[k]
  {
  }

  lemma {:induction false} IndexIsLastMount(mounts: seq<MountEntry>, source: string)
    ensures Lookup(IndexMounts(mounts), source) == LastMount(mounts, source)
  {
    if mounts != [] {
      IndexIsLastMount(mounts[..|mounts| - 1], source);
    }
  }

  // How one merged partition relates to lsblk's partition, its blkid facts and the flat mount list.
  ghost predicate PartitionMerged(own: Partition, facts: Option<BlkidFacts>, mounts: seq<MountEntry>, p: Partition) {
    var mount := LastMount(mounts, own.path);
    && p.mountPoint == (if mount.Some? then Some(mount.value.target) else own.mountPoint)
    && p.partuuid == (if facts.Some? then facts.value.partuuid else None)
    && p.parttype == (if facts.Some? then facts.value.parttype else None)
    && (p.filesystem.Some?
        <==> facts.Some? && (facts.value.fsType.Some? || facts.value.uuid.Some? || facts.value.fsLabel.Some?))
    && (p.filesystem.Some? ==>
          && p.filesystem.value.fsType == facts.value.fsType
          && p.filesystem.value.uuid == facts.value.uuid && p.filesystem.value.fsLabel == facts.value.fsLabel
          && p.filesystem.value.mountPoint == (if mount.Some? then Some(mount.value.target) else None)
          && p.filesystem.value.mountOptions == (if mount.Some? then Some(mount.value.options) else None)
          && (p.filesystem.value.mountPoint.Some? ==> p.filesystem.value.mountPoint == p.mountPoint))
  }

  lemma OnePartitionMerged(own: Partition, facts: Option<BlkidFacts>, mounts: seq<MountEntry>)
    requires own.partuuid.None? && own.parttype.None? && own.filesystem.None?
    ensures PartitionMerged(own, facts, mounts,
              AnnotatePartitionWithMount(AnnotatePartitionWithBlkid(own, facts), LastMount(mounts, own.path)))
  {
  }

  lemma {:induction false} ParsedPartitionsAreBare(children: seq<Json>, from: nat, lib: Library)
    requires from <= |children| && ParsePartitions(children, from, lib).Success?
    ensures forall p :: p in ParsePartitions(children, from, lib).value ==>
              p.partuuid.None? && p.parttype.None? && p.filesystem.None?
    decreases |children| - from
  {
    if from < |children| {
      ParsedPartitionsAreBare(children, from + 1, lib);
    }
  }

  lemma {:induction false} ParsedDevicesAreBare(entries: seq<Json>, lib: Library)
    requires ParseBlockDevices(entries, lib).Success?
    ensures forall d, p :: d in ParseBlockDevices(entries, lib).value && p in d.partitions ==>
              p.partuuid.None? && p.parttype.None? && p.filesystem.None?
  {
    hide DistinctNumbers, TextField, SizeField, ExtractMountPoint, RequireStr, RequireBool, Children, ParsePartitions;
    if entries != [] {
      var children := Children(entries[0], Lsblk).value;
      ParsedPartitionsAreBare(children, 0, lib);
      ParsedDevicesAreBare(entries[1..], lib);
    }
  }

  /** Every merged device and partition takes each fact from where a plain scan of the reports finds it. */
  lemma MergeAgreesWithScans(lsblk: Json, blkid: Json, findmnt: Json, lib: Library)
    requires ParseStorageTopology(lsblk, blkid, findmnt, lib).Success?
    ensures ParseLsblk(lsblk, lib).Success? && RequireList(blkid, "blockdevices", Blkid).Success?
    ensures var config := ParseStorageTopology(lsblk, blkid, findmnt, lib).value;
            var (own, entries) := (ParseLsblk(lsblk, lib).value, RequireList(blkid, "blockdevices", Blkid).value);
            && |config.devices| == |own|
            && forall i :: 0 <= i < |own| ==>
                 && config.devices[i].mountPoint == (var m := LastMount(config.mounts, own[i].path);
                                                     if m.Some? then Some(m.value.target) else own[i].mountPoint)
                 && |config.devices[i].partitions| == |own[i].partitions|
                 && forall k :: 0 <= k < |own[i].partitions| ==>
                      PartitionMerged(own[i].partitions[k], LastFacts(entries, own[i].partitions[k].path, lib),
                                      config.mounts, config.devices[i].partitions[k])
  {
    hide IndexFacts, LastFacts, ParseFindmnt, AnnotateDeviceWithBlkid, AnnotateDeviceWithMounts;
    hide PartitionMerged, IndexMounts;
    hide ParseBlockDevices, AnnotatePartitionWithBlkid, AnnotatePartitionWithMount, LastMount;
    var config := ParseStorageTopology(lsblk, blkid, findmnt, lib).value;
    var own, facts, mounts := ParseLsblk(lsblk, lib).value, ParseBlkid(blkid, lib).value, ParseFindmnt(findmnt).value;
    var entries := RequireList(blkid, "blockdevices", Blkid).value;
    assert IndexFacts(entries, lib) == Success(facts);
    ParsedDevicesAreBare(RequireList(lsblk, "blockdevices", Lsblk).value, lib);
    forall i | 0 <= i < |own|
      ensures config.devices[i] == FullyAnnotated(own[i], facts, mounts)
    {
      ShortcutsChangeNothing(own[i], facts, mounts);
    }
    forall i | 0 <= i < |own|
      ensures config.devices[i].mountPoint == (var m := LastMount(mounts, own[i].path);
                                               if m.Some? then Some(m.value.target) else own[i].mountPoint)
    {
      IndexIsLastMount(mounts, own[i].path);
    }
    forall i, k | 0 <= i < |own| && 0 <= k < |own[i].partitions|
      ensures PartitionMerged(own[i].partitions[k], LastFacts(entries, own[i].partitions[k].path, lib), mounts,
                              config.devices[i].partitions[k])
    {
      var p := own[i].partitions[k];
      assert own[i] in own && p in own[i].partitions;
      IndexIsLastMount(mounts, p.path);
      IndexIsLastFacts(entries, lib, p.path);
      OnePartitionMerged(p, Lookup(facts, p.path), mounts);
    }
  }
}
