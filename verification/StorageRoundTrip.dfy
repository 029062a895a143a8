/** Writing the three tools' reports as JSON and reading them back. */
module StorageRoundTrip {
  import opened Wrappers
  import opened StorageModel
  import opened StorageMounts

  function TextJson(t: Option<string>): Json {
    if t.Some? then JStr(t.value) else JNull
  }

  function SizeJson(n: Option<int>): Json {
    if n.Some? then JInt(n.value) else JNull
  }

  predicate NonEmpty(t: Option<string>) {
    t.Some? ==> t.value != ""
  }

  // ----- lsblk -----

  // A partition as lsblk alone can describe it.
  predicate Reportable(p: Partition) {
    && p.name != "" && p.path == "/dev/" + p.name && p.number >= 1 && (p.size.Some? ==> p.size.value >= 0)
    && NonEmpty(p.mountPoint) && p.partuuid.None? && p.parttype.None? && p.filesystem.None?
  }

  predicate ReportableDevice(d: BlockDevice) {
    && d.name != "" && d.path == "/dev/" + d.name && d.deviceType != "" && (d.size.Some? ==> d.size.value >= 0)
    && (d.isNvme <==> "nvme" <= d.name) && NonEmpty(d.mountPoint)
    && DistinctNumbers(d.partitions) && forall i :: 0 <= i < |d.partitions| ==> Reportable(d.partitions[i])
  }

  // How a partition's number is printed: as it is, not at all, or as something that is no integer.
  datatype NumberStyle = Shown | LeftOut | Unread(other: Json)

  // Where the mount point is printed: in the old single field, or in the list behind any empty entries, where whatever
  // follows the first mount point, and the single field, go unread.
  datatype MountStyle = Single(list: Option<Json>) | Listed(before: seq<Json>, after: seq<Json>, single: Json)

  // Fields without a value may be printed as null or, in a sparse report, not at all.
  datatype PartitionStyle = PartitionStyle(number: NumberStyle, mounts: MountStyle, sparse: bool)

  datatype DeviceStyle = DeviceStyle(partitions: seq<PartitionStyle>, mounts: MountStyle, sparse: bool)

  // The partition at position `index` can be printed that way: an unprinted number must be its position plus one.
  predicate FitsNumber(p: Partition, y: NumberStyle, index: nat) {
    match y
    case Shown => true
    case LeftOut => p.number == index + 1
    case Unread(other) => !other.JInt? && p.number == index + 1
  }

  predicate FitsMount(mountPoint: Option<string>, y: MountStyle) {
    match y
    case Single(list) => list.Some? ==> !list.value.JArr?
    case Listed(before, after, _) =>
      (forall i :: 0 <= i < |before| ==> !Truthy(before[i])) && (mountPoint.None? ==> after == [])
  }

  predicate FitsPartitions(ps: seq<Partition>, ys: seq<PartitionStyle>) {
    |ps| == |ys| &&
    forall i :: 0 <= i < |ps| ==> FitsNumber(ps[i], ys[i].number, i) && FitsMount(ps[i].mountPoint, ys[i].mounts)
  }

  predicate Fits(d: BlockDevice, y: DeviceStyle) {
    FitsPartitions(d.partitions, y.partitions) && FitsMount(d.mountPoint, y.mounts)
  }

  function NumberFields(n: int, y: NumberStyle): map<string, Json> {
    match y
    case Shown => map["partn" := JInt(n)]
    case LeftOut => map[]
    case Unread(other) => map["partn" := other]
  }

  function MountFields(mountPoint: Option<string>, y: MountStyle): map<string, Json> {
    match y
    case Single(None) => map["mountpoint" := TextJson(mountPoint)]
    case Single(Some(list)) => map["mountpoint" := TextJson(mountPoint), "mountpoints" := list]
    case Listed(before, after, single) =>
      map["mountpoints" := JArr(before + (if mountPoint.Some? then [JStr(mountPoint.value)] else []) + after),
          "mountpoint" := single]
  }

  function Optionally(key: string, value: Json, sparse: bool): map<string, Json> {
    if sparse && value.JNull? then map[] else map[key := value]
  }

  function PartitionJson(p: Partition, y: PartitionStyle): Json {
    JObj(map["name" := JStr(p.name)] + NumberFields(p.number, y.number) + Optionally("size", SizeJson(p.size), y.sparse)
         + MountFields(p.mountPoint, y.mounts))
  }

  function PartitionsJson(ps: seq<Partition>, ys: seq<PartitionStyle>): seq<Json>
    requires |ps| == |ys|
  {
    seq(|ps|, i requires 0 <= i < |ps| => PartitionJson(ps[i], ys[i]))
  }

  function ChildrenFields(d: BlockDevice, y: DeviceStyle): map<string, Json>
    requires |d.partitions| == |y.partitions|
  {
    if y.sparse && d.partitions == [] then map[]
    else map["children" := JArr(PartitionsJson(d.partitions, y.partitions))]
  }

  function IdentityFields(d: BlockDevice): map<string, Json> {
    map["name" := JStr(d.name), "type" := JStr(d.deviceType), "ro" := JBool(d.isReadOnly),
        "rm" := JBool(d.isRemovable)]
  }

  function DetailFields(d: BlockDevice, sparse: bool): map<string, Json> {
    Optionally("size", SizeJson(d.size), sparse) + Optionally("model", TextJson(d.model), sparse)
    + Optionally("vendor", TextJson(d.vendor), sparse) + Optionally("serial", TextJson(d.serial), sparse)
  }

  function DeviceJson(d: BlockDevice, y: DeviceStyle): Json
    requires |d.partitions| == |y.partitions|
  {
    JObj(IdentityFields(d) + DetailFields(d, y.sparse) + ChildrenFields(d, y) + MountFields(d.mountPoint, y.mounts))
  }

  ghost predicate AllFit(ds: seq<BlockDevice>, ys: seq<DeviceStyle>) {
    |ds| == |ys| && forall i :: 0 <= i < |ds| ==> Fits(ds[i], ys[i])
  }

  function DevicesJson(ds: seq<BlockDevice>, ys: seq<DeviceStyle>): seq<Json>
    requires |ds| == |ys| && forall i :: 0 <= i < |ds| ==> |ds[i].partitions| == |ys[i].partitions|
  {
    seq(|ds|, i requires 0 <= i < |ds| => DeviceJson(ds[i], ys[i]))
  }

  // ----- mount points -----

  lemma {:induction false} FirstTruthy(before: seq<Json>, m: string, after: seq<Json>, lib: Library)
    requires m != "" && forall i :: 0 <= i < |before| ==> !Truthy(before[i])
    ensures FirstMountPoint(before + [JStr(m)] + after, lib) == Some(m)
  {
    if before == [] {
      assert [] + [JStr(m)] + after == [JStr(m)] + after;
    } else {
      assert (before + [JStr(m)] + after)[1..] == before[1..] + [JStr(m)] + after;
      FirstTruthy(before[1..], m, after, lib);
    }
  }

  lemma {:induction false} NoneTruthy(points: seq<Json>, lib: Library)
    requires forall i :: 0 <= i < |points| ==> !Truthy(points[i])
    ensures FirstMountPoint(points, lib) == None
  {
    if points != [] {
      NoneTruthy(points[1..], lib);
    }
  }

  // A mount point is read back from any report that prints it so, whatever else the report says.
  lemma MountRead(others: map<string, Json>, mountPoint: Option<string>, y: MountStyle, lib: Library)
    requires NonEmpty(mountPoint) && FitsMount(mountPoint, y) && "mountpoints" !in others
    ensures ExtractMountPoint(JObj(others + MountFields(mountPoint, y)), lib) == mountPoint
  {
    hide FirstMountPoint;
    match y
    case Single(_) =>
    case Listed(before, after, _) =>
      if mountPoint.Some? {
        FirstTruthy(before, mountPoint.value, after, lib);
      } else {
        assert before + [] + after == before;
        NoneTruthy(before, lib);
      }
  }

  // ----- partitions -----

  lemma OptionalFields(text: Option<string>, name: string, size: Option<int>, lib: Library)
    ensures TextField(TextJson(text), name) == Success(text)
    ensures (size.Some? ==> size.value >= 0) ==> SizeField(SizeJson(size), lib) == Success(size)
  {
  }

  lemma PartitionRoundTrip(p: Partition, y: PartitionStyle, index: nat, lib: Library)
    requires Reportable(p) && FitsNumber(p, y.number, index) && FitsMount(p.mountPoint, y.mounts)
    ensures ParsePartition(PartitionJson(p, y), index + 1, lib) == Success(p)
  {
    hide FirstMountPoint, ExtractMountPoint, SizeJson, SizeField, FitsMount;
    OptionalFields(None, "", p.size, lib);
    var others := map["name" := JStr(p.name)] + NumberFields(p.number, y.number)
                  + Optionally("size", SizeJson(p.size), y.sparse);
    MountRead(others, p.mountPoint, y.mounts, lib);
  }

  lemma {:induction false} PartitionsRoundTrip(ps: seq<Partition>, ys: seq<PartitionStyle>, from: nat, lib: Library)
    requires FitsPartitions(ps, ys) && from <= |ps| && forall i :: 0 <= i < |ps| ==> Reportable(ps[i])
    ensures ParsePartitions(PartitionsJson(ps, ys), from, lib) == Success(ps[from..])
    decreases |ps| - from
  {
    hide PartitionJson, ParsePartition, Reportable, FitsNumber, FitsMount;
    if from < |ps| {
      PartitionRoundTrip(ps[from], ys[from], from, lib);
      PartitionsRoundTrip(ps, ys, from + 1, lib);
      assert [ps[from]] + ps[from + 1..] == ps[from..];
    }
  }

  // ----- devices -----

  lemma DetailsRead(d: BlockDevice, sparse: bool)
    ensures var j := JObj(DetailFields(d, sparse));
            && Field(j, "size") == SizeJson(d.size) && Field(j, "model") == TextJson(d.model)
            && Field(j, "vendor") == TextJson(d.vendor) && Field(j, "serial") == TextJson(d.serial)
    ensures DetailFields(d, sparse).Keys <= {"size", "model", "vendor", "serial"}
  {
    hide SizeJson, TextJson;
  }

  // Which keys the last two parts of a device use.
  lemma LastKeys(d: BlockDevice, y: DeviceStyle)
    requires |d.partitions| == |y.partitions|
    ensures ChildrenFields(d, y).Keys <= {"children"}
    ensures MountFields(d.mountPoint, y.mounts).Keys <= {"mountpoint", "mountpoints"}
  {
    hide PartitionsJson, TextJson;
  }

  lemma FieldOfUnion(a: map<string, Json>, b: map<string, Json>, key: string)
    ensures Field(JObj(a + b), key) == if key in b then b[key] else Field(JObj(a), key)
  {
  }

  lemma IdentityRead(d: BlockDevice, y: DeviceStyle)
    requires |d.partitions| == |y.partitions|
    ensures var j := DeviceJson(d, y);
            && j.JObj? && Field(j, "name") == JStr(d.name) && Field(j, "type") == JStr(d.deviceType)
            && Field(j, "ro") == JBool(d.isReadOnly) && Field(j, "rm") == JBool(d.isRemovable)
  {
    hide DetailFields, ChildrenFields, MountFields, IdentityFields, Field;
    DetailsRead(d, y.sparse);
    LastKeys(d, y);
    var (a, b, c) := (IdentityFields(d), DetailFields(d, y.sparse), ChildrenFields(d, y));
    forall key | key in {"name", "type", "ro", "rm"}
      ensures Field(DeviceJson(d, y), key) == Field(JObj(a), key)
    {
      IdentityKey(key);
      FieldOfUnion(a + b + c, MountFields(d.mountPoint, y.mounts), key);
      FieldOfUnion(a + b, c, key);
      FieldOfUnion(a, b, key);
    }
    IdentityOwn(d);
  }

  lemma IdentityKey(key: string)
    requires key in {"name", "type", "ro", "rm"}
    ensures key !in {"size", "model", "vendor", "serial"} && key !in {"children"}
    ensures key !in {"mountpoint", "mountpoints"}
  {
  }

  lemma IdentityOwn(d: BlockDevice)
    ensures var j := JObj(IdentityFields(d));
            && Field(j, "name") == JStr(d.name) && Field(j, "type") == JStr(d.deviceType)
            && Field(j, "ro") == JBool(d.isReadOnly) && Field(j, "rm") == JBool(d.isRemovable)
  {
  }

  lemma DeviceFields(d: BlockDevice, y: DeviceStyle)
    requires |d.partitions| == |y.partitions|
    ensures var j := DeviceJson(d, y);
            && j.JObj? && Field(j, "size") == SizeJson(d.size) && Field(j, "model") == TextJson(d.model)
            && Field(j, "vendor") == TextJson(d.vendor) && Field(j, "serial") == TextJson(d.serial)
  {
    hide DetailFields, ChildrenFields, MountFields, SizeJson, TextJson, IdentityFields, Field;
    DetailsRead(d, y.sparse);
    LastKeys(d, y);
    var (a, b, c) := (IdentityFields(d), DetailFields(d, y.sparse), ChildrenFields(d, y));
    forall key | key in {"size", "model", "vendor", "serial"}
      ensures Field(DeviceJson(d, y), key) == Field(JObj(b), key)
    {
      FieldOfUnion(a + b + c, MountFields(d.mountPoint, y.mounts), key);
      FieldOfUnion(a + b, c, key);
      DetailsBehindIdentity(d, y.sparse, key);
    }
  }

  lemma DetailsBehindIdentity(d: BlockDevice, sparse: bool, key: string)
    requires key in {"size", "model", "vendor", "serial"}
    ensures Field(JObj(IdentityFields(d) + DetailFields(d, sparse)), key) == Field(JObj(DetailFields(d, sparse)), key)
  {
    hide DetailFields;
  }

  lemma ChildrenRead(d: BlockDevice, y: DeviceStyle)
    requires |d.partitions| == |y.partitions|
    ensures Children(DeviceJson(d, y), Lsblk) == Success(PartitionsJson(d.partitions, y.partitions))
  {
    hide DetailFields, MountFields, PartitionsJson;
    DetailsRead(d, y.sparse);
    LastKeys(d, y);
    NoPartitions(d, y);
  }

  lemma NoPartitions(d: BlockDevice, y: DeviceStyle)
    requires |d.partitions| == |y.partitions|
    ensures d.partitions == [] ==> PartitionsJson(d.partitions, y.partitions) == []
  {
  }

  lemma DeviceMount(d: BlockDevice, y: DeviceStyle, lib: Library)
    requires Fits(d, y) && NonEmpty(d.mountPoint)
    ensures ExtractMountPoint(DeviceJson(d, y), lib) == d.mountPoint
  {
    hide ExtractMountPoint, FitsMount, MountFields, IdentityFields, DetailFields, ChildrenFields;
    LastKeys(d, y);
    NoMountKeys(d, y);
    MountRead(IdentityFields(d) + DetailFields(d, y.sparse) + ChildrenFields(d, y), d.mountPoint, y.mounts, lib);
  }

  lemma NoMountKeys(d: BlockDevice, y: DeviceStyle)
    requires |d.partitions| == |y.partitions|
    ensures "mountpoints" !in IdentityFields(d) + DetailFields(d, y.sparse) + ChildrenFields(d, y)
  {
    hide DetailFields, ChildrenFields;
    DetailsRead(d, y.sparse);
    LastKeys(d, y);
  }

  /** A device lsblk can report is read back unchanged from any way of printing it. A partition whose number is left
      out, or is no integer, is numbered by its position. */
  lemma DeviceRoundTrip(d: BlockDevice, y: DeviceStyle, lib: Library)
    requires ReportableDevice(d) && Fits(d, y)
    ensures ParseBlockDevice(DeviceJson(d, y), lib) == Success(d)
  {
    hide PartitionsJson, ParsePartitions, DistinctNumbers, Reportable, ExtractMountPoint, FitsMount, FitsNumber;
    hide DeviceJson, Field, TextField, TextJson, SizeField, SizeJson, Children;
    IdentityRead(d, y);
    DeviceFields(d, y);
    ChildrenRead(d, y);
    OptionalFields(d.model, "model", d.size, lib);
    OptionalFields(d.vendor, "vendor", d.size, lib);
    OptionalFields(d.serial, "serial", d.size, lib);
    PartitionsRoundTrip(d.partitions, y.partitions, 0, lib);
    assert d.partitions[0..] == d.partitions;
    DeviceMount(d, y, lib);
  }

  lemma {:induction false} DevicesRoundTrip(ds: seq<BlockDevice>, ys: seq<DeviceStyle>, lib: Library)
    requires AllFit(ds, ys) && forall i :: 0 <= i < |ds| ==> ReportableDevice(ds[i])
    ensures ParseBlockDevices(DevicesJson(ds, ys), lib) == Success(ds)
  {
    hide DeviceJson, ParseBlockDevice, ReportableDevice, FitsNumber, FitsMount;
    if ds != [] {
      DeviceRoundTrip(ds[0], ys[0], lib);
      DevicesRoundTrip(ds[1..], ys[1..], lib);
      assert DevicesJson(ds, ys)[1..] == DevicesJson(ds[1..], ys[1..]);
      assert ds == [ds[0]] + ds[1..];
    }
  }

  /** Any devices lsblk can report, printed in any of those ways, are read back unchanged and in order. */
  lemma LsblkRoundTrip(ds: seq<BlockDevice>, ys: seq<DeviceStyle>, others: map<string, Json>, lib: Library)
    requires AllFit(ds, ys) && forall i :: 0 <= i < |ds| ==> ReportableDevice(ds[i])
    ensures ParseLsblk(JObj(others["blockdevices" := JArr(DevicesJson(ds, ys))]), lib) == Success(ds)
  {
    hide DeviceJson, ParseBlockDevices, ReportableDevice, Fits;
    DevicesRoundTrip(ds, ys, lib);
    assert forall i :: 0 <= i < |ds| ==> Fits(ds[i], ys[i]);
    DevicesAreObjects(ds, ys);
  }

  lemma DevicesAreObjects(ds: seq<BlockDevice>, ys: seq<DeviceStyle>)
    requires AllFit(ds, ys)
    ensures forall j :: j in DevicesJson(ds, ys) ==> j.JObj?
  {
  }

  // ----- blkid -----

  function FactsJson(path: string, f: BlkidFacts): Json {
    JObj(map["name" := JStr(path), "type" := TextJson(f.fsType), "uuid" := TextJson(f.uuid),
             "label" := TextJson(f.fsLabel), "partuuid" := TextJson(f.partuuid), "parttype" := TextJson(f.parttype)])
  }

  predicate ReportableFacts(f: BlkidFacts) {
    NonEmpty(f.fsType) && NonEmpty(f.uuid) && NonEmpty(f.fsLabel) && NonEmpty(f.partuuid) && NonEmpty(f.parttype)
  }

  function FactsReport(paths: seq<string>, facts: map<string, BlkidFacts>): (r: seq<Json>)
    requires forall path :: path in paths ==> path in facts
    ensures |r| == |paths|
  {
    seq(|paths|, i requires 0 <= i < |paths| => assert paths[i] in paths; FactsJson(paths[i], facts[paths[i]]))
  }

  // Facts are read from their own keys; absent ones stay absent.
  lemma FactsRoundTrip(path: string, f: BlkidFacts, lib: Library)
    requires path != "" && ReportableFacts(f)
    ensures var entry := FactsJson(path, f);
            FactsOf(entry, lib) == f && RequireStr(entry, "name", Blkid) == Success(path)
  {
  }

  /** Any facts blkid can report, written as its JSON in any order and even repeatedly, give the same index. */
  lemma {:induction false} BlkidRoundTrip(paths: seq<string>, facts: map<string, BlkidFacts>, lib: Library)
    requires forall path :: path in paths ==> path in facts && path != "" && ReportableFacts(facts[path])
    ensures IndexFacts(FactsReport(paths, facts), lib) == Success(map path | path in paths :: facts[path])
  {
    hide FactsOf, FactsJson, ReportableFacts, RequireStr;
    if paths != [] {
      var front, last := paths[..|paths| - 1], paths[|paths| - 1];
      assert last in paths && paths == front + [last];
      forall path | path in front ensures path in paths {
        var i :| 0 <= i < |front| && front[i] == path;
        assert paths[i] == path;
      }
      BlkidRoundTrip(front, facts, lib);
      FactsRoundTrip(last, facts[last], lib);
      assert FactsReport(paths, facts)[..|paths| - 1] == FactsReport(front, facts);
      assert (map path | path in paths :: facts[path])
          == (map path | path in front :: facts[path])[last := facts[last]];
    }
  }

  // ----- findmnt -----

  predicate ReportableMount(t: MountTree)
    decreases t
  {
    && t.target != "" && t.source != "" && t.fstype != "" && t.options != ""
    && forall i :: 0 <= i < |t.children| ==> ReportableMount(t.children[i])
  }

  function MountJson(t: MountTree): Json
    decreases t, 1
  {
    JObj(map["target" := JStr(t.target), "source" := JStr(t.source), "fstype" := JStr(t.fstype),
             "options" := JStr(t.options), "children" := JArr(MountsJson(t.children))])
  }

  function MountsJson(ts: seq<MountTree>): seq<Json>
    decreases ts, 0
  {
    if ts == [] then [] else [MountJson(ts[0])] + MountsJson(ts[1..])
  }

  lemma {:induction false} MountRoundTrip(t: MountTree)
    requires ReportableMount(t)
    ensures Decode(MountJson(t)) == Success(t)
    decreases t, 1
  {
    hide MountsJson, DecodeAll;
    MountsRoundTrip(t.children);
    MountsEmpty(t.children);
  }

  lemma MountsEmpty(ts: seq<MountTree>)
    ensures MountsJson(ts) == [] <==> ts == []
  {
  }

  /** Any mount forest, written as findmnt's nested JSON and flattened, is the forest's preorder. */
  lemma {:induction false} MountsRoundTrip(ts: seq<MountTree>)
    requires forall i :: 0 <= i < |ts| ==> ReportableMount(ts[i])
    ensures DecodeAll(MountsJson(ts)) == Success(ts)
    ensures ParseMountEntries(MountsJson(ts), None) == Success(PreorderAll(ts, None))
    decreases ts, 0
  {
    hide MountJson, Decode, ReportableMount, ParseMountEntries, PreorderAll;
    if ts != [] {
      MountRoundTrip(ts[0]);
      MountsRoundTrip(ts[1..]);
      assert MountsJson(ts)[1..] == MountsJson(ts[1..]);
      assert ts == [ts[0]] + ts[1..];
    }
    EntriesFlattenToPreorder(MountsJson(ts), None);
  }
}
