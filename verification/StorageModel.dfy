/**
 Three tools' JSON merged into one storage topology. JSON text has already been decoded; what Python's
 `str` makes of a non-string value, and which non-integers Pydantic accepts as a size, are parameters.
 */
module StorageModel {
  import opened Wrappers

  datatype Json =
    | JNull
    | JBool(b: bool)
    | JInt(i: int)
    | JReal(r: real)
    | JStr(s: string)
    | JArr(items: seq<Json>)
    | JObj(fields: map<string, Json>)

  datatype Library = Library(render: Json -> string, laxInt: Json -> Option<int>)

  datatype Tool = Lsblk | Blkid | Findmnt

  datatype ParseError =
    | NotAnObject(tool: Tool)
    | MissingList(tool: Tool, key: string)
    | NonObjectEntry(tool: Tool, key: string)
    | MissingString(tool: Tool, key: string)
    | MissingBool(tool: Tool, key: string)
    | ChildrenNotList(tool: Tool)
    | AttributeMissing
    | InvalidField(field: string)
    | DuplicateNumbers
    | DuplicatePaths

  datatype FilesystemInfo = FilesystemInfo(
    fsType: Option<string>, uuid: Option<string>, fsLabel: Option<string>,
    mountOptions: Option<string>, mountPoint: Option<string>)

  datatype Partition = Partition(
    name: string, path: string, number: int, size: Option<int>,
    partuuid: Option<string>, parttype: Option<string>,
    filesystem: Option<FilesystemInfo>, mountPoint: Option<string>)

  datatype BlockDevice = BlockDevice(
    name: string, path: string, deviceType: string, size: Option<int>,
    isRemovable: bool, isReadOnly: bool, isNvme: bool,
    model: Option<string>, vendor: Option<string>, serial: Option<string>,
    partitions: seq<Partition>, mountPoint: Option<string>)

  datatype MountEntry = MountEntry(
    source: string, target: string, fstype: string, options: string, parent: Option<string>)

  datatype StorageConfiguration = StorageConfiguration(devices: seq<BlockDevice>, mounts: seq<MountEntry>)

  datatype BlkidFacts = BlkidFacts(
    fsType: Option<string>, uuid: Option<string>, fsLabel: Option<string>,
    partuuid: Option<string>, parttype: Option<string>)
  {
    predicate HasFilesystemData() {
      fsType.Some? || uuid.Some? || fsLabel.Some?
    }
  }

  // ----- JSON access -----

  function Field(entry: Json, key: string): Json
    requires entry.JObj?
  {
    if key in entry.fields then entry.fields[key] else JNull
  }

  predicate Truthy(j: Json) {
    match j
    case JNull => false
    case JBool(b) => b
    case JInt(i) => i != 0
    case JReal(r) => r != 0.0
    case JStr(s) => s != ""
    case JArr(items) => items != []
    case JObj(fields) => fields != map[]
  }

  function Rendered(j: Json, lib: Library): string {
    if j.JStr? then j.s else lib.render(j)
  }

  function RequireList(root: Json, key: string, tool: Tool): (r: Result<seq<Json>, ParseError>)
    ensures r.Success? ==> forall i :: 0 <= i < |r.value| ==> r.value[i].JObj?
  {
    if !root.JObj? then Failure(NotAnObject(tool))
    else if !Field(root, key).JArr? then Failure(MissingList(tool, key))
    else
      var items := Field(root, key).items;
      if forall i :: 0 <= i < |items| ==> items[i].JObj? then Success(items) else Failure(NonObjectEntry(tool, key))
  }

  function RequireStr(entry: Json, key: string, tool: Tool): (r: Result<string, ParseError>)
    ensures r.Success? ==> entry.JObj? && r.value != ""
  {
    if !entry.JObj? then Failure(AttributeMissing)
    else if Field(entry, key).JStr? && Field(entry, key).s != "" then Success(Field(entry, key).s)
    else Failure(MissingString(tool, key))
  }

  function RequireBool(entry: Json, key: string, tool: Tool): Result<bool, ParseError>
    requires entry.JObj?
  {
    if Field(entry, key).JBool? then Success(Field(entry, key).b) else Failure(MissingBool(tool, key))
  }

  function OptionalStr(entry: Json, key: string, lib: Library): Option<string>
    requires entry.JObj?
  {
    if Truthy(Field(entry, key)) then Some(Rendered(Field(entry, key), lib)) else None
  }

  function Children(entry: Json, tool: Tool): (r: Result<seq<Json>, ParseError>)
    requires entry.JObj?
    ensures r.Success? && r.value != [] ==> "children" in entry.fields && entry.fields["children"] == JArr(r.value)
  {
    if "children" !in entry.fields then Success([])
    else if entry.fields["children"].JArr? then Success(entry.fields["children"].items)
    else Failure(ChildrenNotList(tool))
  }

  // ----- field validation -----

  function SizeField(j: Json, lib: Library): Result<Option<int>, ParseError> {
    if j.JNull? then Success(None)
    else
      var n := if j.JInt? then Some(j.i) else lib.laxInt(j);
      if n.Some? && n.value >= 0 then Success(n) else Failure(InvalidField("size"))
  }

  function TextField(j: Json, name: string): Result<Option<string>, ParseError> {
    if j.JNull? then Success(None)
    else if j.JStr? then Success(Some(j.s))
    else Failure(InvalidField(name))
  }

  predicate DistinctNumbers(partitions: seq<Partition>) {
    forall i, j :: 0 <= i < j < |partitions| ==> partitions[i].number != partitions[j].number
  }

  predicate DistinctPaths(devices: seq<BlockDevice>) {
    forall i, j :: 0 <= i < j < |devices| ==> devices[i].path != devices[j].path
  }

  // ----- lsblk -----

  function FirstMountPoint(points: seq<Json>, lib: Library): Option<string> {
    if points == [] then None
    else if Truthy(points[0]) then Some(Rendered(points[0], lib))
    else FirstMountPoint(points[1..], lib)
  }

  function ExtractMountPoint(entry: Json, lib: Library): Option<string>
    requires entry.JObj?
  {
    if Field(entry, "mountpoints").JArr? then FirstMountPoint(Field(entry, "mountpoints").items, lib)
    else OptionalStr(entry, "mountpoint", lib)
  }

  function ParsePartition(entry: Json, fallback: int, lib: Library): Result<Partition, ParseError> {
    var name :- RequireStr(entry, "name", Lsblk);
    var partn := Field(entry, "partn");
    var number := if partn.JInt? then partn.i else fallback;
    if number < 1 then Failure(InvalidField("number"))
    else
      var size :- SizeField(Field(entry, "size"), lib);
      Success(Partition(name, "/dev/" + name, number, size, None, None, None, ExtractMountPoint(entry, lib)))
  }

  // Children from position `from` on, numbered from one by default.
  function ParsePartitions(children: seq<Json>, from: nat, lib: Library): Result<seq<Partition>, ParseError>
    requires from <= |children|
    decreases |children| - from
  {
    if from == |children| then Success([])
    else
      var first :- ParsePartition(children[from], from + 1, lib);
      var rest :- ParsePartitions(children, from + 1, lib);
      Success([first] + rest)
  }

  function ParseBlockDevice(entry: Json, lib: Library): (r: Result<BlockDevice, ParseError>)
    ensures r.Success? ==> DistinctNumbers(r.value.partitions)
  {
    var name :- RequireStr(entry, "name", Lsblk);
    var deviceType :- RequireStr(entry, "type", Lsblk);
    var readOnly :- RequireBool(entry, "ro", Lsblk);
    var removable :- RequireBool(entry, "rm", Lsblk);
    var children :- Children(entry, Lsblk);
    var partitions :- ParsePartitions(children, 0, lib);
    var size :- SizeField(Field(entry, "size"), lib);
    var model :- TextField(Field(entry, "model"), "model");
    var vendor :- TextField(Field(entry, "vendor"), "vendor");
    var serial :- TextField(Field(entry, "serial"), "serial");
    if !DistinctNumbers(partitions) then Failure(DuplicateNumbers)
    else Success(BlockDevice(name, "/dev/" + name, deviceType, size, removable, readOnly, "nvme" <= name,
                             model, vendor, serial, partitions, ExtractMountPoint(entry, lib)))
  }

  function ParseBlockDevices(entries: seq<Json>, lib: Library): (r: Result<seq<BlockDevice>, ParseError>)
    ensures r.Success? ==> forall i :: 0 <= i < |r.value| ==> DistinctNumbers(r.value[i].partitions)
  {
    if entries == [] then Success([])
    else
      var first :- ParseBlockDevice(entries[0], lib);
      var rest :- ParseBlockDevices(entries[1..], lib);
      Success([first] + rest)
  }

  function ParseLsblk(root: Json, lib: Library): (r: Result<seq<BlockDevice>, ParseError>)
    ensures r.Success? ==> forall i :: 0 <= i < |r.value| ==> DistinctNumbers(r.value[i].partitions)
  {
    var entries :- RequireList(root, "blockdevices", Lsblk);
    ParseBlockDevices(entries, lib)
  }

  // ----- blkid -----

  function FactsOf(entry: Json, lib: Library): BlkidFacts
    requires entry.JObj?
  {
    BlkidFacts(OptionalStr(entry, "type", lib), OptionalStr(entry, "uuid", lib), OptionalStr(entry, "label", lib),
               OptionalStr(entry, "partuuid", lib), OptionalStr(entry, "parttype", lib))
  }

  // The dictionary filled entry by entry: a later entry for the same device overwrites an earlier one.
  function IndexFacts(entries: seq<Json>, lib: Library): Result<map<string, BlkidFacts>, ParseError> {
    if entries == [] then Success(map[])
    else
      var before :- IndexFacts(entries[..|entries| - 1], lib);
      var entry := entries[|entries| - 1];
      var name :- RequireStr(entry, "name", Blkid);
      Success(before[name := FactsOf(entry, lib)])
  }

  function ParseBlkid(root: Json, lib: Library): Result<map<string, BlkidFacts>, ParseError> {
    var entries :- RequireList(root, "blockdevices", Blkid);
    IndexFacts(entries, lib)
  }

  function AnnotatePartitionWithBlkid(p: Partition, facts: Option<BlkidFacts>): Partition {
    match facts
    case None => p
    case Some(f) =>
      p.(partuuid := f.partuuid, parttype := f.parttype,
         filesystem := if f.HasFilesystemData() then Some(FilesystemInfo(f.fsType, f.uuid, f.fsLabel, None, None))
             else None)
  }

  function Lookup<V>(index: map<string, V>, key: string): Option<V> {
    if key in index then Some(index[key]) else None
  }

  function AnnotateDeviceWithBlkid(device: BlockDevice, facts: map<string, BlkidFacts>): BlockDevice {
    var updated := seq(|device.partitions|, i requires 0 <= i < |device.partitions| =>
      AnnotatePartitionWithBlkid(device.partitions[i], Lookup(facts, device.partitions[i].path)));
    if updated == device.partitions then device else device.(partitions := updated)
  }

  // ----- findmnt -----

  function ParseMountEntry(entry: Json, parent: Option<string>): Result<seq<MountEntry>, ParseError>
    decreases entry, 1
  {
    var target :- RequireStr(entry, "target", Findmnt);
    var source :- RequireStr(entry, "source", Findmnt);
    var fstype :- RequireStr(entry, "fstype", Findmnt);
    var options :- RequireStr(entry, "options", Findmnt);
    var children :- Children(entry, Findmnt);
    var below :- if children == [] then Success([])
                 else
                   assert entry.fields["children"] < entry;
                   ParseMountEntries(entry.fields["children"].items, Some(target));
    Success([MountEntry(source, target, fstype, options, parent)] + below)
  }

  function ParseMountEntries(entries: seq<Json>, parent: Option<string>): Result<seq<MountEntry>, ParseError>
    decreases entries, 0
  {
    if entries == [] then Success([])
    else
      var first :- ParseMountEntry(entries[0], parent);
      var rest :- ParseMountEntries(entries[1..], parent);
      Success(first + rest)
  }

  function ParseFindmnt(root: Json): Result<seq<MountEntry>, ParseError> {
    var entries :- RequireList(root, "filesystems", Findmnt);
    ParseMountEntries(entries, None)
  }

  function IndexMounts(mounts: seq<MountEntry>): map<string, MountEntry> {
    if mounts == [] then map[]
    else IndexMounts(mounts[..|mounts| - 1])[mounts[|mounts| - 1].source := mounts[|mounts| - 1]]
  }

  function AnnotatePartitionWithMount(p: Partition, mount: Option<MountEntry>): Partition {
    match mount
    case None => p
    case Some(m) =>
      var filesystem := match p.filesystem
                        case None => None
                        case Some(f) => Some(f.(mountPoint := Some(m.target), mountOptions := Some(m.options)));
      p.(mountPoint := Some(m.target), filesystem := filesystem)
  }

  function AnnotateDeviceWithMounts(device: BlockDevice, mounts: seq<MountEntry>): BlockDevice {
    var index := IndexMounts(mounts);
    var updated := seq(|device.partitions|, i requires 0 <= i < |device.partitions| =>
      AnnotatePartitionWithMount(device.partitions[i], Lookup(index, device.partitions[i].path)));
    var annotated := if updated != device.partitions then device.(partitions := updated) else device;
    match Lookup(index, device.path)
    case Some(m) => annotated.(mountPoint := Some(m.target))
    case None => annotated
  }

  // ----- the merge -----

  function Annotated(devices: seq<BlockDevice>, facts: map<string, BlkidFacts>,
      mounts: seq<MountEntry>): seq<BlockDevice>
  {
    seq(|devices|, i requires 0 <= i < |devices| =>
      AnnotateDeviceWithMounts(AnnotateDeviceWithBlkid(devices[i], facts), mounts))
  }

  function ParseStorageTopology(lsblk: Json, blkid: Json, findmnt: Json,
      lib: Library): Result<StorageConfiguration, ParseError>
  {
    var devices :- ParseLsblk(lsblk, lib);
    var facts :- ParseBlkid(blkid, lib);
    var mounts :- ParseFindmnt(findmnt);
    var annotated := Annotated(devices, facts, mounts);
    if DistinctPaths(annotated) then Success(StorageConfiguration(annotated, mounts)) else Failure(DuplicatePaths)
  }
}
