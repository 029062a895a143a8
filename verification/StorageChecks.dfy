/** What each report must contain, as tables of checks in order: acceptance, and the error of the first that fails. */
module StorageChecks {
  import opened Wrappers
  import opened StorageModel

  datatype Check = Check(ok: bool, error: ParseError)

  // Success means that every check holds; failure names the first that does not.
  ghost predicate DecidedBy<T>(r: Result<T, ParseError>, checks: seq<Check>) {
    && (r.Success? <==> forall i :: 0 <= i < |checks| ==> checks[i].ok)
    && (r.Failure? ==> exists i :: FirstFailing(checks, i) && checks[i].error == r.error)
  }

  ghost predicate FirstFailing(checks: seq<Check>, i: int) {
    0 <= i < |checks| && !checks[i].ok && forall k :: 0 <= k < i ==> checks[k].ok
  }

  lemma {:induction false} FirstFailed(checks: seq<Check>) returns (i: nat)
    requires exists k :: 0 <= k < |checks| && !checks[k].ok
    ensures FirstFailing(checks, i)
  {
    i := 0;
    while checks[i].ok
      invariant 0 <= i < |checks| && forall k :: 0 <= k < i ==> checks[k].ok
      invariant exists k :: i <= k < |checks| && !checks[k].ok
      decreases |checks| - i
    {
      i := i + 1;
    }
  }

  // ----- fields -----

  function Read(entry: Json, key: string): Json {
    if entry.JObj? && key in entry.fields then entry.fields[key] else JNull
  }

  predicate HasText(entry: Json, key: string) {
    Read(entry, key).JStr? && Read(entry, key).s != ""
  }

  predicate TextOrNothing(entry: Json, key: string) {
    Read(entry, key).JNull? || Read(entry, key).JStr?
  }

  predicate SizeOrNothing(entry: Json, key: string, lib: Library) {
    match Read(entry, key)
    case JNull => true
    case JInt(i) => i >= 0
    case other => lib.laxInt(other).Some? && lib.laxInt(other).value >= 0
  }

  predicate NoChildrenOrList(entry: Json) {
    entry.JObj? && ("children" in entry.fields ==> entry.fields["children"].JArr?)
  }

  function ChildrenOf(entry: Json): seq<Json> {
    if Read(entry, "children").JArr? then Read(entry, "children").items else []
  }

  // What Python calls false: an entry with such a value counts as having none.
  lemma FalsyValues(j: Json)
    ensures !Truthy(j) <==> j in [JNull, JBool(false), JInt(0), JReal(0.0), JStr(""), JArr([]), JObj(map[])]
  {
  }

  // ----- lists in order -----

  // The partition at a position, numbered by it unless it says otherwise.
  function PartitionAt(children: seq<Json>, i: int, lib: Library): Result<Partition, ParseError>
    requires 0 <= i < |children|
  {
    ParsePartition(children[i], i + 1, lib)
  }

  lemma PartitionsStep(children: seq<Json>, from: nat, lib: Library)
    requires from < |children|
    ensures var (first, rest) := (PartitionAt(children, from, lib), ParsePartitions(children, from + 1, lib));
            ParsePartitions(children, from, lib) == if first.Failure? then Failure(first.error)
                                                    else if rest.Failure? then rest
                                                    else Success([first.value] + rest.value)
  {
    hide ParsePartition;
  }

  /** Each entry of a list is parsed as it stands, and the first that is refused decides the error; partitions are
      numbered from one by their position. */
  lemma {:induction false} PartitionsInOrder(children: seq<Json>, from: nat, lib: Library)
    requires from <= |children|
    ensures var r := ParsePartitions(children, from, lib);
            && (r.Success? <==> forall i :: from <= i < |children| ==> PartitionAt(children, i, lib).Success?)
            && (r.Success? ==>
                  && |r.value| == |children| - from
                  && forall i :: from <= i < |children| ==> PartitionAt(children, i, lib) == Success(r.value[i - from]))
            && (r.Failure? ==>
                  exists i :: from <= i < |children| && PartitionAt(children, i, lib) == Failure(r.error)
                              && forall k :: from <= k < i ==> PartitionAt(children, k, lib).Success?)
    decreases |children| - from
  {
    hide PartitionAt;
    if from < |children| {
      PartitionsInOrder(children, from + 1, lib);
      PartitionsStep(children, from, lib);
      hide ParsePartitions;
    }
  }

  lemma {:induction false} DevicesInOrder(entries: seq<Json>, lib: Library)
    ensures var r := ParseBlockDevices(entries, lib);
            && (r.Success? <==> forall i :: 0 <= i < |entries| ==> ParseBlockDevice(entries[i], lib).Success?)
            && (r.Success? ==>
                  && |r.value| == |entries|
                  && forall i :: 0 <= i < |entries| ==> ParseBlockDevice(entries[i], lib) == Success(r.value[i]))
            && (r.Failure? ==>
                  exists i :: 0 <= i < |entries| && ParseBlockDevice(entries[i], lib) == Failure(r.error)
                              && forall k :: 0 <= k < i ==> ParseBlockDevice(entries[k], lib).Success?)
  {
    hide ParseBlockDevice;
    if entries != [] {
      DevicesInOrder(entries[1..], lib);
      assert forall i :: 0 <= i < |entries| - 1 ==> entries[1..][i] == entries[i + 1];
      var r := ParseBlockDevices(entries, lib);
      if ParseBlockDevice(entries[0], lib).Success? && r.Failure? {
        var i :| 0 <= i < |entries| - 1 && ParseBlockDevice(entries[1..][i], lib) == Failure(r.error)
                 && forall k :: 0 <= k < i ==> ParseBlockDevice(entries[1..][k], lib).Success?;
        assert forall k :: 0 < k < i + 1 ==> entries[k] == entries[1..][k - 1];
        assert ParseBlockDevice(entries[i + 1], lib) == Failure(r.error);
      }
    }
  }

  // ----- one partition, one device -----

  function PartitionChecks(entry: Json, index: nat, lib: Library): seq<Check> {
    [Check(entry.JObj?, AttributeMissing),
     Check(HasText(entry, "name"), MissingString(Lsblk, "name")),
     Check(Read(entry, "partn").JInt? ==> Read(entry, "partn").i >= 1, InvalidField("number")),
     Check(SizeOrNothing(entry, "size", lib), InvalidField("size"))]
  }

  lemma PartitionChecked(entry: Json, index: nat, lib: Library)
    ensures DecidedBy(ParsePartition(entry, index + 1, lib), PartitionChecks(entry, index, lib))
  {
    var checks := PartitionChecks(entry, index, lib);
    var r := ParsePartition(entry, index + 1, lib);
    assert |checks| == 4;
    if !checks[0].ok {
      assert FirstFailing(checks, 0);
    } else if !checks[1].ok {
      assert FirstFailing(checks, 1);
    } else if !checks[2].ok {
      assert FirstFailing(checks, 2);
    } else if !checks[3].ok {
      assert FirstFailing(checks, 3);
    }
  }

  function DeviceChecks(entry: Json, lib: Library): seq<Check> {
    var partitions := ParsePartitions(ChildrenOf(entry), 0, lib);
    [Check(entry.JObj?, AttributeMissing),
     Check(HasText(entry, "name"), MissingString(Lsblk, "name")),
     Check(HasText(entry, "type"), MissingString(Lsblk, "type")),
     Check(Read(entry, "ro").JBool?, MissingBool(Lsblk, "ro")),
     Check(Read(entry, "rm").JBool?, MissingBool(Lsblk, "rm")),
     Check(NoChildrenOrList(entry), ChildrenNotList(Lsblk)),
     Check(partitions.Success?, if partitions.Failure? then partitions.error else AttributeMissing),
     Check(SizeOrNothing(entry, "size", lib), InvalidField("size")),
     Check(TextOrNothing(entry, "model"), InvalidField("model")),
     Check(TextOrNothing(entry, "vendor"), InvalidField("vendor")),
     Check(TextOrNothing(entry, "serial"), InvalidField("serial")),
     Check(partitions.Success? ==>
             forall i, j :: 0 <= i < j < |partitions.value| ==>
               partitions.value[i].number != partitions.value[j].number,
           DuplicateNumbers)]
  }

  lemma TextChecked(entry: Json, key: string, tool: Tool)
    ensures entry.JObj? ==>
              DecidedBy(RequireStr(entry, key, tool), [Check(HasText(entry, key), MissingString(tool, key))])
    ensures !entry.JObj? ==> RequireStr(entry, key, tool) == Failure(AttributeMissing)
  {
    var checks := [Check(HasText(entry, key), MissingString(tool, key))];
    assert !checks[0].ok ==> FirstFailing(checks, 0);
  }

  lemma FieldsChecked(entry: Json, key: string, lib: Library)
    requires entry.JObj?
    ensures RequireStr(entry, key, Lsblk).Success? <==> HasText(entry, key)
    ensures !HasText(entry, key) ==> RequireStr(entry, key, Lsblk).error == MissingString(Lsblk, key)
    ensures RequireBool(entry, key, Lsblk).Success? <==> Read(entry, key).JBool?
    ensures !Read(entry, key).JBool? ==> RequireBool(entry, key, Lsblk).error == MissingBool(Lsblk, key)
    ensures SizeField(Field(entry, key), lib).Success? <==> SizeOrNothing(entry, key, lib)
    ensures !SizeOrNothing(entry, key, lib) ==> SizeField(Field(entry, key), lib).error == InvalidField("size")
    ensures TextField(Field(entry, key), key).Success? <==> TextOrNothing(entry, key)
    ensures !TextOrNothing(entry, key) ==> TextField(Field(entry, key), key).error == InvalidField(key)
  {
  }

  lemma ChildrenChecked(entry: Json)
    requires entry.JObj?
    ensures Children(entry, Lsblk).Success? <==> NoChildrenOrList(entry)
    ensures Children(entry, Lsblk).Success? ==> Children(entry, Lsblk).value == ChildrenOf(entry)
    ensures !NoChildrenOrList(entry) ==> Children(entry, Lsblk).error == ChildrenNotList(Lsblk)
  {
  }

  /** A device entry is accepted exactly when every check holds, and otherwise refused for the first that does not. */
  lemma DeviceChecked(entry: Json, lib: Library)
    ensures DecidedBy(ParseBlockDevice(entry, lib), DeviceChecks(entry, lib))
  {
    hide ParsePartitions, ExtractMountPoint, RequireStr, RequireBool, SizeField, TextField, Children, Field;
    hide HasText, Read, SizeOrNothing, TextOrNothing, NoChildrenOrList, ChildrenOf;
    var checks := DeviceChecks(entry, lib);
    var r := ParseBlockDevice(entry, lib);
    TextChecked(entry, "name", Lsblk);
    if entry.JObj? {
      FieldsChecked(entry, "name", lib);
      FieldsChecked(entry, "type", lib);
      FieldsChecked(entry, "ro", lib);
      FieldsChecked(entry, "rm", lib);
      FieldsChecked(entry, "size", lib);
      FieldsChecked(entry, "model", lib);
      FieldsChecked(entry, "vendor", lib);
      FieldsChecked(entry, "serial", lib);
      ChildrenChecked(entry);
    }
    assert r.Success? <==>
             && checks[0].ok && checks[1].ok && checks[2].ok && checks[3].ok && checks[4].ok && checks[5].ok
             && checks[6].ok && checks[7].ok && checks[8].ok && checks[9].ok && checks[10].ok && checks[11].ok;
    if r.Failure? {
      var i := FirstFailed(checks);
      if i <= 5 {
        assert r.error == checks[i].error;
      } else {
        assert checks[0].ok && checks[1].ok && checks[2].ok && checks[3].ok && checks[4].ok && checks[5].ok;
        assert r.error == checks[i].error;
      }
    }
  }

  // ----- the other two reports -----

  function ReportChecks(root: Json, key: string, tool: Tool): seq<Check> {
    [Check(root.JObj?, NotAnObject(tool)), Check(Read(root, key).JArr?, MissingList(tool, key)),
     Check(AllObjects(Read(root, key)), NonObjectEntry(tool, key))]
  }

  /** Each tool's report is an object with a list of objects under the tool's key. */
  lemma ReportChecked(root: Json, key: string, tool: Tool)
    ensures DecidedBy(RequireList(root, key, tool), ReportChecks(root, key, tool))
    ensures RequireList(root, key, tool).Success? ==> RequireList(root, key, tool).value == Read(root, key).items
  {
    var checks := ReportChecks(root, key, tool);
    var r := RequireList(root, key, tool);
    assert r.Success? <==> checks[0].ok && checks[1].ok && checks[2].ok;
    if r.Failure? {
      var i := FirstFailed(checks);
      assert r.error == checks[i].error;
    }
  }

  predicate AllObjects(list: Json) {
    list.JArr? ==> forall i :: 0 <= i < |list.items| ==> list.items[i].JObj?
  }

  function NameError(entry: Json): ParseError {
    if entry.JObj? then MissingString(Blkid, "name") else AttributeMissing
  }

  lemma {:induction false} FactsInOrder(entries: seq<Json>, lib: Library)
    ensures var r := IndexFacts(entries, lib);
            && (r.Success? <==> forall i :: 0 <= i < |entries| ==> HasText(entries[i], "name"))
            && (r.Failure? ==>
                  exists i :: 0 <= i < |entries| && !HasText(entries[i], "name") && r.error == NameError(entries[i])
                              && forall k :: 0 <= k < i ==> HasText(entries[k], "name"))
  {
    hide HasText, RequireStr;
    if entries != [] {
      var n := |entries| - 1;
      FactsInOrder(entries[..n], lib);
      TextChecked(entries[n], "name", Blkid);
      NamedObject(entries[n]);
      if IndexFacts(entries[..n], lib).Failure? {
        var e := IndexFacts(entries[..n], lib).error;
        var i :| 0 <= i < n && !HasText(entries[..n][i], "name") && e == NameError(entries[..n][i])
                 && forall k :: 0 <= k < i ==> HasText(entries[..n][k], "name");
        assert !HasText(entries[i], "name") && forall k :: 0 <= k < i ==> entries[k] == entries[..n][k];
      } else {
        assert forall k :: 0 <= k < n ==> entries[k] == entries[..n][k];
      }
    }
  }

  lemma NamedObject(entry: Json)
    ensures HasText(entry, "name") ==> entry.JObj?
    ensures RequireStr(entry, "name", Blkid).Success? <==> HasText(entry, "name")
    ensures !HasText(entry, "name") ==> RequireStr(entry, "name", Blkid).error == NameError(entry)
  {
  }

  function MountChecks(entry: Json): seq<Check> {
    var target := if HasText(entry, "target") then Some(Read(entry, "target").s) else None;
    var below := ParseMountEntries(ChildrenOf(entry), target);
    [Check(entry.JObj?, AttributeMissing),
     Check(HasText(entry, "target"), MissingString(Findmnt, "target")),
     Check(HasText(entry, "source"), MissingString(Findmnt, "source")),
     Check(HasText(entry, "fstype"), MissingString(Findmnt, "fstype")),
     Check(HasText(entry, "options"), MissingString(Findmnt, "options")),
     Check(NoChildrenOrList(entry), ChildrenNotList(Findmnt)),
     Check(below.Success?, if below.Failure? then below.error else AttributeMissing)]
  }

  lemma MountFieldsChecked(entry: Json, key: string)
    requires entry.JObj?
    ensures RequireStr(entry, key, Findmnt)
         == if HasText(entry, key) then Success(Read(entry, key).s) else Failure(MissingString(Findmnt, key))
    ensures Children(entry, Findmnt)
         == if NoChildrenOrList(entry) then Success(ChildrenOf(entry)) else Failure(ChildrenNotList(Findmnt))
  {
  }

  lemma MountStep(entry: Json, parent: Option<string>)
    requires entry.JObj? && HasText(entry, "target") && HasText(entry, "source") && HasText(entry, "fstype")
    requires HasText(entry, "options") && NoChildrenOrList(entry)
    ensures var below := ParseMountEntries(ChildrenOf(entry), Some(Read(entry, "target").s));
            && ParseMountEntry(entry, parent).Success? == below.Success?
            && (below.Failure? ==> ParseMountEntry(entry, parent).error == below.error)
  {
  }

  /** A mount entry is accepted exactly when it has its four texts, its children, if any, are a list, and they are
      accepted too; otherwise it is refused for the first of these. */
  lemma MountChecked(entry: Json, parent: Option<string>)
    ensures DecidedBy(ParseMountEntry(entry, parent), MountChecks(entry))
  {
    hide ParseMountEntries, RequireStr, Children, HasText, Read, NoChildrenOrList, ChildrenOf;
    var checks := MountChecks(entry);
    var r := ParseMountEntry(entry, parent);
    TextChecked(entry, "target", Findmnt);
    if entry.JObj? {
      MountFieldsChecked(entry, "target");
      MountFieldsChecked(entry, "source");
      MountFieldsChecked(entry, "fstype");
      MountFieldsChecked(entry, "options");
      if HasText(entry, "target") && HasText(entry, "source") && HasText(entry, "fstype")
         && HasText(entry, "options") && NoChildrenOrList(entry) {
        MountStep(entry, parent);
      }
    }
    assert r.Success? <==> && checks[0].ok && checks[1].ok && checks[2].ok && checks[3].ok && checks[4].ok
                           && checks[5].ok && checks[6].ok;
    if r.Failure? {
      var i := FirstFailed(checks);
      assert r.error == checks[i].error;
    }
  }

  lemma {:induction false} MountsInOrder(entries: seq<Json>, parent: Option<string>)
    ensures var r := ParseMountEntries(entries, parent);
            && (r.Success? <==> forall i :: 0 <= i < |entries| ==> ParseMountEntry(entries[i], parent).Success?)
            && (r.Failure? ==>
                  exists i :: 0 <= i < |entries| && ParseMountEntry(entries[i], parent) == Failure(r.error)
                              && forall k :: 0 <= k < i ==> ParseMountEntry(entries[k], parent).Success?)
  {
    hide ParseMountEntry;
    if entries != [] {
      MountsInOrder(entries[1..], parent);
      assert forall i :: 0 <= i < |entries| - 1 ==> entries[1..][i] == entries[i + 1];
      var r := ParseMountEntries(entries, parent);
      if ParseMountEntry(entries[0], parent).Success? && r.Failure? {
        var i :| 0 <= i < |entries| - 1 && ParseMountEntry(entries[1..][i], parent) == Failure(r.error)
                 && forall k :: 0 <= k < i ==> ParseMountEntry(entries[1..][k], parent).Success?;
        assert forall k :: 0 < k < i + 1 ==> entries[k] == entries[1..][k - 1];
        assert ParseMountEntry(entries[i + 1], parent) == Failure(r.error);
      }
    }
  }

  // ----- the three together -----

  /** The topology is refused for lsblk's report first, then for blkid's, then for findmnt's, and only then for two
      devices with one path. */
  lemma TopologyChecked(lsblk: Json, blkid: Json, findmnt: Json, lib: Library)
    ensures var (devices, facts, mounts) := (ParseLsblk(lsblk, lib), ParseBlkid(blkid, lib), ParseFindmnt(findmnt));
            && (ParseStorageTopology(lsblk, blkid, findmnt, lib).Success? ==>
                  devices.Success? && facts.Success? && mounts.Success?)
            && (devices.Failure? ==> ParseStorageTopology(lsblk, blkid, findmnt, lib) == Failure(devices.error))
            && (devices.Success? && facts.Failure? ==>
                  ParseStorageTopology(lsblk, blkid, findmnt, lib) == Failure(facts.error))
            && (devices.Success? && facts.Success? && mounts.Failure? ==>
                  ParseStorageTopology(lsblk, blkid, findmnt, lib) == Failure(mounts.error))
    ensures var (d, b, f) := (RequireList(lsblk, "blockdevices", Lsblk), RequireList(blkid, "blockdevices", Blkid),
                              RequireList(findmnt, "filesystems", Findmnt));
            && ParseLsblk(lsblk, lib) == (if d.Failure? then Failure(d.error) else ParseBlockDevices(d.value, lib))
            && ParseBlkid(blkid, lib) == (if b.Failure? then Failure(b.error) else IndexFacts(b.value, lib))
            && ParseFindmnt(findmnt) == (if f.Failure? then Failure(f.error) else ParseMountEntries(f.value, None))
  {
    hide ParseBlockDevices, IndexFacts, ParseMountEntries, RequireList, Annotated;
  }
}
