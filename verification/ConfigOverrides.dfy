/**
 The two override layers as functions on documents: `--set path=value` items and `BCS_CFG_*`
 environment variables. Scalar coercion is a parameter: any total function from text to scalars.
 */
module ConfigOverrides {
  import opened Wrappers
  import opened Text
  import opened ConfigDocument

  const ENV_PREFIX := "BCS_CFG_"

  type Coercion = string -> Scalar
  type EnvItem = (string, string)

  function PutPath(d: Doc, path: string, v: Doc): (r: Result<Doc, UsageError>)
    requires d.Mapping?
    ensures r.Success? ==> r.value.Mapping?
  {
    if path == "" then Failure(EmptyPath) else Put(d, Split(path, '.'), v)
  }

  function GetPath(d: Doc, path: string): Result<Doc, UsageError> {
    if path == "" then Failure(EmptyPath) else Get(d, Split(path, '.'))
  }

  // ----- `--set` -----

  function ParseSetOption(item: string, coerce: Coercion): Result<(string, Scalar), UsageError> {
    if '=' !in item then Failure(NoEquals(item))
    else
      var (left, raw) := Partition(item, '=');
      if Strip(left) == "" then Failure(EmptySetPath(item)) else Success((Strip(left), coerce(raw)))
  }

  function SetStep(d: Doc, item: string, coerce: Coercion): (r: Result<Doc, UsageError>)
    requires d.Mapping?
    ensures r.Success? ==> r.value.Mapping?
  {
    var (path, value) :- ParseSetOption(item, coerce);
    PutPath(d, path, Leaf(value))
  }

  // The document after every item in order, or the error of the first item that fails.
  function ApplySets(d: Doc, items: seq<string>, coerce: Coercion): (r: Result<Doc, UsageError>)
    requires d.Mapping?
    ensures r.Success? ==> r.value.Mapping?
  {
    if items == [] then Success(d)
    else
      var before :- ApplySets(d, items[..|items| - 1], coerce);
      SetStep(before, items[|items| - 1], coerce)
  }

  // ----- environment -----

  function AllUpper(parts: seq<string>): seq<string> {
    seq(|parts|, i requires 0 <= i < |parts| => Upper(parts[i]))
  }

  function AllLower(parts: seq<string>): seq<string> {
    seq(|parts|, i requires 0 <= i < |parts| => Lower(parts[i]))
  }

  // Among keys that upper-case alike, this one comes first.
  predicate FirstOf(keys: seq<string>, key: string) {
    exists i :: 0 <= i < |keys| && keys[i] == key && forall j :: 0 <= j < i ==> Upper(keys[j]) != Upper(key)
  }

  function FindActualKey(keys: seq<string>, upper: string): (r: Option<string>)
    ensures r.Some? ==> r.value in keys && Upper(r.value) == upper && FirstOf(keys, r.value)
    ensures r.None? ==> forall k :: k in keys ==> Upper(k) != upper
  {
    if keys == [] then None
    else if Upper(keys[0]) == upper then
      assert FirstOf(keys, keys[0]);
      Some(keys[0])
    else
      var r := FindActualKey(keys[1..], upper);
      if r.Some? then
        FirstOfLonger(keys, r.value);
        r
      else r
  }

  lemma FirstOfLonger(keys: seq<string>, key: string)
    requires keys != [] && FirstOf(keys[1..], key) && Upper(keys[0]) != Upper(key)
    ensures FirstOf(keys, key)
  {
    hide Upper;
    var i :| 0 <= i < |keys[1..]| && keys[1..][i] == key
             && forall j :: 0 <= j < i ==> Upper(keys[1..][j]) != Upper(key);
    assert keys[i + 1] == key;
    assert forall j :: 0 < j < i + 1 ==> keys[j] == keys[1..][j - 1];
  }

  function ActualKey(keys: seq<string>, segment: string): string {
    match FindActualKey(keys, segment)
    case Some(key) => if key != "" then key else Lower(segment)
    case None => Lower(segment)
  }

  function Step(d: Doc, key: string): Doc
    requires d.Mapping?
  {
    if key in d.fields then d.fields[key] else ABSENT
  }

  // The case-corrected segments of an environment name, read off the document as it is now.
  function Resolve(d: Doc, segments: seq<string>): (r: seq<string>)
    ensures |r| == |segments|
    decreases segments
  {
    if segments == [] then []
    else if d.Mapping? then
      var actual := ActualKey(d.keys, segments[0]);
      [actual] + Resolve(Step(d, actual), segments[1..])
    else AllLower(segments)
  }

  predicate IsConfigKey(key: string) {
    ENV_PREFIX <= key
  }

  function EnvSegments(key: string): (r: seq<string>)
    requires IsConfigKey(key)
    ensures r != []
  {
    Split(key[|ENV_PREFIX|..], '_')
  }

  function EnvPath(d: Doc, key: string): string
    requires IsConfigKey(key)
  {
    Join(Resolve(d, EnvSegments(key)), '.')
  }

  function EnvStep(d: Doc, item: EnvItem, coerce: Coercion): (r: Result<Doc, UsageError>)
    requires d.Mapping?
    ensures r.Success? ==> r.value.Mapping?
  {
    if IsConfigKey(item.0) then PutPath(d, EnvPath(d, item.0), Leaf(coerce(item.1))) else Success(d)
  }

  function ApplyEnv(d: Doc, env: seq<EnvItem>, coerce: Coercion): (r: Result<Doc, UsageError>)
    requires d.Mapping?
    ensures r.Success? ==> r.value.Mapping?
  {
    if env == [] then Success(d)
    else
      var before :- ApplyEnv(d, env[..|env| - 1], coerce);
      EnvStep(before, env[|env| - 1], coerce)
  }

  // The environment layer first, the `--set` layer on top of it.
  function ApplyLayers(d: Doc, env: seq<EnvItem>, sets: seq<string>, coerce: Coercion): Result<Doc, UsageError>
    requires d.Mapping?
  {
    var layered :- ApplyEnv(d, env, coerce);
    ApplySets(layered, sets, coerce)
  }
}
