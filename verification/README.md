# Batoi Classroom Suite: verified models of the `bcs` core

These Dafny modules model six components of the `bcs` command-line tool and prove what their code and
documentation promise. Each component touches the outside world only at its edges; there the model starts
from a value (a JSON document, a list of lines, a clock reading, a fault), so every theorem is about all of them.

- **Configuration overrides** (`ConfigDocument`, `ConfigIndex`, `ConfigOverrides`, `ConfigLaws`, `ConfigNames`,
  `ConfigHeap`, `ConfigMutation`). Dotted paths read and write a nested document; `--set` items and `BCS_CFG_*`
  variables are layered on it. The mutable document is a heap of containers written in place, and every method is
  proved to do what the value-level functions say. The laws are then proved about those functions: reading back a write,
  leaving every incomparable path alone, refusing without a trace, precedence, order independence, and the
  round trip between environment names and document paths, existing and new.
- **Argument normalisation** (`Argv`, `ArgvMeaning`, `ArgvLaws`, `ArgvReadings`, `ArgvGlued`,
  `ArgvPreservation`, `ArgvEquivalence`, `ArgvCases`, `ArgvTable`). Global options found after the subcommand are
  hoisted in front of it: `ArgvTable` says where every token of every line goes, from the option names alone. The
  reference meaning is the group-level parser: it reads options until the first argument that is not one, and a global
  behind the subcommand is whatever that parser reads as nothing but global options. A walk over the tokens decides
  which lines keep their meaning, and is proved right in both directions.
- **Storage topology** (`StorageModel`, `StorageParser`, `StorageLaws`, `StorageMounts`, `StorageChecks`,
  `StorageRoundTrip`). Three tools' reports are merged into one device tree and one flat mount list; which reports are
  refused, and for what, is as much part of the theorems as what the others give.
- **Line parsers** (`DfParser`, `DfLaws`, `DfShort`, `EfiParser`, `EfiLaws`, `EfiText`, `EfiRoundTrip`), with printers
  for both formats that leave every choice of whitespace to the line.
- **ULIDs** (`Ulid`): fixed-width base-32 text that sorts like the pair it encodes.
- **Build pipeline** (`BuilderModel`, `BuilderMachine`, `BuilderLaws`, `BuilderOutcomes`, `BuilderSelection`,
  `BuilderHealthy`): stages that change a shared context and a directory tree, for every stage list, selection, failure
  and exception.

`Wrappers` and `Text` hold the result types and the facts about strings that the components share.

## How the modules are organised

For each imperative part there is a function saying what one call does, and a method with the source's loop or
assignments proved equal to it; the theorems are about the function. `hide` statements keep the definitions a
proof does not need out of it.

Five things the code does that its documentation describes otherwise; the model follows the code:

- `BuildPipeline.run` documents that exceptions outside its own hierarchy propagate; it catches every `Exception`
  and records exit code 99 (`cli/src/bcs/builder/pipeline.py:94-103`).
- The stage contract says each stage appends its own result; the four stages return it and the pipeline appends
  it (`cli/src/bcs/builder/pipeline.py:108`).
- The finalize stage documents `metadata/build.log`; it writes `logs/build.log`
  (`cli/src/bcs/builder/stages.py:345`).
- The workspace is documented as always kept when a stage failed (`docs/BUILDER_PIPELINE.md:317`). Finalize removes
  it whatever failed before: `BuilderLaws.FinalizeRemovesExactlyWhen` says exactly when an entry survives, and
  `BuilderHealthy.FailedRunLosesWorkspace` runs a pipeline whose first stage fails.
- `bcs -v build` and `bcs build -v` are documented as equivalent for every global option (`docs/CLI.md:104`). That
  fails for an option in front whose value is a separate token; for short globals glued into one token behind the
  subcommand, such as `-ojson` or `-qv`; for `name=` with nothing after the equals sign; and for a flag written with a
  value, which hoisting hands to the group parser to reject. Each has its lemma in the table.

## Model

| member | source | states |
|---|---|---|
| ConfigDocument.PutThenGet | cli/src/bcs/config/overrides.py:53-66 | A value written at a path is what a read at that path returns, through every intermediate mapping created on the way. |
| ConfigDocument.PutKeepsOthers | cli/src/bcs/config/overrides.py:27-66 | A read at any path that is neither a prefix nor an extension of the written one succeeds after the write exactly when it did before, with the same value, list items included. |
| ConfigDocument.PutWhatIsThere | cli/src/bcs/config/overrides.py:53-66 | Writing back the value already there changes nothing, key order included. |
| ConfigDocument.PutTwice | cli/src/bcs/config/overrides.py:53-66 | The second of two writes at one path erases the first, whether it succeeds or fails. |
| ConfigDocument.PutFailsExactlyWhenBlocked | cli/src/bcs/config/overrides.py:53-66 | A write is refused if and only if some proper prefix of the path holds a list or a non-null scalar. |
| ConfigDocument.PutKeepsWellFormed | cli/src/bcs/config/overrides.py:53-66 | A write keeps every mapping's key order free of duplicates and in step with its contents. |
| ConfigDocument.PutsCommute | cli/src/bcs/config/overrides.py:53-66 | Writes at incomparable existing paths can be swapped without changing the document or its key order. |
| ConfigDocument.PutThroughCreated | cli/src/bcs/config/overrides.py:57-65 | Creating the next missing mapping ahead of time does not change what the whole write achieves, which is what makes creating them during the descent harmless. |
| ConfigDocument.PutStopsAt | cli/src/bcs/config/overrides.py:62-64 | A write fails at, and names, the first step that would leave the mappings. |
| ConfigDocument.ParseIntRoundTrip | cli/src/bcs/config/overrides.py:36-41 | A decimal list index, with or without a minus sign, is read as the number it spells. |
| ConfigDocument.ListRead | cli/src/bcs/config/overrides.py:36-46 | A decimal segment reads the list item at that position, a negative one counts from the end, and either fails exactly when out of range. |
| ConfigDocument.ParseIntSkips | cli/src/bcs/config/overrides.py:37-38 | C whitespace in front of the digits of an index is skipped. |
| ConfigDocument.ParseIntRefuses | cli/src/bcs/config/overrides.py:37-41 | Any other character in front of them, the separators `\x1c` to `\x1f` among them, makes the segment no index. |
| ConfigIndex.IndexExactlyWhenSpelled | cli/src/bcs/config/overrides.py:36-41 | A segment is a list index if and only if it spells an integer: groups of digits joined by single underscores, an optional sign, C whitespace around; and then it is that integer. |
| ConfigIndex.ReadGoesOn | cli/src/bcs/config/overrides.py:27-50 | A read goes on from whatever its first steps reach, and what that is decides the error: a mapping without the key, a list for a segment that is no index or out of range, a scalar. |
| ConfigIndex.NewKeysGoLast | cli/src/bcs/config/overrides.py:53-66 | A write leaves the keys of every mapping on its way in their order and puts a new one behind them. |
| ConfigOverrides.FindActualKey | cli/src/bcs/config/overrides.py:107-120 | A found key is the first of the mapping's that upper-cases to the segment; none is found only if no key does. |
| ConfigLaws.SetOptionRoundTrip | cli/src/bcs/config/overrides.py:87-97 | An item splits at its first equals sign into a whitespace-stripped path and a raw value kept whole; an empty path, and an item without an equals sign, are refused. |
| ConfigLaws.DottedPaths | cli/src/bcs/config/overrides.py:20-24 | Every text is the dot-joined path of exactly one list of dot-free segments, reads and writes at it are those at the segments, and only the empty text is refused as such. |
| ConfigLaws.PutPathThenGetPath | cli/src/bcs/config/overrides.py:27-66 | What is written at a dotted path is read back there, and an incomparable dotted path reads as before. |
| ConfigLaws.SetsKeepOthers | cli/src/bcs/config/overrides.py:100-104 | A path incomparable to every `--set` path reads the same before and after the whole layer. |
| ConfigLaws.LastSetWins | cli/src/bcs/config/loader.py:101-104 | The last `--set` for a path decides its value if no later one is comparable to it, whatever the environment layer did. |
| ConfigLaws.StoppingFails | cli/src/bcs/config/overrides.py:100-104 | If all items before one apply and that one is refused, the run fails with that item's error, whatever follows. |
| ConfigLaws.FailingStops | cli/src/bcs/config/overrides.py:102-104 | Every failing run stops at some item before which all items apply. |
| ConfigLaws.ResolveSurvivesPut | cli/src/bcs/config/overrides.py:123-145 | A write at an existing path that is no prefix of what a name resolves to leaves that resolution unchanged. |
| ConfigLaws.TargetsStay | cli/src/bcs/config/overrides.py:153-157 | After any run of variables that land apart, a further one still resolves to the path it had in the starting document. |
| ConfigLaws.StepsCommute | cli/src/bcs/config/overrides.py:148-157 | Two variables that land apart can be applied in either order, although each is resolved against what the other left. |
| ConfigLaws.EnvironmentOrderIrrelevant | cli/src/bcs/config/overrides.py:148-157 | If every variable resolves to an existing path and no two of those paths are comparable, every permutation of the environment applies and gives the same document. |
| ConfigLaws.EnvironmentTakesEffect | cli/src/bcs/config/overrides.py:155-157 | In such a run every variable's coerced value is found where its name resolved in the starting document. |
| ConfigNames.FindIsFirst | cli/src/bcs/config/overrides.py:117-120 | A key is recovered from its upper-cased spelling exactly when no earlier sibling has the same upper-casing. |
| ConfigNames.ResolveUpper | cli/src/bcs/config/overrides.py:133-145 | Resolving the upper-cased segments of an existing path gives the path back exactly when each step's key comes first among its look-alikes. |
| ConfigNames.EnvNameRoundTrip | cli/src/bcs/config/overrides.py:123-145 | The environment name made from an existing path resolves to exactly that path if and only if no segment holds an underscore or a dot and no earlier sibling differs only in case; then it writes there, except at the path of one empty key, which is refused. |
| ConfigNames.PlainEnvNameSets | cli/src/bcs/config/overrides.py:148-157 | In a document of plain keys, each existing path can be set through its environment name, and every incomparable path keeps its value. |
| ConfigNames.NewNameRoundTrip | cli/src/bcs/config/overrides.py:123-145 | For a path that exists only in part, with no key that reads like its first new segment, the environment name resolves to it if and only if no segment holds an underscore or a dot, each existing key comes first among its look-alikes and the new segments have no capital letter; the variable then creates the path below a mapping or a null and is refused below anything else. |
| ConfigNames.PlainNameCreates | cli/src/bcs/config/overrides.py:148-157 | In a document of plain keys a variable creates the lower-case path its name spells below an existing mapping or null, and every incomparable path keeps its value. |
| ConfigNames.SmallNamesAreLowered | cli/src/bcs/config/overrides.py:107-145 | Keys are matched against upper-case segments only: a name with a small letter in every segment stands for its lower-cased segments, whatever the document. |
| ConfigNames.MetadataName | cli/src/bcs/config/overrides.py:123-145 | The path `metadata.name` has the name `BCS_CFG_METADATA_NAME`. |
| ConfigHeap.SetAtIsPut | cli/src/bcs/config/overrides.py:66 | One key assignment in a container is the path write on the document as a value. |
| ConfigHeap.WriteStored | cli/src/bcs/config/overrides.py:66 | Assigning one key of one container leaves a heap that stores exactly the updated tree, when no container is shared. |
| ConfigMutation.Document.GetByPath | cli/src/bcs/config/overrides.py:27-50 | The cursor walk returns the part of the heap document that the path denotes, or the error of the step that fails, and owns nothing outside the document. |
| ConfigMutation.Document.SetItem | cli/src/bcs/config/overrides.py:66 | Assigning a key of any mapping of the document is the value-level write at that mapping's path, and keeps containers unshared. |
| ConfigMutation.Document.SetByPath | cli/src/bcs/config/overrides.py:53-66 | The in-place write refines the value-level one; a refused write leaves every container as it was, although mappings are created on the way down. |
| ConfigMutation.Document.ApplySet | cli/src/bcs/config/overrides.py:102-104 | One `--set` item does to the heap document what it does to the value, and nothing when refused. |
| ConfigMutation.Document.ApplySetOverrides | cli/src/bcs/config/overrides.py:100-104 | The layer applies all items, or exactly those before the one that is refused, leaving the document they produce. |
| ConfigMutation.FindKey | cli/src/bcs/config/overrides.py:107-120 | The loop returns the first key that upper-cases to the segment. |
| ConfigMutation.Document.EnvKeyToPath | cli/src/bcs/config/overrides.py:123-145 | The walk over the live containers resolves a name as the value-level function does on the document as it is now. |
| ConfigMutation.Document.ApplyVariable | cli/src/bcs/config/overrides.py:153-157 | One variable is skipped, applied, or refused without a trace. |
| ConfigMutation.Document.ApplyEnvOverrides | cli/src/bcs/config/overrides.py:148-157 | The layer applies all variables, or exactly those before the one that is refused. |
| ConfigMutation.Document.ApplyOverrideLayers | cli/src/bcs/config/loader.py:101-104 | Environment first, `--set` on top; a failure is the error the value-level layers fail with. |
| Argv.FindSubcommandIndex | cli/src/bcs/argv_normalize.py:56-65 | The first bare token not preceded by `--`, or none exactly when there is no such token. |
| Argv.PartTokens | cli/src/bcs/argv_normalize.py:108-118 | The index loop parts the tokens as the recursive specification does and always advances within bounds. |
| Argv.NormalizeArgv | cli/src/bcs/argv_normalize.py:94-120 | The result is the specification's rearrangement for every argument list. |
| ArgvMeaning.ParseAfterRun | cli/src/bcs/argv_normalize.py:94-100 | A run of options with their values contributes exactly its own bindings, or its first rejected token, to the group parse of any line it starts. |
| ArgvMeaning.ClassifiedAsRead | cli/src/bcs/argv_normalize.py:68-91 | The normaliser takes a token, alone or with the next one, exactly as the parser reads it, except that it misses glued globals, takes a further token after `name=`, and hoists flags written with a value, which the parser rejects. |
| ArgvMeaning.NamedReads | cli/src/bcs/argv_normalize.py:74-83 | Every global written by its name is an option token; without an equals sign a value option waits and a flag is complete, with one the value option binds and the flag is rejected. |
| ArgvLaws.NothingHoistedExactlyWhen | cli/src/bcs/argv_normalize.py:108-118 | Nothing is hoisted if and only if no token in front of the first `--` is a global, apart from a value-taking one at the very end. |
| ArgvLaws.PartIsStable | cli/src/bcs/argv_normalize.py:108-118 | The tokens after the subcommand interleave the hoisted and the remaining ones, each in its original order. |
| ArgvLaws.NormalizedRearranges | cli/src/bcs/argv_normalize.py:94-120 | Every result is a permutation of its input that keeps what precedes the subcommand in front and both groups in order. |
| ArgvLaws.RemainingStays | cli/src/bcs/argv_normalize.py:110-118 | Tokens left behind once are left behind again. |
| ArgvLaws.NormalizingTwice | cli/src/bcs/argv_normalize.py:94-120 | For every line, normalising is idempotent if and only if there is no subcommand, or the first bare or `--` token taken for a detached value, if any, is `--` or has no global behind it to hoist. |
| ArgvReadings.NothingReadExactlyWhen | cli/src/bcs/argv_normalize.py:1-14 | Reading in place finds no global if and only if no token in front of the first `--` is one to the parser, apart from a waiting one at the very end. |
| ArgvReadings.StepRejected | cli/src/bcs/argv_normalize.py:77-80 | A flag written with a value is hoisted and rejected by the group parser, whatever follows, while in place it is left to the subcommand. |
| ArgvGlued.OverhangsExactlyWhen | cli/src/bcs/argv_normalize.py:76-83 | A walk over the tokens tells exactly when the hoisted ones run out while a global swallowed by `name=` still waits, so that the parser takes the subcommand for its value. |
| ArgvGlued.GluedDiffers | cli/src/bcs/argv_normalize.py:85-91 | A glued global that is not a waiting last token changes the meaning whatever precedes and follows it, unless nothing was left to the subcommand before it, the hoisted tokens behind it run out while one waits, and a token is spelled like the subcommand. |
| ArgvPreservation.JudgedRightly | cli/src/bcs/argv_normalize.py:94-120 | Behind any subcommand, the hoisted tokens and the rest are read as in place on every line the token walk calls kept, and differently on every line it calls changed, every form of `name=` included. |
| ArgvEquivalence.PendingKeepsMeaningOnlyUntouched | cli/src/bcs/argv_normalize.py:56-65 | When an option in front waits for its value, the meaning survives if and only if nothing is there to hoist and reading in place finds what plain group parsing finds. |
| ArgvEquivalence.InPlaceDiffersExactlyWhen | cli/src/bcs/argv_normalize.py:1-14 | For every line, reading globals in place differs from plain group parsing if and only if the parser can read one behind its own subcommand. |
| ArgvEquivalence.HoistingKeepsMeaningExactlyWhen | cli/src/bcs/argv_normalize.py:94-120 | A condition on the tokens alone decides whether the normalised line means what the original does; it leaves a line open only if a glued global stands behind the subcommand, the hoisted tokens behind it run out while one waits, and a token is spelled like the subcommand. |
| ArgvEquivalence.ExactUnlessRepeated | cli/src/bcs/argv_normalize.py:94-120 | On every line in which no token behind the subcommand is spelled like it, meaning is kept if and only if that condition says so. |
| ArgvEquivalence.HoistingKeepsMeaning | cli/src/bcs/argv_normalize.py:94-120 | If no option in front waits for its value and no token behind the subcommand is glued, `name=` or a flag with a value, the normalised line yields the subcommand, bindings and leftovers of reading globals anywhere in the original. |
| ArgvCases.DetachedValueIsSplit | cli/src/bcs/argv_normalize.py:56-65 | For every pair of value options, `-o json version --color never` becomes `-o --color never json version` and means something else. |
| ArgvCases.GluedValueIsLost | cli/src/bcs/argv_normalize.py:85-91 | For every short value option and value, `-ojson build` binds the option, `build -ojson` is left as it is and does not. |
| ArgvCases.GluedOutputIsLost | cli/src/bcs/argv_normalize.py:85-91 | The same spelled out at `build -ojson`. |
| ArgvCases.EmptyInlineChangesMeaning | cli/src/bcs/argv_normalize.py:76-83 | A `name=` or short `-o=` that ends the line, or stands in front of `--` or of an option that is no global, always changes the meaning, whatever both readings pass in step before it and whatever follows. |
| ArgvCases.EmptyInlineSwallowsNext | cli/src/bcs/argv_normalize.py:76-83 | In front of a bare token it changes the meaning too, except exactly when that token and everything left before it are spelled like the subcommand and nothing global follows. |
| ArgvCases.EmptyInlineHoistsWaiting | cli/src/bcs/argv_normalize.py:76-83 | In front of globals that wait for a value: with nothing, `--` or a last value option behind, the meaning always changes; a hoisted flag behind is taken by both readings and the rest decides; any other token must be spelled like the subcommand, with everything left before it. |
| ArgvCases.EmptyInlineBeforeWaiting | cli/src/bcs/argv_normalize.py:76-83 | `build --output= -o json` keeps its meaning if and only if the subcommand is itself spelled `json`. |
| ArgvCases.OpenLinesGoBothWays | cli/src/bcs/argv_normalize.py:76-91 | A line the condition leaves open, `= -vo= -v -o= -vo =`, keeps its meaning by coincidence; with any other flag glued to `-o=` it does not. |
| ArgvTable.GlobalsGoInFront | cli/src/bcs/argv_normalize.py:28-120 | For every line, each documented global behind the subcommand goes in front of it, a value option with its value, in the order written; every other token stays in order, and nothing from `--` on moves. Options and their forms are spelled out by name. |
| ArgvTable.Itemized | cli/src/bcs/argv_normalize.py:68-91 | Every list of tokens behind a subcommand is written with those forms, so the statement above covers every line that has one. |
| ArgvTable.HelpStays | cli/src/bcs/argv_normalize.py:23-28 | `--help`, `-h`, `--version`, a lone `-` and bare tokens are no globals and stay behind the subcommand. |
| ArgvTable.ClusterGoesInFront | cli/src/bcs/argv_normalize.py:50-53 | A dash and two or more v go in front of any subcommand from behind any tokens that stay, whatever follows; if nothing does, the line keeps its meaning. |
| ArgvTable.ClusterIsNoGlued | cli/src/bcs/argv_normalize.py:50-53 | No token of v alone is left behind as a glued global: it is read as globals, and is the flag or a cluster that moves. |
| StorageParser.FillFacts | cli/src/bcs/platform/adapters/storage/parser.py:243-256 | The dictionary loop builds the last-entry-wins index, or fails with the first bad entry's error. |
| StorageParser.FlattenEntry | cli/src/bcs/platform/adapters/storage/parser.py:306-320 | The recursive loop over one mount returns its own record followed by everything below it. |
| StorageParser.FlattenMounts | cli/src/bcs/platform/adapters/storage/parser.py:297-303 | The loop over the top-level mounts concatenates their flattenings in order. |
| StorageParser.Merge | cli/src/bcs/platform/adapters/storage/parser.py:125-165 | The three reports are read and merged in the source's order, so the first failing one decides the error. |
| StorageLaws.ShortcutsChangeNothing | cli/src/bcs/platform/adapters/storage/parser.py:264-273 | Returning an unchanged device instead of a copy never changes the result of either annotation pass. |
| StorageLaws.MergeKeepsSkeleton | cli/src/bcs/platform/adapters/storage/parser.py:160-165 | Names, paths, types, numbers, sizes, counts and order are exactly lsblk's, so partition numbers and device paths stay distinct although copying a model re-runs no validator. |
| StorageLaws.MergeRefusesExactlyDuplicatePaths | cli/src/bcs/platform/adapters/storage/models.py:251-257 | When each report parses, the merge is refused if and only if two lsblk devices share a path. |
| StorageLaws.FactsComeFromLastEntry | cli/src/bcs/platform/adapters/storage/parser.py:246-256 | A path is indexed exactly when some blkid entry names it, with the facts of the last such entry. |
| StorageLaws.IndexIsLastMount | cli/src/bcs/platform/adapters/storage/parser.py:326 | The mount index agrees with a scan from the end for the last mount with that source. |
| StorageLaws.MergeAgreesWithScans | cli/src/bcs/platform/adapters/storage/parser.py:264-350 | Each merged device and partition takes its mount point from the last mount of its path, else lsblk's own, and its facts from the last blkid entry naming it; a filesystem record is present exactly with blkid filesystem data and carries mount point and options together or neither, equal to the partition's. |
| StorageLaws.IndexIsLastFacts | cli/src/bcs/platform/adapters/storage/parser.py:246-256 | The dictionary of facts agrees with a scan from the end for the last entry with that name. |
| StorageMounts.EntriesFlattenToPreorder | cli/src/bcs/platform/adapters/storage/parser.py:297-320 | For every report the flat list is the preorder of the forest it describes, and a rejected report is rejected with the forest's first error. |
| StorageMounts.OneEntryPerNode | cli/src/bcs/platform/adapters/storage/parser.py:311-319 | The flat list has one entry per mount in the forest. |
| StorageMounts.ParentsComeFirst | cli/src/bcs/platform/adapters/storage/parser.py:306-320 | Every entry names as parent the target of an entry before it, or hangs off the root. |
| StorageMounts.FlatteningIsInjective | cli/src/bcs/platform/adapters/storage/parser.py:306-320 | Two forests with pairwise distinct targets that flatten to the same list are equal. |
| StorageMounts.ReportsWithSameMountsAgree | cli/src/bcs/platform/adapters/storage/parser.py:297-303 | Two reports with the same flat list and distinct targets describe the same forest. |
| StorageChecks.PartitionsInOrder | cli/src/bcs/platform/adapters/storage/parser.py:188-191 | Each partition is parsed with its position plus one as fallback number; all must be accepted, and the first that is not decides the error. |
| StorageChecks.PartitionChecked | cli/src/bcs/platform/adapters/storage/parser.py:208-219 | A partition is accepted exactly when it is an object with a name, an integer number of at least one if any, and a size or none; otherwise the first of these decides the error. |
| StorageChecks.DeviceChecked | cli/src/bcs/platform/adapters/storage/parser.py:179-205 | A device is accepted exactly when its name, type, flags, children, partitions, size, texts and the distinctness of its numbers all hold, and otherwise refused for the first that does not. |
| StorageChecks.DevicesInOrder | cli/src/bcs/platform/adapters/storage/parser.py:173-176 | The devices are those of the entries in order, and the first refused entry decides the error. |
| StorageChecks.ReportChecked | cli/src/bcs/platform/adapters/storage/parser.py:358-379 | A report is accepted exactly when it is an object with a list of objects under the tool's key, and refused for the first that fails. |
| StorageChecks.FactsInOrder | cli/src/bcs/platform/adapters/storage/parser.py:246-256 | blkid's entries are accepted exactly when each has a name; the first without one decides the error. |
| StorageChecks.MountChecked | cli/src/bcs/platform/adapters/storage/parser.py:306-320 | A mount is accepted exactly when it has its four texts, its children, if any, are a list, and they are accepted; otherwise it is refused for the first of these. |
| StorageChecks.MountsInOrder | cli/src/bcs/platform/adapters/storage/parser.py:301-303 | The first refused mount of a list decides the error. |
| StorageChecks.TopologyChecked | cli/src/bcs/platform/adapters/storage/parser.py:160-165 | lsblk's error comes before blkid's and blkid's before findmnt's, each under its own key. |
| StorageChecks.FalsyValues | cli/src/bcs/platform/adapters/storage/parser.py:230-261 | The values that count as none are null, false, zero and the empty text, list and object. |
| StorageRoundTrip.DeviceRoundTrip | cli/src/bcs/platform/adapters/storage/parser.py:179-236 | A device is read back unchanged from any way of printing it: partition numbers as they are, or left out, null or no integer, in which case the partition at position i has number i + 1; the mount point alone, or first behind any empty entries of the list, whatever follows; absent fields as null or not at all. |
| StorageRoundTrip.LsblkRoundTrip | cli/src/bcs/platform/adapters/storage/parser.py:173-176 | A whole report of devices printed in any of those ways, with any other keys beside the list, is read back unchanged and in order. |
| StorageRoundTrip.BlkidRoundTrip | cli/src/bcs/platform/adapters/storage/parser.py:243-261 | Any facts blkid can report, written as JSON entries in any order and even repeatedly, give back the same index, absent facts staying absent. |
| StorageRoundTrip.MountsRoundTrip | cli/src/bcs/platform/adapters/storage/parser.py:297-320 | Any mount forest written as nested JSON and flattened is that forest's preorder. |
| DfParser.ParseFilesystemUsage | cli/src/bcs/platform/adapters/filesystem/parser.py:121-203 | The line loop returns the data rows in order, or fails at the first malformed line with its number and text, every earlier line being fine. |
| DfLaws.RowDecidedByNumericColumns | cli/src/bcs/platform/adapters/filesystem/parser.py:162-186 | A row of nine columns is skipped, data or malformed exactly as none, all or some of its six numeric columns read, and the first that does not is reported. |
| DfLaws.ParsedOfConcat | cli/src/bcs/platform/adapters/filesystem/parser.py:145-203 | Parsing a concatenation concatenates the results, or reports the first part's error, or the second's with its line number shifted. |
| DfLaws.ColumnsRoundTrip | cli/src/bcs/platform/adapters/filesystem/parser.py:147-160 | Nine columns printed with any positive whitespace around and between them are found again, inner whitespace of the last one included. |
| DfShort.MalformedRowExactlyWhen | cli/src/bcs/platform/adapters/filesystem/parser.py:145-160 | A line is a malformed row if and only if it holds one to eight words, however they are spaced. |
| DfShort.NineColumns | cli/src/bcs/platform/adapters/filesystem/parser.py:145-160 | A line that is taken apart into nine columns is those columns printed with some whitespace around and between them. |
| DfLaws.NumbersRoundTrip | cli/src/bcs/platform/adapters/filesystem/parser.py:215-219 | A printed number is one word and reads back in byte and inode columns. |
| DfLaws.InodesRoundTrip | cli/src/bcs/platform/adapters/filesystem/parser.py:206-212 | Absent inode counts print as a dash and read back as absent. |
| DfLaws.NumbersExactlyWhen | cli/src/bcs/platform/adapters/filesystem/parser.py:206-219 | A column reads as a number exactly if it is not empty and holds digits alone, a dash only as an absent inode count. |
| DfLaws.RowRoundTrip | cli/src/bcs/platform/adapters/filesystem/parser.py:145-201 | A usage record printed in any layout is classified as data with the same fields and its own line. |
| DfLaws.TableRoundTrip | cli/src/bcs/platform/adapters/filesystem/parser.py:121-203 | Any records, printed in any layouts and interleaved with blank and header lines, parse back to exactly those records in order. |
| EfiParser.ParseFirmwareBootConfiguration | cli/src/bcs/platform/adapters/efi/parser.py:54-143 | The loop over five local variables computes the fold of the lines, or fails at the first malformed one, or on duplicate entries. |
| EfiLaws.ParsesExactlyWhenWellFormed | cli/src/bcs/platform/adapters/efi/models.py:163-183 | Text parses if and only if no line is malformed and no entry number repeats, and then every boot number is four hex digits; otherwise the first malformed line is named, and repeated numbers are reported only if there is none. |
| EfiLaws.LastLineWins | cli/src/bcs/platform/adapters/efi/parser.py:82-134 | The last line of its kind decides a field, whatever other lines stand around it. |
| EfiLaws.IgnoredLinesDoNotMatter | cli/src/bcs/platform/adapters/efi/parser.py:134 | Unrecognised and blank lines change neither the result nor whether there is one. |
| EfiText.CurrentLine | cli/src/bcs/platform/adapters/efi/parser.py:93-98 | With any spacing, nothing behind `BootCurrent:` means absent, four hex digits are that number, and anything else is malformed. |
| EfiText.NextLine | cli/src/bcs/platform/adapters/efi/parser.py:112-117 | The same for `BootNext:`. |
| EfiText.TimeoutLine | cli/src/bcs/platform/adapters/efi/parser.py:100-105 | Digits behind `Timeout:`, whatever follows them, are the number of seconds; none are malformed. |
| EfiText.OrderLine | cli/src/bcs/platform/adapters/efi/parser.py:160-173 | A comma-joined boot order, padded anyhow, is read back as the same list, or is malformed if a part is not four hex digits. |
| EfiText.EmptyOrderLine | cli/src/bcs/platform/adapters/efi/parser.py:166-168 | Nothing behind `BootOrder:` is the empty order. |
| EfiText.EntryLineParses | cli/src/bcs/platform/adapters/efi/parser.py:119-131 | A printed entry is read back with its number, marker, label and path, whatever non-empty whitespace stands in front of the label. |
| EfiText.EntryLineIsPrinted | cli/src/bcs/platform/adapters/efi/parser.py:119-131 | Every line read as an entry is that entry printed with some spacing. |
| EfiText.IgnoredExactlyWhen | cli/src/bcs/platform/adapters/efi/parser.py:82-134 | A line is ignored if and only if it is blank, or starts with none of the four field names and is no printed entry. |
| EfiRoundTrip.ReportRoundTrip | cli/src/bcs/platform/adapters/efi/parser.py:54-173 | Printing a configuration, with any spacing, absent values shown empty or not at all, and ignorable lines mixed in anywhere, and parsing it gives the same fields and entries in order. |
| Ulid.Encode | cli/src/bcs/ulid.py:23-28 | Filling the characters from the right gives the base-32 spelling of the value at that width. |
| Ulid.NewUlid | cli/src/bcs/ulid.py:31-37 | The identifier is the millisecond timestamp at ten characters followed by the big-endian random bytes at sixteen. |
| Ulid.DigitsHaveTheValue | cli/src/bcs/ulid.py:23-28 | The digits denote the value modulo 32 to the width. |
| Ulid.EncodingRoundTrip | cli/src/bcs/ulid.py:25-28 | Decoding the text gives the value modulo 32 to the width, so exactly below that bound. |
| Ulid.SpellingOrder | cli/src/bcs/ulid.py:23-28 | Texts of equal width compare as strings exactly as the numbers they spell, and are equal only for equal numbers. |
| Ulid.UlidOrderModulo | cli/src/bcs/ulid.py:31-37 | For all inputs, identifiers compare as their timestamps and random parts modulo their widths. |
| Ulid.BytesOrder | cli/src/bcs/ulid.py:35 | The number made of the random bytes orders them lexicographically from the first byte and tells them apart. |
| Ulid.PartsDecode | cli/src/bcs/ulid.py:31-37 | The first ten characters decode to the milliseconds of the clock, the other sixteen to the random number. |
| Ulid.UlidsSortByTime | cli/src/bcs/ulid.py:31-37 | For clocks that fit 48 bits of milliseconds and ten random bytes, identifiers sort by millisecond and then by the bytes from the first on, and coincide only for the same millisecond and the same bytes. |
| BuilderMachine.FileTree.Mkdir | cli/src/bcs/builder/execution.py:19-30 | It succeeds exactly when no file is in the way and the operation does not fail, and then every directory on the way exists; nothing is ever lost or replaced, only directories on the way are added, and nothing at all when a file is in the way. |
| BuilderMachine.FileTree.WriteText | cli/src/bcs/builder/execution.py:71-82 | On success the file holds exactly the content in an existing directory; on failure it is as before or partial; every other entry is kept and only parent directories are added. |
| BuilderMachine.BuildWorkspaceManager.Create | cli/src/bcs/builder/workspace.py:51-81 | Success comes exactly on a free root with nothing in the way and no fault, and leaves the four directories of the returned layout; a non-empty root is refused with the tree unchanged; nothing is lost or replaced and only directories appear, none outside the root but its ancestors. |
| BuilderMachine.BuildWorkspaceManager.Clean | cli/src/bcs/builder/workspace.py:83-100 | It succeeds exactly when the root can be inspected and is missing, or is a directory whose removal does not fail; success leaves nothing under an existing root; everything outside the root is kept and nothing is added or altered. |
| BuilderMachine.BuildWorkspaceManager.Contains | cli/src/bcs/builder/workspace.py:102-112 | A path is contained exactly when the root is a prefix of it. |
| BuilderMachine.BuildContext.Prepare | cli/src/bcs/builder/stages.py:160-184 | Success sets the workspace to the plan's layout with its four directories on disk; otherwise the workspace field is untouched and the stage raised or reports exit code 10; results, artifacts and metadata never change. |
| BuilderMachine.BuildContext.WriteManifest | cli/src/bcs/builder/stages.py:213-260 | Success leaves the manifest file with the plan, artifacts and results accumulated before it, and then appends its artifact; failure appends nothing and reports exit code 30; without a workspace nothing is written; other files are kept. |
| BuilderMachine.BuildContext.FinalizeBuild | cli/src/bcs/builder/stages.py:283-368 | In the workspace of the plan, success leaves nothing under the root, or, when kept, the provenance and the log of what was accumulated, and nothing outside the root changes; without a workspace nothing changes and the exit code is 70; results, artifacts and workspace field never change. |
| BuilderMachine.BuildContext.Run | cli/src/bcs/builder/stages.py:85-368 | No concrete stage touches the recorded results; none drops an artifact, moves the workspace away from the plan's root or changes anything outside it. |
| BuilderMachine.BuildPipeline.Create | cli/src/bcs/builder/pipeline.py:35-49 | A pipeline is refused exactly when it has no stages. |
| BuilderMachine.BuildPipeline.Run | cli/src/bcs/builder/pipeline.py:56-115 | The loop runs every selected stage in order, whatever earlier ones did, and reports success exactly when all of them succeed. |
| BuilderLaws.ConcreteResult | cli/src/bcs/builder/stages.py:85-368 | A concrete stage's result carries its name and succeeds exactly with exit code 0; code 99 is recorded exactly when the stage raised, which the manifest stage never does; every other failure has the stage's own code. |
| BuilderLaws.Accounting | cli/src/bcs/builder/pipeline.py:87-108 | A run appends exactly one result per selected stage, in registration order, whether stages succeed, fail or raise. |
| BuilderLaws.AppendedComesFromStage | cli/src/bcs/builder/pipeline.py:87-90 | Every appended result belongs to a selected stage at its place in the order. |
| BuilderLaws.SuccessMeansAllAppended | cli/src/bcs/builder/pipeline.py:80-115 | The run succeeds if and only if all newly appended results do, whatever results were there before. |
| BuilderSelection.StageNames | cli/src/bcs/builder/stages.py:99-281 | The four stages are registered as `validate-config`, `prepare-workspace`, `generate-manifest` and `finalize`. |
| BuilderSelection.AppendedNames | cli/src/bcs/builder/pipeline.py:81-108 | For every stage list and plan, the appended results carry the registered names, in order, filtered by the plan: all of them if it names none, otherwise exactly those it names. |
| BuilderSelection.RunsExactlyTheChosen | cli/src/bcs/builder/pipeline.py:81-108 | A stage the plan does not name leaves the whole state as it was, and the run is the run of the others alone, each recording its result. |
| BuilderSelection.ValidationAlone | cli/src/bcs/builder/pipeline.py:81-108 | A plan naming only `validate-config` appends one result with that name and changes nothing else. |
| BuilderSelection.ValidatesExactlyWhen | cli/src/bcs/builder/stages.py:101-134 | Validation succeeds exactly when the file can be inspected, exists, is a regular file, is readable and its name is a non-empty stem with a YAML suffix in any case; it never changes anything. |
| BuilderOutcomes.PrepareEndsExactly | cli/src/bcs/builder/stages.py:160-184 | Preparing succeeds exactly on a free root with nothing in the way and no fault, raises exactly when the root cannot be resolved, and otherwise fails with exit code 10. |
| BuilderOutcomes.ManifestEndsExactly | cli/src/bcs/builder/stages.py:213-260 | Writing the manifest succeeds exactly in a prepared workspace where the file can be put and no fault occurs, never raises, and otherwise fails with exit code 30. |
| BuilderOutcomes.FinalizeEndsExactly | cli/src/bcs/builder/stages.py:283-368 | In the plan's workspace finalize raises exactly when artifacts or root cannot be inspected or the log cannot be written, fails with exit code 70 exactly when the provenance cannot be written or the removal fails, and succeeds otherwise; the metadata is recorded even if writing fails. |
| BuilderLaws.PrepareNeedsEmptyRoot | cli/src/bcs/builder/workspace.py:58-81 | Prepare succeeds only when the root was no occupied directory, which in a tree that lists the ancestors of its entries means nothing stood under it, and leaves the four directories of the layout, spelled out, that it hands to the context. |
| BuilderLaws.CleanupIgnoresResults | cli/src/bcs/builder/stages.py:348-360 | Whatever results were recorded before, finalize ends the same way, and a successful cleanup leaves the same tree. |
| BuilderLaws.FinalizeRemovesExactlyWhen | cli/src/bcs/builder/stages.py:283-360 | In the plan's workspace an entry under the root, the root included, survives finalize if and only if the workspace is kept, the stage ended before its cleanup, the root could not be inspected, or the removal failed and spared it. |
| BuilderLaws.FinalizeLeavesNothing | cli/src/bcs/builder/stages.py:347-368 | After one successful finalize that does not keep the workspace nothing exists under the root. |
| BuilderLaws.NothingLeftAfterFinalize | cli/src/bcs/builder/stages.py:349-368 | The same at that moment of any run, for every stage list and selection. |
| BuilderLaws.NeedsEarlierPrepare | cli/src/bcs/builder/stages.py:213-293 | From a fresh context a manifest or finalize succeeds only after an earlier successful prepare. |
| BuilderLaws.CleanupBetweenPrepares | cli/src/bcs/builder/workspace.py:51-100 | Between two successful prepares lies a finalize that reached its cleanup. |
| BuilderLaws.RunStaysContained | cli/src/bcs/builder/workspace.py:51-112 | No run changes anything outside the root, except for creating missing ancestors of it. |
| BuilderLaws.ListsOnlyGrow | cli/src/bcs/builder/context.py:14-18 | Results and artifacts at any moment are prefixes of those at any later one. |
| BuilderLaws.ManifestWritten | cli/src/bcs/builder/stages.py:228-260 | A successful manifest stage leaves on disk exactly the plan, artifacts and results accumulated before it. |
| BuilderLaws.RunManifestsArePrefixes | cli/src/bcs/builder/stages.py:228-251 | At every moment, each manifest a run wrote records prefixes of the results and artifacts so far. |
| BuilderHealthy.HealthyManifest | cli/src/bcs/builder/stages.py:225-260 | In a prepared workspace with nothing failing the manifest stage succeeds and its file is on disk. |
| BuilderHealthy.HealthyFinalize | cli/src/bcs/builder/stages.py:295-368 | With nothing failing finalize succeeds and leaves nothing under the root, or, when kept, the provenance of this plan, a log of the results so far and every earlier manifest not stored under those two names. |
| BuilderHealthy.HealthyRunSucceeds | cli/src/bcs/builder/stages.py:99-368 | A fresh run of the four stages on a free root with nothing failing appends four successes and ends with an empty root, or with a manifest naming the first two results, the provenance and a log of the first three. |
| BuilderHealthy.FailedRunLosesWorkspace | cli/src/bcs/builder/stages.py:99-368 | A run whose first stage fails, with nothing else failing, still removes everything under the root. |

## Left out

- ArgvEquivalence.HoistingKeepsMeaningExactlyWhen: open on lines in which nothing is left to the subcommand before a
  glued global, the hoisted tokens behind that global run out while one swallowed by `name=` waits for a value, and a
  token is spelled like the subcommand. The parser then takes the subcommand for that value and reads on behind it, so
  the two readings list the same options in two orders and agree only if the spellings happen to line up;
  `OpenLinesGoBothWays` shows that they may and may not.
- ArgvMeaning.ParseAfterRun: the group parser is written from the invocation grammar and the option table, with
  `--help`, `-h` and `--version` as further flags; the subcommands' own parsers are not modelled. A value-taking global
  with nothing after it counts as left to the subcommand, as the source's comment has it.
- ConfigMutation.Document.SetByPath: requires that no container is reachable twice. YAML anchors can produce such
  documents, and a write through one occurrence then shows at the other.
- ConfigDocument.PutThenGet: mapping keys are strings. YAML can produce integer, boolean and null keys, which no dotted
  path reaches, and on which resolving an environment name raises `AttributeError` at `key.upper()`.
- ConfigMutation.Document.ApplyOverrideLayers: file lookup, YAML decoding, the deep copy and schema validation are
  not modelled; the document starts as what the file decodes to.
- ConfigOverrides.FindActualKey: upper and lower case are ASCII; Python's Unicode case tables are not modelled.
- ConfigDocument.ParseIntRoundTrip: digits and text are ASCII, and Python's limit on the length of integer
  texts is ignored.
- StorageParser.Merge: starts from decoded JSON. What `str` makes of a non-string value and which non-integers the
  models accept as a size are parameters, so every theorem holds for any answer. Entries that are not objects where
  the source assumes they are end in one error, standing for Python's `AttributeError`.
- DfParser.ParseFilesystemUsage: starts from the list of lines; `str.splitlines` and the stored raw text are not modelled.
- EfiParser.ParseFirmwareBootConfiguration: starts from the list of lines, as above.
- BuilderMachine.BuildContext.FinalizeBuild: the list of checksums the stage computes is never stored, so nothing is
  said about it; looking at artifact files appears only as a point at which the stage may raise. Timestamp, tool
  version and commit are inputs.
- BuilderSelection.ValidatesExactlyWhen: the path is its text, and the suffix rule is that of Python 3.12's
  `pathlib`; later versions no longer see a suffix behind a stem of dots alone.
- BuilderMachine.BuildContext.Prepare: the plan carries a resolved root; the default name made from the clock is not modelled.
- BuilderMachine.FileTree.WriteText: the file system is a map from paths to entries that only the build changes;
  permissions, links and concurrent processes appear as faults.
- Scalar coercion of override values is a parameter: any total function from text to scalars.
- Error message wording, elapsed times and log formatting.
- Subprocess adapters and their error mapping: one branch per outcome.
- Inventory, doctor checks, the orchestrator, colour and log-level resolution, Secure Boot and network parsers and
  the semantic configuration validator: fixed slots, small tables and filters whose code states all there is to say.
- Plugins, command wiring and output printing: library behaviour.
