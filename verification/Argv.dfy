/**
 Hoisting global options in front of the subcommand, and what the group-level command-line parser
 reads before and after.
 */
module Argv {
  import opened Wrappers
  import opened Text

  const VALUE_OPTIONS: set<string> := {
    "--config", "-c", "--set", "--output", "-o", "--color", "--log-level", "--log-format", "--log-file", "--timeout"
  }

  const FLAG_OPTIONS: set<string> := {
    "--verbose", "-v", "--quiet", "-q", "--no-input", "--yes", "-y", "--dry-run"
  }

  predicate TakesValue(name: string) {
    name in VALUE_OPTIONS
  }

  predicate IsFlag(name: string) {
    name in FLAG_OPTIONS
  }

  // All the proofs need to know about the option names.
  lemma OptionNames(name: string)
    requires TakesValue(name) || IsFlag(name)
    ensures |name| >= 2 && name[0] == '-' && name != "--" && '=' !in name
    ensures name[1] != '-' ==> |name| == 2
    ensures !(TakesValue(name) && IsFlag(name))
  {
  }

  // ----- the normaliser -----

  predicate IsBare(arg: string) {
    arg == "-" || !("-" <= arg)
  }

  predicate IsStop(arg: string) {
    arg == "--" || IsBare(arg)
  }

  predicate IsRepeatedShortVerbose(arg: string) {
    |arg| >= 3 && arg[0] == '-' && forall i :: 1 <= i < |arg| ==> arg[i] == 'v'
  }

  function Name(arg: string): string {
    Partition(arg, '=').0
  }

  function Inline(arg: string): string {
    Partition(arg, '=').1
  }

  // How many tokens the option at the front takes, and whether it is a global option to hoist.
  function ConsumeOne(after: seq<string>): (r: (nat, bool))
    requires after != []
    ensures 1 <= r.0 <= |after|
  {
    var arg := after[0];
    if IsFlag(Name(arg)) || (TakesValue(Name(arg)) && Inline(arg) != "") then (1, true)
    else if TakesValue(Name(arg)) then
      if |after| > 1 then (2, true) else (1, false)
    else (1, IsRepeatedShortVerbose(arg))
  }

  // What the normaliser takes for a global option, going by the token alone.
  predicate Hoistable(arg: string) {
    TakesValue(Name(arg)) || IsFlag(Name(arg)) || IsRepeatedShortVerbose(arg)
  }

  // It takes the next token for this option's value.
  predicate Waits(arg: string) {
    TakesValue(Name(arg)) && Inline(arg) == ""
  }

  lemma ConsumedByTokens(after: seq<string>)
    requires after != []
    ensures Waits(after[0]) ==> Hoistable(after[0])
    ensures ConsumeOne(after) == if Waits(after[0]) then (if |after| > 1 then (2, true) else (1, false))
                                 else (1, Hoistable(after[0]))
  {
    hide TakesValue, IsFlag;
    if TakesValue(Name(after[0])) {
      OptionNames(Name(after[0]));
    }
  }

  // The tokens after the subcommand, parted into the hoisted ones and the rest.
  function Part(after: seq<string>): (seq<string>, seq<string>) {
    if after == [] || after[0] == "--" then ([], after)
    else
      var (n, global) := ConsumeOne(after);
      var (hoisted, remaining) := Part(after[n..]);
      if global then (after[..n] + hoisted, remaining) else (hoisted, after[..n] + remaining)
  }

  // The first token that is bare or `--`, or the end.
  function StopIndex(argv: seq<string>): (k: nat)
    ensures k <= |argv|
    ensures forall i :: 0 <= i < k ==> !IsStop(argv[i])
    ensures k < |argv| ==> IsStop(argv[k])
  {
    if argv == [] || IsStop(argv[0]) then 0 else 1 + StopIndex(argv[1..])
  }

  function Normalized(argv: seq<string>): seq<string> {
    var k := StopIndex(argv);
    if k == |argv| || argv[k] == "--" then argv
    else
      var (hoisted, remaining) := Part(argv[k + 1..]);
      argv[..k] + hoisted + [argv[k]] + remaining
  }

  method FindSubcommandIndex(argv: seq<string>) returns (index: Option<nat>)
    ensures index.Some? ==> index.value < |argv| && IsBare(argv[index.value])
    ensures index.Some? ==> forall i :: 0 <= i < index.value ==> !IsStop(argv[i])
    ensures index.None? ==> forall i :: 0 <= i < |argv| && IsBare(argv[i]) ==> exists j :: 0 <= j < i && argv[j] == "--"
  {
    for i := 0 to |argv|
      invariant forall j :: 0 <= j < i ==> !IsStop(argv[j])
    {
      if argv[i] == "--" {
        return None;
      }
      if IsBare(argv[i]) {
        return Some(i);
      }
    }
    return None;
  }

  method NormalizeArgv(argv: seq<string>) returns (result: seq<string>)
    ensures result == Normalized(argv)
  {
    hide ConsumeOne, IsBare, StopIndex;
    var found := FindSubcommandIndex(argv);
    ghost var k := StopIndex(argv);
    if found.None? {
      assert k == |argv| || !IsBare(argv[k]);
      return argv;
    }
    assert found.value == k;
    var before, subcommand, after := argv[..found.value], argv[found.value], argv[found.value + 1..];
    var hoisted, remaining := PartTokens(after);
    result := before + hoisted + [subcommand] + remaining;
  }

  lemma PartStep(after: seq<string>)
    ensures after == [] || after[0] == "--" ==> Part(after) == ([], after)
    ensures after != [] && after[0] != "--" ==>
              var (n, global) := ConsumeOne(after);
              var (hoisted, remaining) := Part(after[n..]);
              Part(after) == if global then (after[..n] + hoisted, remaining) else (hoisted, after[..n] + remaining)
  {
  }

  // The loop over the tokens after the subcommand.
  method PartTokens(after: seq<string>) returns (hoisted: seq<string>, remaining: seq<string>)
    ensures hoisted == Part(after).0 && remaining == Part(after).1
  {
    hide ConsumeOne, Part;
    hoisted, remaining := [], [];
    var index := 0;
    assert after[0..] == after;
    while index < |after|
      invariant 0 <= index <= |after|
      invariant Part(after).0 == hoisted + Part(after[index..]).0
      invariant Part(after).1 == remaining + Part(after[index..]).1
    {
      PartStep(after[index..]);
      if after[index] == "--" {
        remaining := remaining + after[index..];
        return;
      }
      var (n, global) := ConsumeOne(after[index..]);
      var tokens := after[index..index + n];
      assert after[index..][..n] == tokens && after[index..][n..] == after[index + n..];
      if global {
        hoisted := hoisted + tokens;
      } else {
        remaining := remaining + tokens;
      }
      index := index + n;
    }
    PartStep(after[index..]);
  }
}
