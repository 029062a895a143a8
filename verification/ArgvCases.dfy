/** Each way a command line loses its meaning, or keeps it by coincidence, for all the lines of its kind. */
module ArgvCases {
  import opened Wrappers
  import opened Text
  import opened Argv
  import opened ArgvMeaning
  import opened ArgvLaws
  import opened ArgvReadings
  import opened ArgvGlued
  import opened ArgvPreservation
  import opened ArgvEquivalence

  // ----- detached values in front -----

  // A detached value in front of the subcommand is taken for the subcommand, and its option gets another one:
  // `-o json version --color never` becomes `-o --color never json version`.
  lemma DetachedValueIsSplit(o: string, value: string, subcommand: string, g: string, w: string)
    requires TakesValue(o) && TakesValue(g) && IsBare(value) && IsBare(subcommand)
    ensures var argv := [o, value, subcommand, g, w];
            Normalized(argv) == [o, g, w, value, subcommand] && !KeepsMeaning(argv)
  {
    hide TakesValue, IsFlag, ReadToken, Part, Normalized, GroupParse, Hoistable, Waits, IsBare;
    var argv := [o, value, subcommand, g, w];
    var after := [subcommand, g, w];
    PlainValueOption(o);
    PlainValueOption(g);
    BareIsNotHoistable(subcommand);
    BareIsStop(value);
    assert argv[1..][0] == value && StopIndex(argv[1..]) == 0 && StopIndex(argv) == 1;
    assert argv[2..] == after && argv[..1] == [o] && after[1..] == [g, w] && [g, w][2..] == [];
    PartByTokens(after);
    PartByTokens([g, w]);
    PartByTokens([]);
    assert [g, w] + [] == [g, w];
    assert Part(after).0 == [g, w] && Part(after).1 == [subcommand];
    NormalizedShape(argv);
    assert [o] + ([g, w] + ([value] + [subcommand])) == [o, g, w, value, subcommand];
    assert [o] + [value] + after == argv;
    assert [o][1..] == [];
    PendingDiffers([o], value, after);
  }

  lemma BareIsStop(arg: string)
    requires IsBare(arg)
    ensures IsStop(arg) && arg != "--"
  {
  }

  lemma PlainValueOption(o: string)
    requires TakesValue(o)
    ensures !IsStop(o) && o != "--" && Waits(o) && ReadToken(o) == Awaiting([], o)
  {
    hide TakesValue, IsFlag, ReadToken, IsStop;
    OptionNames(o);
    NameOfPlain(o);
    NamedReads(o);
  }

  // ----- glued globals behind the subcommand -----

  // A short option with its value in the same token is read in front of the subcommand and not behind it.
  lemma GluedValueIsLost(o: string, value: string, subcommand: string)
    requires TakesValue(o) && |o| == 2 && value != "" && value[0] != '=' && IsBare(subcommand)
    ensures var bound := [Binding(o, Some(value))];
            && Glued(o + value) && Normalized([subcommand, o + value]) == [subcommand, o + value]
            && GroupParse([o + value, subcommand], false) == Dispatch(bound, subcommand, [])
            && GroupParse([subcommand, o + value], true) == Dispatch(bound, subcommand, [])
            && GroupParse([subcommand, o + value], false) == Dispatch([], subcommand, [o + value])
    ensures !KeepsMeaning([subcommand, o + value])
  {
    hide TakesValue, IsFlag, ReadToken, Part, InPlace, GroupParse, Hoistable, Waits, IsBare, IsStop, Normalized;
    var g := o + value;
    GluedValueReads(o, value);
    ConsumedByTokens([g]);
    BareIsStop(subcommand);
    var argv, front := [subcommand, g], [g, subcommand];
    assert argv[1..] == [g] && [g][1..] == [] && front[1..] == [subcommand] && [subcommand][1..] == [];
    assert StopIndex(argv) == 0;
    PartByTokens([g]);
    PartByTokens([]);
    NormalizedShape(argv);
    assert [] + ([] + ([subcommand] + [g])) == argv && argv[..0] == [];
    AtSubcommand(argv, true);
    AtSubcommand(argv, false);
    AtSubcommand([subcommand], false);
    InPlaceReads([g]);
    InPlaceEnds([]);
    GlobalIsRead(g);
    ParseOption(front, false);
  }

  lemma GluedValueReads(o: string, value: string)
    requires TakesValue(o) && |o| == 2 && value != "" && value[0] != '='
    ensures var g := o + value;
            g != "--" && ReadToken(g) == Complete([Binding(o, Some(value))]) && ReadsAsGlobal(g) && Glued(g)
                && !Waits(g)
  {
    hide TakesValue, IsFlag;
    var g := o + value;
    OptionNames(o);
    ShortOption(o);
    assert g[1..][1..] == value && ['-', g[1..][0]] == o;
    NameOfPlain(g);
    if TakesValue(Name(g)) || IsFlag(Name(g)) {
      OptionNames(Name(g));
    }
  }

  lemma ShortOption(o: string)
    requires TakesValue(o) && |o| == 2
    ensures o[0] == '-' && o[1] != '-' && o[1] != 'v' && o[1] != '='
  {
  }

  // `build -ojson` means something else than `-ojson build`, and hoisting does not change that.
  lemma GluedOutputIsLost()
    ensures var bound := [Binding("-o", Some("json"))];
            && Normalized(["build", "-ojson"]) == ["build", "-ojson"]
            && GroupParse(["-ojson", "build"], false) == Dispatch(bound, "build", [])
            && GroupParse(["build", "-ojson"], false) == Dispatch([], "build", ["-ojson"])
    ensures !KeepsMeaning(["build", "-ojson"])
  {
    hide GroupParse, Normalized, KeepsMeaning, ReadsAsGlobal;
    assert "-o" + "json" == "-ojson" && "build"[0] == 'b';
    GluedValueIsLost("-o", "json", "build");
  }

  // ----- `name=` behind the subcommand -----

  // Tokens that both readings pass in step, down to the last.
  predicate InStep(tokens: seq<string>) {
    tokens == [] ||
    (&& tokens[0] != "--" && !Glued(tokens[0]) && !FlagWithValue(tokens[0])
     && if EmptyInline(tokens[0]) then
          && |tokens| > 1 && tokens[1] != "--" && !IsBare(tokens[1])
          && ReadsAsGlobal(tokens[1]) && ReadToken(tokens[1]).Complete? && InStep(tokens[2..])
        else if Waits(tokens[0]) then |tokens| > 1 && InStep(tokens[2..])
        else InStep(tokens[1..]))
  }

  // Those of them that are left to the subcommand.
  function Passed(tokens: seq<string>): seq<string>
    requires InStep(tokens)
  {
    if tokens == [] then []
    else if EmptyInline(tokens[0]) || Waits(tokens[0]) then Passed(tokens[2..])
    else if Hoistable(tokens[0]) then Passed(tokens[1..])
    else [tokens[0]] + Passed(tokens[1..])
  }

  lemma {:induction false} JudgedAfterStep(subcommand: string, left: seq<string>, tokens: seq<string>,
      rest: seq<string>)
    requires InStep(tokens)
    ensures Judge(subcommand, left, tokens + rest) == Judge(subcommand, left + Passed(tokens), rest)
    decreases |tokens|
  {
    hide Waits, Hoistable, ReadsAsGlobal, ReadToken, FlagWithValue, EmptyInline, IsBare, NothingToRead;
    hide NothingToHoist, AllAre;
    hide Overhangs, JudgeWaiting;
    var all := tokens + rest;
    if tokens == [] {
      assert all == rest && left + [] == left;
    } else if EmptyInline(tokens[0]) {
      EmptyFacts(tokens[0]);
      JudgedEmpty(subcommand, left, all);
      assert all[2..] == tokens[2..] + rest;
      JudgedAfterStep(subcommand, left, tokens[2..], rest);
    } else if Waits(tokens[0]) {
      assert all[2..] == tokens[2..] + rest;
      JudgedAfterStep(subcommand, left, tokens[2..], rest);
    } else if Hoistable(tokens[0]) {
      assert all[1..] == tokens[1..] + rest;
      JudgedAfterStep(subcommand, left, tokens[1..], rest);
    } else {
      assert all[1..] == tokens[1..] + rest;
      JudgedAfterStep(subcommand, left + [tokens[0]], tokens[1..], rest);
      assert left + [tokens[0]] + Passed(tokens[1..]) == left + Passed(tokens);
    }
  }

  // The line reaches its subcommand, and both readings pass `tokens` behind it in step.
  predicate Arrives(argv: seq<string>, tokens: seq<string>, rest: seq<string>) {
    var k := StopIndex(argv);
    && k < |argv| && argv[k] != "--" && !Pending(argv) && !Rejects(argv[..k])
    && InStep(tokens) && argv[k + 1..] == tokens + rest
  }

  lemma JudgedOnArrival(argv: seq<string>, tokens: seq<string>, rest: seq<string>)
    requires Arrives(argv, tokens, rest)
    ensures Judgement(argv) == Judge(argv[StopIndex(argv)], Passed(tokens), rest)
  {
    hide Judge, StopIndex, Pending, Rejects, InStep, Passed;
    JudgedAfterStep(argv[StopIndex(argv)], [], tokens, rest);
    assert [] + Passed(tokens) == Passed(tokens);
  }

  /** A `name=` that ends the line, or stands in front of `--` or of an option that is no global, always changes
      the meaning, whatever precedes it in step and whatever follows. */
  lemma EmptyInlineChangesMeaning(argv: seq<string>, tokens: seq<string>, empty: string, rest: seq<string>)
    requires Arrives(argv, tokens, [empty] + rest) && empty != "--" && EmptyInline(empty)
    requires rest == [] || rest[0] == "--" || (!IsBare(rest[0]) && !ReadsAsGlobal(rest[0]))
    ensures !KeepsMeaning(argv)
  {
    hide Judge, StopIndex, Pending, Rejects, Judgement, KeepsMeaning, ReadsAsGlobal, IsBare, EmptyInline;
    hide Passed, InStep;
    JudgedOnArrival(argv, tokens, [empty] + rest);
    HoistingKeepsMeaningExactlyWhen(argv);
    var sub, left := argv[StopIndex(argv)], Passed(tokens);
    if rest == [] {
      JudgedLast(sub, left, [empty] + rest);
    } else {
      assert ([empty] + rest)[1] == rest[0];
      JudgedEmpty(sub, left, [empty] + rest);
    }
  }

  lemma JudgedLast(subcommand: string, left: seq<string>, after: seq<string>)
    requires |after| == 1 && after[0] != "--" && EmptyInline(after[0])
    ensures Judge(subcommand, left, after) == Changed
  {
  }

  /** In front of a bare token it changes the meaning too, except in the coincidence that this token and everything
      left before it are spelled like the subcommand and nothing global follows. */
  lemma EmptyInlineSwallowsNext(argv: seq<string>, tokens: seq<string>, empty: string, next: string, rest: seq<string>)
    requires Arrives(argv, tokens, [empty, next] + rest) && empty != "--" && EmptyInline(empty) && IsBare(next)
    ensures KeepsMeaning(argv) <==>
              var sub := argv[StopIndex(argv)];
              next == sub && AllAre(Passed(tokens), sub) && NothingToHoist(rest) && NothingToRead(rest)
  {
    hide Judge, StopIndex, Pending, Rejects, Judgement, KeepsMeaning, ReadsAsGlobal, IsBare, EmptyInline;
    hide Passed, InStep;
    hide NothingToHoist, NothingToRead, AllAre;
    BareIsStop(next);
    var after := [empty, next] + rest;
    JudgedOnArrival(argv, tokens, after);
    HoistingKeepsMeaningExactlyWhen(argv);
    assert after[1] == next && after[2..] == rest;
    JudgedEmpty(argv[StopIndex(argv)], Passed(tokens), after);
  }

  /** In front of globals that wait for a value, what follows decides: nothing, `--` or a last value option changes the
      meaning, a hoisted flag is taken by both readings, and any other token is confused with the subcommand. */
  lemma EmptyInlineHoistsWaiting(argv: seq<string>, tokens: seq<string>, empty: string, next: string, rest: seq<string>)
    requires Arrives(argv, tokens, [empty, next] + rest) && empty != "--" && EmptyInline(empty)
    requires ReadsAsGlobal(next) && ReadToken(next).Awaiting?
    ensures rest == [] || rest[0] == "--" || (|rest| == 1 && Waits(rest[0])) ==> !KeepsMeaning(argv)
    ensures rest != [] && Hoistable(rest[0]) && !Waits(rest[0]) ==>
              var verdict := Judge(argv[StopIndex(argv)], Passed(tokens), rest[1..]);
              (verdict.Kept? ==> KeepsMeaning(argv)) && (verdict.Changed? ==> !KeepsMeaning(argv))
    ensures rest != [] && rest[0] != "--" && !Hoistable(rest[0]) ==>
              (KeepsMeaning(argv) <==> JudgeMistaken(argv[StopIndex(argv)], Passed(tokens), rest[0], rest[1..]).Kept?)
  {
    hide Judge, StopIndex, Pending, Rejects, Judgement, KeepsMeaning, ReadsAsGlobal, ReadToken, IsBare, EmptyInline;
    hide Passed, InStep, Hoistable, Waits, NothingToHoist, NothingToRead, AllAre;
    GlobalIsRead(next);
    StopTokens(next);
    var after := [empty, next] + rest;
    JudgedOnArrival(argv, tokens, after);
    HoistingKeepsMeaningExactlyWhen(argv);
    assert after[1] == next && after[2..] == rest;
    JudgedEmpty(argv[StopIndex(argv)], Passed(tokens), after);
    if rest != [] {
      ConsumedByTokens(rest);
      if Hoistable(rest[0]) { HoistableReads(rest[0]); }
    }
  }

  // For instance, the outcome can turn on spelling: `build --output= -o json` keeps its meaning
  // exactly if the subcommand is itself `json`.
  lemma EmptyInlineBeforeWaiting(subcommand: string, empty: string, o: string, value: string)
    requires IsBare(subcommand) && IsBare(value) && EmptyInline(empty) && TakesValue(o)
    ensures KeepsMeaning([subcommand, empty, o, value]) <==> value == subcommand
  {
    hide TakesValue, IsFlag, ReadToken, Part, InPlace, GroupParse, Hoistable, Waits, IsBare, IsStop;
    hide Normalized, EmptyInline, ReadsAsGlobal;
    var argv, after := [subcommand, empty, o, value], [empty, o, value];
    EmptyFacts(empty);
    StopTokens(empty);
    PlainValueOption(o);
    BareIsStop(subcommand);
    BareIsNotHoistable(value);
    BareIsNotRead(value);
    assert argv[1..] == after && after[2..] == [value] && after[1..] == [o, value];
    assert [value][1..] == [] && [o, value][2..] == [];
    assert StopIndex(argv) == 0 && argv[..0] == [];
    PartByTokens(after);
    PartByTokens([value]);
    PartByTokens([]);
    assert [empty, o] + [] == [empty, o];
    NormalizedShape(argv);
    var line := [empty, o, subcommand, value];
    assert [] + ([empty, o] + ([subcommand] + [value])) == line;
    ParseOption(line, false);
    assert line[1..] == [o, subcommand, value];
    ParseOption(line[1..], false);
    assert line[1..][2..] == [value];
    AtSubcommand([value], false);
    AtSubcommand(argv, true);
    InPlaceReads(after);
    PlainReadsAsGlobal(o);
    InPlaceWaits([o, value]);
    InPlaceEnds([]);
    var bs := ReadToken(empty).bindings;
    GlobalIsRead(empty);
    assert [] + [Binding(o, Some(value))] + [] == [Binding(o, Some(value))];
    assert InPlace(after) == (bs + [Binding(o, Some(value))], []);
    assert [] + [Binding(o, Some(subcommand))] + [] == [Binding(o, Some(subcommand))];
    var first, second := Dispatch([Binding(o, Some(subcommand))], value, []),
        Dispatch([Binding(o, Some(value))], subcommand, []);
    assert GroupParse(line[1..], false) == first;
    PrependInjective(bs, first, second);
    assert GroupParse(argv, true) == Prepend(bs, second);
    assert Normalized(argv) == line;
    assert GroupParse(line, false) == Prepend(bs, first);
    assert first == second <==> value == subcommand;
  }

  lemma PlainReadsAsGlobal(o: string)
    requires TakesValue(o)
    ensures ReadsAsGlobal(o)
  {
    hide TakesValue, IsFlag, ReadToken, IsStop;
    PlainValueOption(o);
  }

  // ----- the lines left open -----

  lemma NoLongShortName(name: string)
    requires |name| == 3 && name[1] != '-'
    ensures !TakesValue(name) && !IsFlag(name)
  {
    hide TakesValue, IsFlag;
    if TakesValue(name) || IsFlag(name) {
      OptionNames(name);
    }
  }

  // A flag glued to `-o=`.
  lemma FlagBeforeOutput(flag: string)
    requires |flag| == 1 && IsFlag("-" + flag) && !TakesValue("-" + flag) && flag != "-" && flag != "="
    ensures var g := "-" + flag + "o=";
            && g != "--" && Glued(g) && !Waits(g)
            && ReadToken(g) == Complete([Binding("-" + flag, None), Binding("-o", Some("="))])
  {
    hide TakesValue, IsFlag;
    var name := "-" + flag + "o";
    var g := "-" + flag + "o=";
    assert g == name + ['='] + "";
    assert '=' !in name;
    PartitionAt(name, "", '=');
    NoLongShortName(name);
    OutputTakesValue();
    var chars := g[1..];
    assert chars[0] == flag[0] && chars[1..] == "o=" && "o="[1..] == "=" && "o="[0] == 'o';
    assert ['-', 'o'] == "-o" && ['-', chars[0]] == "-" + flag;
    assert ReadCluster("o=") == Complete([Binding("-o", Some("="))]);
    assert g[0] == '-' && g[1] == flag[0] && g[2] == 'o';
  }

  lemma OutputTakesValue()
    ensures TakesValue("-o")
  {
  }

  const EMPTY_OUTPUT := Binding("-o", Some("="))
  const VERBOSE := Binding("-v", None)

  lemma OpenTokens()
    ensures Hoistable("-v") && !Waits("-v") && ReadsAsGlobal("-v") && ReadToken("-v") == Complete([VERBOSE])
              && !IsStop("-v")
    ensures Waits("-o=") && ReadsAsGlobal("-o=") && ReadToken("-o=") == Complete([EMPTY_OUTPUT]) && !IsStop("-o=")
    ensures ReadsAsGlobal("-vo") && ReadToken("-vo") == Awaiting([VERBOSE], "-o") && !IsStop("-vo")
    ensures IsBare("=") && "=" != "--" && "-v" != "--" && "-o=" != "--" && "-vo" != "--"
  {
    hide TakesValue, IsFlag;
    OutputTakesValue();
    VerboseIsFlag();
    PartitionNone("-v", '=');
    PartitionAt("-o", "", '=');
    assert "-o=" == "-o" + ['='] + "";
    assert ['-', 'o'] == "-o" && ['-', 'v'] == "-v";
    assert "-v"[1..] == "v" && "v"[1..] == "" && "-o="[1..] == "o=" && "o="[1..] == "=";
    assert "-vo"[1..] == "vo" && "vo"[1..] == "o" && "o"[1..] == "";
    assert ReadCluster("o") == Awaiting([], "-o");
    assert ReadCluster("") == Complete([]);
    assert "-v"[1] == 'v' && "-o="[1] == 'o' && "-vo"[1] == 'v' && "="[0] == '=';
  }

  lemma VerboseIsFlag()
    ensures IsFlag("-v") && !TakesValue("-v")
  {
  }

  // The normaliser hoists `-v -o= -vo`; the parser reads the subcommand `=` for the last one's value.
  lemma OpenPart()
    ensures Part(["-v", "-o=", "-vo", "="]) == (["-v", "-o=", "-vo"], ["="])
  {
    hide TakesValue, IsFlag, ReadToken, ReadsAsGlobal, Hoistable, Waits, Part, IsStop, IsBare;
    OpenTokens();
    BareIsNotHoistable("=");
    assert ["-v", "-o=", "-vo", "="][1..] == ["-o=", "-vo", "="];
    assert ["-o=", "-vo", "="][2..] == ["="] && ["="][1..] == [];
    assert ["="] + [] == ["="] && ["-o=", "-vo"] + [] == ["-o=", "-vo"]
        && ["-v"] + ["-o=", "-vo"] == ["-v", "-o=", "-vo"];
    PartByTokens([]);
    PartByTokens(["="]);
    assert Part(["="]) == ([], ["="]);
    PartByTokens(["-o=", "-vo", "="]);
    assert Part(["-o=", "-vo", "="]) == (["-o=", "-vo"], ["="]);
    PartByTokens(["-v", "-o=", "-vo", "="]);
  }

  lemma OpenHoisted(flag: string)
    requires |flag| == 1 && IsFlag("-" + flag) && !TakesValue("-" + flag) && flag != "-" && flag != "="
    ensures var g := "-" + flag + "o=";
            Part([g, "-v", "-o=", "-vo", "="]) == (["-v", "-o=", "-vo"], [g, "="])
  {
    hide TakesValue, IsFlag, ReadToken, ReadsAsGlobal, Hoistable, Waits, Part, IsStop, IsBare, Glued;
    var g := "-" + flag + "o=";
    FlagBeforeOutput(flag);
    GluedIsLeft(g);
    OpenPart();
    var after := [g, "-v", "-o=", "-vo", "="];
    assert after[1..] == ["-v", "-o=", "-vo", "="] && [g] + ["="] == [g, "="];
    PartByTokens(after);
  }

  lemma GluedIsLeft(arg: string)
    requires Glued(arg)
    ensures !Hoistable(arg) && ReadsAsGlobal(arg)
  {
  }

  lemma OpenInPlace(flag: string)
    requires |flag| == 1 && IsFlag("-" + flag) && !TakesValue("-" + flag) && flag != "-" && flag != "="
    ensures InPlace(["-" + flag + "o=", "-v", "-o=", "-vo", "="])
         == ([Binding("-" + flag, None), EMPTY_OUTPUT, VERBOSE, EMPTY_OUTPUT, VERBOSE, EMPTY_OUTPUT], [])
  {
    hide TakesValue, IsFlag, ReadToken, ReadsAsGlobal, Hoistable, Waits, InPlace, IsStop, IsBare, Glued;
    var g := "-" + flag + "o=";
    FlagBeforeOutput(flag);
    GluedIsLeft(g);
    OpenTokens();
    var after := [g, "-v", "-o=", "-vo", "="];
    assert after[1..] == ["-v", "-o=", "-vo", "="] && after[1..][1..] == ["-o=", "-vo", "="];
    assert ["-o=", "-vo", "="][1..] == ["-vo", "="] && ["-vo", "="][2..] == [];
    var (v, e) := ([VERBOSE], [EMPTY_OUTPUT]);
    assert v + e + [] == [VERBOSE, EMPTY_OUTPUT];
    assert e + [VERBOSE, EMPTY_OUTPUT] == [EMPTY_OUTPUT, VERBOSE, EMPTY_OUTPUT];
    assert v + [EMPTY_OUTPUT, VERBOSE, EMPTY_OUTPUT] == [VERBOSE, EMPTY_OUTPUT, VERBOSE, EMPTY_OUTPUT];
    assert [Binding("-" + flag, None), EMPTY_OUTPUT] + [VERBOSE, EMPTY_OUTPUT, VERBOSE, EMPTY_OUTPUT]
        == [Binding("-" + flag, None), EMPTY_OUTPUT, VERBOSE, EMPTY_OUTPUT, VERBOSE, EMPTY_OUTPUT];
    InPlaceEnds([]);
    InPlaceWaits(["-vo", "="]);
    assert InPlace(["-vo", "="]) == ([VERBOSE, EMPTY_OUTPUT], []);
    InPlaceReads(["-o=", "-vo", "="]);
    assert InPlace(["-o=", "-vo", "="]) == ([EMPTY_OUTPUT, VERBOSE, EMPTY_OUTPUT], []);
    InPlaceReads(["-v", "-o=", "-vo", "="]);
    assert InPlace(after[1..]) == ([VERBOSE, EMPTY_OUTPUT, VERBOSE, EMPTY_OUTPUT], []);
    InPlaceReads(after);
  }

  lemma OpenParsed(flag: string)
    requires |flag| == 1 && IsFlag("-" + flag) && !TakesValue("-" + flag) && flag != "-" && flag != "="
    ensures GroupParse(["-v", "-o=", "-vo", "=", "-" + flag + "o=", "="], false)
         == Dispatch([VERBOSE, EMPTY_OUTPUT, VERBOSE, EMPTY_OUTPUT, Binding("-" + flag, None), EMPTY_OUTPUT], "=", [])
  {
    hide TakesValue, IsFlag, ReadToken, ReadsAsGlobal, Hoistable, Waits, GroupParse, IsStop, IsBare, Glued;
    var g := "-" + flag + "o=";
    FlagBeforeOutput(flag);
    GluedIsLeft(g);
    GlobalIsRead(g);
    OpenTokens();
    var line := ["-v", "-o=", "-vo", "=", g, "="];
    assert line[1..] == ["-o=", "-vo", "=", g, "="] && line[1..][1..] == ["-vo", "=", g, "="];
    assert ["-vo", "=", g, "="][2..] == [g, "="] && [g, "="][1..] == ["="] && ["="][1..] == [];
    AtSubcommand(["="], false);
    ParseOption([g, "="], false);
    ParseOption(["-vo", "=", g, "="], false);
    ParseOption(["-o=", "-vo", "=", g, "="], false);
    ParseOption(line, false);
  }

  lemma OpenJudged(flag: string)
    requires |flag| == 1 && IsFlag("-" + flag) && !TakesValue("-" + flag) && flag != "-" && flag != "="
    ensures Judgement(["=", "-" + flag + "o=", "-v", "-o=", "-vo", "="]) == Undecided
  {
    hide TakesValue, IsFlag, ReadToken, ReadsAsGlobal, Hoistable, Waits, IsStop, IsBare, Glued, StopIndex, Judge;
    hide LeavesOptionWaiting, EmptyInline, Overhangs, FlagWithValue, NothingToHoist, NothingToRead, BehindSubcommand;
    var g := "-" + flag + "o=";
    var argv, after := ["=", g, "-v", "-o=", "-vo", "="], [g, "-v", "-o=", "-vo", "="];
    OpenTokens();
    StopsAtOnce("=", after);
    assert argv == ["="] + after && argv[1..] == after && argv[..0] == [];
    NothingWaits();
    FlagBeforeOutput(flag);
    GluedIsLeft(g);
    OpenOverhangs();
    assert after[1..] == ["-v", "-o=", "-vo", "="] && after[4] == "=";
    GluedIsJudged("=", after);
  }

  lemma NothingWaits()
    ensures !LeavesOptionWaiting([]) && !Rejects([])
  {
  }

  lemma GluedIsJudged(subcommand: string, after: seq<string>)
    requires after != [] && after[0] != "--" && Glued(after[0]) && |after| > 1
    requires subcommand in after && Overhangs(after[1..], false)
    ensures Judge(subcommand, [], after) == Undecided
  {
    hide Hoistable, ReadsAsGlobal, Overhangs;
    NotNamed(after[0]);
  }

  lemma OpenOverhangs()
    ensures Overhangs(["-v", "-o=", "-vo", "="], false)
  {
    hide TakesValue, IsFlag, ReadToken, ReadsAsGlobal, Hoistable, Waits, IsStop, IsBare, FlagWithValue;
    hide EmptyInline, Part;
    OpenTokens();
    VerboseIsFlag();
    OpenPart();
    OverhangsExactlyWhen(["-v", "-o=", "-vo", "="], false);
    assert ["-v", "-o=", "-vo"][1..] == ["-o=", "-vo"] && ["-o=", "-vo"][1..] == ["-vo"];
    assert Dangles(["-vo"]);
    assert Dangles(["-o=", "-vo"]);
  }

  /** The lines the walk leaves open do go both ways: `= -vo= -v -o= -vo =` keeps its meaning by coincidence, and with
      any other flag glued to `-o=` the same line does not. */
  lemma OpenLinesGoBothWays(flag: string)
    requires |flag| == 1 && IsFlag("-" + flag) && !TakesValue("-" + flag) && flag != "-" && flag != "="
    ensures KeepsMeaning(["=", "-" + flag + "o=", "-v", "-o=", "-vo", "="]) <==> flag == "v"
    ensures Judgement(["=", "-" + flag + "o=", "-v", "-o=", "-vo", "="]) == Undecided
  {
    hide TakesValue, IsFlag, ReadToken, ReadsAsGlobal, Part, InPlace, GroupParse, IsBare, StopIndex, Normalized;
    var g := "-" + flag + "o=";
    var argv, after := ["=", g, "-v", "-o=", "-vo", "="], [g, "-v", "-o=", "-vo", "="];
    OpenTokens();
    StopsAtOnce("=", after);
    assert argv == ["="] + after && argv[1..] == after && argv[..0] == [];
    OpenHoisted(flag);
    OpenInPlace(flag);
    OpenParsed(flag);
    OpenJudged(flag);
    NormalizedShape(argv);
    assert [] + (["-v", "-o=", "-vo"] + (["="] + [g, "="])) == ["-v", "-o=", "-vo", "=", g, "="];
    AtSubcommand(argv, true);
    assert Normalized(argv) == ["-v", "-o=", "-vo", "=", g, "="];
    var p, q := GroupParse(Normalized(argv), false), GroupParse(argv, true);
    assert q == Dispatch(InPlace(after).0, "=", []);
    assert p.bindings[0] == VERBOSE && q.bindings[0] == Binding("-" + flag, None);
    assert flag == [flag[0]] && ("-" + flag)[1] == flag[0] && "-v"[1] == 'v';
    if flag == "v" {
      assert "-" + flag == "-v";
      assert p == q;
    } else {
      assert flag[0] != 'v';
    }
  }

  lemma StopsAtOnce(subcommand: string, after: seq<string>)
    requires IsBare(subcommand)
    ensures StopIndex([subcommand] + after) == 0 && ([subcommand] + after)[0] != "--"
  {
    BareIsStop(subcommand);
  }
}
