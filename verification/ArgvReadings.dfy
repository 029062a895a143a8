/**
 The two readings of what stands behind a subcommand: as the normaliser hoists it, and with globals read in place.
 */
module ArgvReadings {
  import opened Wrappers
  import opened Argv
  import opened ArgvMeaning
  import opened ArgvLaws

  function HoistedReading(subcommand: string, left: seq<string>, after: seq<string>): Parse {
    GroupParse(Part(after).0 + ([subcommand] + (left + Part(after).1)), false)
  }

  function InPlaceReading(subcommand: string, left: seq<string>, after: seq<string>): Parse {
    Dispatch(InPlace(after).0, subcommand, left + InPlace(after).1)
  }

  predicate SameReading(subcommand: string, left: seq<string>, after: seq<string>) {
    HoistedReading(subcommand, left, after) == InPlaceReading(subcommand, left, after)
  }

  // ----- reading in place -----

  lemma InPlaceStep(after: seq<string>)
    requires after != [] && after[0] != "--"
    ensures !ReadsAsGlobal(after[0]) ==> InPlace(after) == (InPlace(after[1..]).0, [after[0]] + InPlace(after[1..]).1)
    ensures ReadsAsGlobal(after[0]) && ReadToken(after[0]).Complete? ==>
              InPlace(after) == (ReadToken(after[0]).bindings + InPlace(after[1..]).0, InPlace(after[1..]).1)
    ensures ReadsAsGlobal(after[0]) && ReadToken(after[0]).Awaiting? && |after| == 1 ==> InPlace(after) == ([], after)
    ensures ReadsAsGlobal(after[0]) && ReadToken(after[0]).Awaiting? && |after| > 1 ==>
              InPlace(after) == (ReadToken(after[0]).bindings + [Binding(ReadToken(after[0]).option, Some(after[1]))]
                                 + InPlace(after[2..]).0, InPlace(after[2..]).1)
  {
    hide ReadToken, ReadsAsGlobal, InPlace;
    if !ReadsAsGlobal(after[0]) {
      InPlaceSkips(after);
    } else if ReadToken(after[0]).Complete? {
      InPlaceReads(after);
    } else if ReadToken(after[0]).Awaiting? {
      InPlaceWaits(after);
    }
  }

  lemma InPlaceSkips(after: seq<string>)
    requires after != [] && after[0] != "--" && !ReadsAsGlobal(after[0])
    ensures InPlace(after) == (InPlace(after[1..]).0, [after[0]] + InPlace(after[1..]).1)
  {
    hide ReadToken, ReadsAsGlobal;
  }

  lemma InPlaceReads(after: seq<string>)
    requires after != [] && after[0] != "--" && ReadsAsGlobal(after[0]) && ReadToken(after[0]).Complete?
    ensures InPlace(after) == (ReadToken(after[0]).bindings + InPlace(after[1..]).0, InPlace(after[1..]).1)
  {
    hide ReadToken, ReadsAsGlobal;
  }

  lemma InPlaceWaits(after: seq<string>)
    requires after != [] && after[0] != "--" && ReadsAsGlobal(after[0]) && ReadToken(after[0]).Awaiting?
    ensures |after| == 1 ==> InPlace(after) == ([], after)
    ensures |after| > 1 ==>
              InPlace(after) == (ReadToken(after[0]).bindings + [Binding(ReadToken(after[0]).option, Some(after[1]))]
                                 + InPlace(after[2..]).0, InPlace(after[2..]).1)
  {
    hide ReadToken, ReadsAsGlobal;
  }

  lemma InPlaceEnds(after: seq<string>)
    requires after == [] || after[0] == "--"
    ensures InPlace(after) == ([], after)
  {
  }

  lemma GlobalIsRead(arg: string)
    requires ReadsAsGlobal(arg)
    ensures ReadToken(arg).Complete? || ReadToken(arg).Awaiting?
    ensures !IsStop(arg)
  {
  }

  lemma StopTokens(arg: string)
    requires !IsStop(arg)
    ensures arg != "--" && !IsBare(arg)
  {
  }

  lemma NoStop(arg: string)
    requires arg != "--" && !IsBare(arg)
    ensures !IsStop(arg)
  {
  }

  lemma FlagIsNotRead(arg: string)
    requires ReadToken(arg) == Invalid
    ensures !ReadsAsGlobal(arg)
  {
  }

  lemma BareIsNotRead(x: string)
    requires IsBare(x)
    ensures !ReadsAsGlobal(x)
  {
  }

  // No token in front of the first `--` is a global to the parser, apart from a waiting one at the very end.
  predicate NothingToRead(after: seq<string>) {
    after == [] || after[0] == "--"
    || (if ReadsAsGlobal(after[0]) then ReadToken(after[0]).Awaiting? && |after| == 1 else NothingToRead(after[1..]))
  }

  lemma {:induction false} NothingReadExactlyWhen(after: seq<string>)
    ensures InPlace(after).0 == [] <==> NothingToRead(after)
    ensures NothingToRead(after) ==> InPlace(after).1 == after
  {
    hide ReadToken, ReadsAsGlobal;
    if after != [] && after[0] != "--" {
      InPlaceStep(after);
      if ReadsAsGlobal(after[0]) {
        GlobalBinds(after[0]);
        GlobalIsRead(after[0]);
      } else {
        NothingReadExactlyWhen(after[1..]);
      }
    }
  }

  lemma {:induction false} InPlaceBindsGlobals(after: seq<string>)
    ensures AllGlobal(InPlace(after).0)
    ensures |InPlace(after).1| <= |after|
    decreases |after|
  {
    hide ReadToken;
    if after != [] && after[0] != "--" {
      InPlaceStep(after);
      if !ReadsAsGlobal(after[0]) || ReadToken(after[0]).Complete? {
        InPlaceBindsGlobals(after[1..]);
      } else if |after| > 1 {
        InPlaceBindsGlobals(after[2..]);
        AwaitedIsGlobal(after[0]);
      }
    }
  }

  lemma AwaitedIsGlobal(arg: string)
    ensures ReadToken(arg).Awaiting? ==> IsGlobalOption(ReadToken(arg).option)
  {
    if !("--" <= arg) && arg != "" {
      AwaitedInCluster(arg[1..]);
    }
  }

  lemma {:induction false} AwaitedInCluster(chars: string)
    ensures ReadCluster(chars).Awaiting? ==> IsGlobalOption(ReadCluster(chars).option)
  {
    if chars != "" {
      AwaitedInCluster(chars[1..]);
    }
  }

  // ----- tokens left behind in both readings -----

  // Neither hoisted nor read: the kind of token that gets left behind in both readings.
  predicate Inert(tokens: seq<string>) {
    forall i :: 0 <= i < |tokens| ==> tokens[i] != "--" && !Hoistable(tokens[i]) && !ReadsAsGlobal(tokens[i])
  }

  lemma LeftGrows(left: seq<string>, arg: string)
    requires arg != "--" && !Hoistable(arg) && !ReadsAsGlobal(arg) && Inert(left)
    ensures Inert(left + [arg])
  {
    hide Hoistable, ReadsAsGlobal;
  }

  lemma InertIsNotHoistable(left: seq<string>)
    requires Inert(left)
    ensures forall i :: 0 <= i < |left| ==> !Hoistable(left[i])
  {
  }

  predicate AllAre(tokens: seq<string>, token: string) {
    forall i :: 0 <= i < |tokens| ==> tokens[i] == token
  }

  lemma Rotates(left: seq<string>, x: string, rest: seq<string>)
    ensures [x] + (left + rest) == left + ([x] + rest) <==> AllAre(left, x)
  {
    var a, b := [x] + (left + rest), left + ([x] + rest);
    if AllAre(left, x) {
      forall i | 0 <= i < |a|
        ensures a[i] == b[i]
      {
        if i < |left| {
          assert b[i] == left[i] && (i > 0 ==> a[i] == left[i - 1]);
        } else if i == |left| {
          assert b[i] == x && (i > 0 ==> a[i] == left[i - 1]);
        } else {
          assert a[i] == rest[i - 1 - |left|] == b[i];
        }
      }
      assert a == b;
    }
    if a == b {
      SameShifted(left, x, rest, |left|);
    }
  }

  lemma {:induction false} SameShifted(left: seq<string>, x: string, rest: seq<string>, n: nat)
    requires [x] + (left + rest) == left + ([x] + rest) && n <= |left|
    ensures forall i :: 0 <= i < n ==> left[i] == x
  {
    if n > 0 {
      SameShifted(left, x, rest, n - 1);
      assert ([x] + (left + rest))[n - 1] == if n == 1 then x else left[n - 2];
      assert (left + ([x] + rest))[n - 1] == left[n - 1];
    }
  }

  // ----- parses -----

  lemma PrependInjective(bs: seq<Binding>, p: Parse, q: Parse)
    ensures Prepend(bs, p) == Prepend(bs, q) <==> p == q
  {
    if bs + p.bindings == bs + q.bindings {
      assert p.bindings == (bs + p.bindings)[|bs|..] == (bs + q.bindings)[|bs|..] == q.bindings;
    }
  }

  lemma AtSubcommand(argv: seq<string>, anywhere: bool)
    requires argv != [] && IsBare(argv[0]) && argv[0] != "--"
    ensures GroupParse(argv, anywhere)
         == if anywhere then InPlaceReading(argv[0], [], argv[1..]) else Dispatch([], argv[0], argv[1..])
  {
    assert [] + InPlace(argv[1..]).1 == InPlace(argv[1..]).1;
  }

  lemma LiteralDispatches(argv: seq<string>)
    requires |argv| > 1 && argv[0] == "--"
    ensures GroupParse(argv, false) == Dispatch([], argv[1], argv[2..])
  {
  }

  predicate PlainDispatch(p: Parse) {
    p.Dispatch? && AllGlobal(p.bindings)
  }

  lemma PlainIsDispatch(p: Parse)
    ensures PlainDispatch(p) ==> p.Dispatch?
  {
  }

  lemma PlainStart(bs: seq<Binding>, p: Parse)
    requires PlainDispatch(Prepend(bs, p))
    ensures AllGlobal(bs) && PlainDispatch(p)
  {
    assert forall i :: 0 <= i < |bs| ==> (bs + p.bindings)[i] == bs[i];
    forall i | 0 <= i < |p.bindings|
      ensures IsGlobalOption(p.bindings[i].option)
    {
      assert (bs + p.bindings)[|bs| + i] == p.bindings[i];
    }
  }

  // A line that dispatches with nothing but globals bound starts with one, unless it starts with the subcommand.
  lemma DispatchReadsGlobal(line: seq<string>)
    requires line != [] && !IsStop(line[0]) && PlainDispatch(GroupParse(line, false))
    ensures ReadsAsGlobal(line[0])
    ensures var k := if ReadToken(line[0]).Complete? then 1 else 2;
            && k <= |line| && PlainDispatch(GroupParse(line[k..], false)) && GroupParse(line, false).Dispatch?
            && GroupParse(line, false).subcommand == GroupParse(line[k..], false).subcommand
            && GroupParse(line, false).rest == GroupParse(line[k..], false).rest
  {
    hide ReadToken, IsStop, GroupParse, AllGlobal, PlainDispatch;
    ParseOption(line, false);
    PlainIsDispatch(GroupParse(line, false));
    match ReadToken(line[0])
    case Complete(bs) =>
      PlainStart(bs, GroupParse(line[1..], false));
    case Awaiting(bs, option) =>
      if |line| > 1 {
        var awaited := [Binding(option, Some(line[1]))];
        PrependTwice(bs, awaited, GroupParse(line[2..], false));
        PlainStart(bs, Prepend(awaited, GroupParse(line[2..], false)));
        PlainStart(awaited, GroupParse(line[2..], false));
      }
    case Invalid =>
  }

  // ----- one step of both readings -----

  lemma NotNamed(arg: string)
    requires !Hoistable(arg)
    ensures !FlagWithValue(arg) && !EmptyInline(arg) && !Waits(arg)
  {
  }

  lemma EmptyFacts(arg: string)
    requires EmptyInline(arg)
    ensures Hoistable(arg) && Waits(arg) && ReadsAsGlobal(arg) && ReadToken(arg).Complete? && !IsStop(arg)
              && !FlagWithValue(arg)
  {
    hide TakesValue, IsFlag, ReadToken, IsStop, ReadsAsGlobal;
    OptionNames(Name(arg));
    HoistableReads(arg);
  }

  lemma ReadingEnds(subcommand: string, left: seq<string>, after: seq<string>)
    requires IsBare(subcommand) && subcommand != "--" && Part(after) == ([], after) && InPlace(after) == ([], after)
    ensures SameReading(subcommand, left, after)
  {
    var line := [subcommand] + (left + after);
    assert [] + line == line && line[0] == subcommand && line[1..] == left + after;
  }

  // A token that neither the normaliser nor the parser takes for a global joins those left behind.
  lemma StepLeft(subcommand: string, left: seq<string>, after: seq<string>)
    requires after != [] && after[0] != "--" && !Hoistable(after[0]) && !ReadsAsGlobal(after[0])
    ensures SameReading(subcommand, left, after) <==> SameReading(subcommand, left + [after[0]], after[1..])
  {
    hide Hoistable, Waits, ReadsAsGlobal, Part, InPlace, GroupParse;
    ConsumedByTokens(after);
    PartByTokens(after);
    InPlaceStep(after);
    assert left + ([after[0]] + Part(after[1..]).1) == left + [after[0]] + Part(after[1..]).1;
    assert left + ([after[0]] + InPlace(after[1..]).1) == left + [after[0]] + InPlace(after[1..]).1;
  }

  // A token that both read as a complete global binds the same in both readings.
  lemma StepComplete(subcommand: string, left: seq<string>, after: seq<string>)
    requires after != [] && after[0] != "--" && Hoistable(after[0]) && !Waits(after[0]) && !FlagWithValue(after[0])
    ensures SameReading(subcommand, left, after) <==> SameReading(subcommand, left, after[1..])
  {
    hide Hoistable, Waits, ReadsAsGlobal, Part, InPlace, GroupParse, ReadToken, FlagWithValue, EmptyInline;
    HoistableReads(after[0]);
    PartByTokens(after);
    InPlaceStep(after);
    var tail := [subcommand] + (left + Part(after[1..]).1);
    var line := [after[0]] + Part(after[1..]).0 + tail;
    assert line[0] == after[0] && line[1..] == Part(after[1..]).0 + tail;
    ParseOption(line, false);
    var bs := ReadToken(after[0]).bindings;
    PrependInjective(bs, HoistedReading(subcommand, left, after[1..]), InPlaceReading(subcommand, left, after[1..]));
  }

  lemma StepWaiting(subcommand: string, left: seq<string>, after: seq<string>)
    requires |after| > 1 && after[0] != "--" && Hoistable(after[0]) && Waits(after[0]) && !EmptyInline(after[0])
              && !FlagWithValue(after[0])
    ensures SameReading(subcommand, left, after) <==> SameReading(subcommand, left, after[2..])
  {
    hide Hoistable, Waits, ReadsAsGlobal, Part, InPlace, GroupParse, ReadToken, FlagWithValue, EmptyInline;
    HoistableReads(after[0]);
    PartByTokens(after);
    InPlaceStep(after);
    var tail := [subcommand] + (left + Part(after[2..]).1);
    var line := [after[0], after[1]] + Part(after[2..]).0 + tail;
    assert line[0] == after[0] && line[1] == after[1] && line[2..] == Part(after[2..]).0 + tail;
    ParseOption(line, false);
    var bs := [] + [Binding(after[0], Some(after[1]))];
    PrependInjective(bs, HoistedReading(subcommand, left, after[2..]), InPlaceReading(subcommand, left, after[2..]));
  }

  // A hoisted flag with a value is rejected in front of the subcommand, and left to the subcommand in place.
  lemma StepRejected(subcommand: string, left: seq<string>, after: seq<string>)
    requires after != [] && after[0] != "--" && Hoistable(after[0]) && FlagWithValue(after[0])
    ensures HoistedReading(subcommand, left, after) == UsageError([], after[0])
    ensures !SameReading(subcommand, left, after)
  {
    hide Hoistable, Waits, ReadsAsGlobal, Part, InPlace, GroupParse, ReadToken, FlagWithValue, EmptyInline;
    HoistableReads(after[0]);
    PartByTokens(after);
    var line := [after[0]] + Part(after[1..]).0 + ([subcommand] + (left + Part(after[1..]).1));
    assert line[0] == after[0];
    ParseOption(line, false);
  }
}
