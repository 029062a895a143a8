/**
 When hoisting preserves what stands behind a subcommand: a walk over the tokens, proved right in both directions.
 */
module ArgvPreservation {
  import opened Wrappers
  import opened Argv
  import opened ArgvMeaning
  import opened ArgvLaws
  import opened ArgvReadings
  import opened ArgvGlued

  // ----- the condition, as a walk over the tokens behind the subcommand -----

  // `Undecided` lines can go either way, depending on how unrelated tokens are spelled.
  datatype Verdict = Kept | Changed | Undecided

  // `left` are the tokens already left to the subcommand.
  function Judge(subcommand: string, left: seq<string>, after: seq<string>): Verdict
    decreases |after|, 1
  {
    if after == [] || after[0] == "--" then Kept
    else if EmptyInline(after[0]) then
      if |after| == 1 then Changed else JudgeSwallowed(subcommand, left, after[1], after[2..])
    else if FlagWithValue(after[0]) then Changed
    else if Waits(after[0]) then if |after| == 1 then Kept else Judge(subcommand, left, after[2..])
    else if Hoistable(after[0]) then Judge(subcommand, left, after[1..])
    else if !ReadsAsGlobal(after[0]) then Judge(subcommand, left + [after[0]], after[1..])
    else if ReadToken(after[0]).Awaiting? && |after| == 1 then Kept
    else if left == [] && subcommand in after && Overhangs(after[1..], false) then Undecided
    else Changed
  }

  // The token `next` was hoisted, but the parser reads it as an option or as the subcommand.
  function JudgeSwallowed(subcommand: string, left: seq<string>, next: string, rest: seq<string>): Verdict
    decreases |rest|, 2
  {
    if next == "--" then Changed
    else if IsBare(next) then JudgeMistaken(subcommand, left, next, rest)
    else if !ReadsAsGlobal(next) then Changed
    else if ReadToken(next).Awaiting? then JudgeWaiting(subcommand, left, rest)
    else Judge(subcommand, left, rest)
  }

  // A hoisted global waits for its value in front of `rest`, and takes the next hoisted token or the subcommand.
  function JudgeWaiting(subcommand: string, left: seq<string>, rest: seq<string>): Verdict
    decreases |rest|, 0
  {
    if rest == [] || rest[0] == "--" then Changed
    else if Waits(rest[0]) then
      if |rest| == 1 then Changed else JudgeSwallowed(subcommand, left, rest[1], rest[2..])
    else if Hoistable(rest[0]) then Judge(subcommand, left, rest[1..])
    else JudgeMistaken(subcommand, left, rest[0], rest[1..])
  }

  // A token and the subcommand have changed places: only the same spelling, and nothing more to read, hides it.
  function JudgeMistaken(subcommand: string, left: seq<string>, token: string, rest: seq<string>): Verdict {
    if token == subcommand && AllAre(left, subcommand) && NothingToHoist(rest) && NothingToRead(rest) then Kept
    else Changed
  }

  // ----- a global written `name=` -----

  lemma {:induction false} PartKeepsCount(after: seq<string>)
    ensures |Part(after).0| + |Part(after).1| == |after|
    decreases |after|
  {
    hide ConsumeOne;
    if after != [] && after[0] != "--" {
      PartKeepsCount(after[ConsumeOne(after).0..]);
    }
  }

  // The two readings of a swallowed token and what stands behind it.
  predicate SameSwallowed(subcommand: string, left: seq<string>, next: string, rest: seq<string>) {
    GroupParse([next] + (Part(rest).0 + ([subcommand] + (left + Part(rest).1))), false)
    == InPlaceReading(subcommand, left, [next] + rest)
  }

  // Both readings bind the empty value; what remains to compare starts at the swallowed token.
  lemma StepEmpty(subcommand: string, left: seq<string>, after: seq<string>)
    requires |after| > 1 && EmptyInline(after[0]) && after[0] != "--"
    ensures SameReading(subcommand, left, after) <==> SameSwallowed(subcommand, left, after[1], after[2..])
  {
    hide Hoistable, Waits, ReadsAsGlobal, Part, InPlace, GroupParse, ReadToken, FlagWithValue;
    EmptyFacts(after[0]);
    PartByTokens(after);
    InPlaceStep(after);
    var tail := Part(after[2..]).0 + ([subcommand] + (left + Part(after[2..]).1));
    var line := [after[0], after[1]] + Part(after[2..]).0 + ([subcommand] + (left + Part(after[2..]).1));
    assert line[0] == after[0] && line[1..] == [after[1]] + tail;
    assert after[1..] == [after[1]] + after[2..];
    ParseOption(line, false);
    PrependInjective(ReadToken(after[0]).bindings, GroupParse([after[1]] + tail, false),
                     InPlaceReading(subcommand, left, after[1..]));
  }

  lemma EmptyAtEnd(subcommand: string, left: seq<string>, after: seq<string>)
    requires IsBare(subcommand) && subcommand != "--" && |after| == 1 && EmptyInline(after[0]) && after[0] != "--"
    ensures !SameReading(subcommand, left, after)
  {
    hide Hoistable, Waits, ReadsAsGlobal, Part, InPlace, GroupParse, ReadToken, FlagWithValue;
    EmptyFacts(after[0]);
    PartByTokens(after);
    InPlaceStep(after);
    GlobalBinds(after[0]);
    var line := [subcommand] + (left + after);
    assert [] + line == line;
    AtSubcommand(line, false);
  }

  lemma EmptyBeforeEnd(subcommand: string, left: seq<string>, h: seq<string>, r: seq<string>, rest: seq<string>)
    requires |h| + |r| == |rest|
    ensures GroupParse(["--"] + (h + ([subcommand] + (left + r))), false)
              != InPlaceReading(subcommand, left, ["--"] + rest)
  {
    hide IsBare, ReadToken, GroupParse, InPlace;
    var line := ["--"] + (h + ([subcommand] + (left + r)));
    LiteralDispatches(line);
    InPlaceEnds(["--"] + rest);
    assert |line[2..]| == |left| + |rest|;
    assert |left + (["--"] + rest)| == |left| + 1 + |rest|;
  }

  // A swallowed bare token becomes the subcommand.
  lemma EmptyBeforeBare(subcommand: string, left: seq<string>, x: string, rest: seq<string>)
    requires IsBare(subcommand) && IsBare(x) && x != "--"
    requires forall i :: 0 <= i < |left| ==> !Hoistable(left[i])
    ensures GroupParse([x] + (Part(rest).0 + ([subcommand] + (left + Part(rest).1))), false)
              == InPlaceReading(subcommand, left, [x] + rest)
       <==> x == subcommand && AllAre(left, subcommand) && NothingToHoist(rest) && NothingToRead(rest)
  {
    hide Hoistable, Waits, ReadsAsGlobal, Part, InPlace, GroupParse, ReadToken, IsBare, NothingToHoist;
    hide NothingToRead, AllAre;
    var h, r := Part(rest).0, Part(rest).1;
    var b, q := InPlace(rest).0, InPlace(rest).1;
    var line, all := [x] + (h + ([subcommand] + (left + r))), [x] + rest;
    assert line[0] == x && line[1..] == h + ([subcommand] + (left + r)) && all[0] == x && all[1..] == rest;
    AtSubcommand(line, false);
    BareIsNotHoistable(x);
    BareIsNotRead(x);
    InPlaceStep(all);
    NothingReadExactlyWhen(rest);
    NothingHoistedExactlyWhen(rest);
    Rotates(left, subcommand, rest);
    if h == [] {
      assert h + ([subcommand] + (left + r)) == [subcommand] + (left + rest);
    } else {
      assert (h + ([subcommand] + (left + r)))[0] == h[0];
      assert (left + ([x] + q))[0] == if left == [] then x else left[0];
    }
  }

  // A swallowed option that is not made of globals is read in front of the subcommand.
  lemma EmptyBeforeOther(subcommand: string, left: seq<string>, x: string, tail: seq<string>, rest: seq<string>)
    requires !IsStop(x) && !ReadsAsGlobal(x) && tail != []
    ensures GroupParse([x] + tail, false) != InPlaceReading(subcommand, left, [x] + rest)
  {
    hide ReadToken, InPlace, GroupParse, IsStop;
    var line := [x] + tail;
    assert line[0] == x && line[1..] == tail;
    ParseOption(line, false);
    InPlaceBindsGlobals([x] + rest);
    var p := GroupParse(line, false);
    match ReadToken(x)
    case Complete(bs) =>
      var i :| 0 <= i < |bs| && !IsGlobalOption(bs[i].option);
      assert p.bindings[i] == bs[i];
    case Awaiting(bs, _) =>
      var i :| 0 <= i < |bs| && !IsGlobalOption(bs[i].option);
      assert p.bindings[i] == bs[i];
    case Invalid =>
  }

  lemma EmptyBeforeComplete(subcommand: string, left: seq<string>, x: string, rest: seq<string>)
    requires ReadsAsGlobal(x) && ReadToken(x).Complete? && x != "--"
    ensures GroupParse([x] + (Part(rest).0 + ([subcommand] + (left + Part(rest).1))), false)
              == InPlaceReading(subcommand, left, [x] + rest)
       <==> SameReading(subcommand, left, rest)
  {
    hide ReadToken, InPlace, GroupParse, IsStop, Part, ReadsAsGlobal;
    GlobalIsRead(x);
    var tail := Part(rest).0 + ([subcommand] + (left + Part(rest).1));
    var line, all := [x] + tail, [x] + rest;
    assert line[0] == x && line[1..] == tail && all[0] == x && all[1..] == rest;
    ParseOption(line, false);
    InPlaceStep(all);
    PrependInjective(ReadToken(x).bindings, GroupParse(tail, false), InPlaceReading(subcommand, left, rest));
  }

  // ----- a swallowed global that waits -----

  // It takes the next hoisted token, or the subcommand; in place it takes the next token.
  lemma StepSwallowedWaiting(subcommand: string, left: seq<string>, x: string, rest: seq<string>)
    requires ReadsAsGlobal(x) && ReadToken(x).Awaiting? && x != "--"
    ensures var tail := Part(rest).0 + ([subcommand] + (left + Part(rest).1));
            SameSwallowed(subcommand, left, x, rest) <==>
              && rest != [] && tail[0] == rest[0]
              && GroupParse(tail[1..], false) == InPlaceReading(subcommand, left, rest[1..])
  {
    hide ReadToken, InPlace, GroupParse, IsStop, Part, ReadsAsGlobal;
    GlobalIsRead(x);
    var tail := Part(rest).0 + ([subcommand] + (left + Part(rest).1));
    var line, all := [x] + tail, [x] + rest;
    assert line[0] == x && line[1] == tail[0] && line[2..] == tail[1..] && all[0] == x;
    ParseOption(line, false);
    InPlaceWaits(all);
    var bs, option := ReadToken(x).bindings, ReadToken(x).option;
    var first := Binding(option, Some(tail[0]));
    var parsed := GroupParse(tail[1..], false);
    assert GroupParse(line, false) == Prepend(bs + [first], parsed);
    assert (bs + [first] + parsed.bindings)[|bs|] == first;
    if rest != [] {
      assert all[2..] == rest[1..] && all[1] == rest[0];
      var second := Binding(option, Some(rest[0]));
      var reading := InPlaceReading(subcommand, left, rest[1..]);
      assert InPlaceReading(subcommand, left, all) == Prepend(bs + [second], reading);
      assert (bs + [second] + reading.bindings)[|bs|] == second;
      PrependInjective(bs + [first], parsed, reading);
    }
  }

  lemma WaitingBeforeEnd(subcommand: string, left: seq<string>, x: string, rest: seq<string>)
    requires IsBare(subcommand) && subcommand != "--" && ReadsAsGlobal(x) && ReadToken(x).Awaiting? && x != "--"
    requires rest == [] || rest[0] == "--" || (|rest| == 1 && Waits(rest[0]))
    ensures !SameSwallowed(subcommand, left, x, rest)
  {
    hide ReadToken, InPlace, GroupParse, IsStop, Part, ReadsAsGlobal, Hoistable, Waits, IsBare, SameSwallowed;
    StepSwallowedWaiting(subcommand, left, x, rest);
    PartByTokens(rest);
    BareIsNotHoistable(subcommand);
    if rest != [] {
      ConsumedByTokens(rest);
      assert ([] + ([subcommand] + (left + rest)))[0] == subcommand;
    }
  }

  lemma WaitingBeforeWaiting(subcommand: string, left: seq<string>, x: string, rest: seq<string>)
    requires ReadsAsGlobal(x) && ReadToken(x).Awaiting? && x != "--"
    requires |rest| > 1 && rest[0] != "--" && Waits(rest[0])
    ensures SameSwallowed(subcommand, left, x, rest) <==> SameSwallowed(subcommand, left, rest[1], rest[2..])
  {
    hide ReadToken, InPlace, GroupParse, IsStop, Part, ReadsAsGlobal, Hoistable, Waits;
    StepSwallowedWaiting(subcommand, left, x, rest);
    PartByTokens(rest);
    var h, tail := Part(rest[2..]).0, [subcommand] + (left + Part(rest).1);
    var line := [rest[0], rest[1]] + h + tail;
    assert line[0] == rest[0] && line[1..] == [rest[1]] + (h + tail);
    assert rest[1..] == [rest[1]] + rest[2..];
  }

  lemma WaitingBeforeComplete(subcommand: string, left: seq<string>, x: string, rest: seq<string>)
    requires ReadsAsGlobal(x) && ReadToken(x).Awaiting? && x != "--"
    requires rest != [] && rest[0] != "--" && !Waits(rest[0]) && Hoistable(rest[0])
    ensures SameSwallowed(subcommand, left, x, rest) <==> SameReading(subcommand, left, rest[1..])
  {
    hide ReadToken, InPlace, GroupParse, IsStop, Part, ReadsAsGlobal, Hoistable, Waits, SameSwallowed;
    StepSwallowedWaiting(subcommand, left, x, rest);
    PartByTokens(rest);
    var h, tail := Part(rest[1..]).0, [subcommand] + (left + Part(rest).1);
    var line := [rest[0]] + h + tail;
    assert line[0] == rest[0] && line[1..] == h + tail;
  }

  // In front of a token that is not hoisted it takes a later one, or the subcommand.
  lemma WaitingBeforeLeft(subcommand: string, left: seq<string>, x: string, rest: seq<string>)
    requires IsBare(subcommand) && subcommand != "--" && Inert(left)
    requires ReadsAsGlobal(x) && ReadToken(x).Awaiting? && x != "--"
    requires rest != [] && rest[0] != "--" && !Waits(rest[0]) && !Hoistable(rest[0])
    ensures SameSwallowed(subcommand, left, x, rest) <==> JudgeMistaken(subcommand, left, rest[0], rest[1..]).Kept?
  {
    hide ReadToken, InPlace, GroupParse, IsStop, Part, ReadsAsGlobal, Hoistable, Waits, IsBare, SameSwallowed;
    hide Inert, AllAre, NothingToHoist, NothingToRead, InPlaceReading;
    StepSwallowedWaiting(subcommand, left, x, rest);
    PartByTokens(rest);
    var h, behind := Part(rest[1..]).0, rest[1..];
    NothingHoistedExactlyWhen(behind);
    var tail := [subcommand] + (left + Part(rest).1);
    if h == [] {
      assert h + tail == tail && tail[1..] == left + ([rest[0]] + behind);
      MistakenBehindLeft(subcommand, left, behind);
    } else {
      FrontFirst(h, tail);
    }
  }

  // The subcommand, taken for a value, leaves its place to the first token left behind.
  lemma MistakenBehindLeft(subcommand: string, left: seq<string>, rest: seq<string>)
    requires IsBare(subcommand) && subcommand != "--" && Inert(left)
    ensures GroupParse(left + ([subcommand] + rest), false) == InPlaceReading(subcommand, left, rest)
       <==> AllAre(left, subcommand) && NothingToRead(rest)
  {
    hide ReadToken, InPlace, GroupParse, IsStop, ReadsAsGlobal, Hoistable, IsBare, Inert, NothingToRead, AllAre;
    NothingReadExactlyWhen(rest);
    var line := left + ([subcommand] + rest);
    if left == [] {
      assert line == [subcommand] + rest && line[1..] == rest;
      NothingLeft(subcommand);
      AtSubcommand(line, false);
      assert [] + InPlace(rest).1 == InPlace(rest).1;
    } else {
      FirstLeft(subcommand, left);
      FrontFirst(left, [subcommand] + rest);
      if IsBare(left[0]) {
        AtSubcommand(line, false);
        ShiftsAlong(subcommand, left, rest);
      } else {
        NoStop(left[0]);
        InPlaceBindsGlobals(rest);
        if PlainDispatch(GroupParse(line, false)) {
          DispatchReadsGlobal(line);
        }
      }
    }
  }

  lemma NothingLeft(subcommand: string)
    ensures AllAre([], subcommand)
  {
  }

  lemma FirstLeft(subcommand: string, left: seq<string>)
    requires Inert(left) && left != []
    ensures left[0] != "--" && !ReadsAsGlobal(left[0]) && (AllAre(left, subcommand) ==> left[0] == subcommand)
  {
  }

  lemma ShiftsAlong(x: string, left: seq<string>, rest: seq<string>)
    requires left != []
    ensures left[0] == x && (left + ([x] + rest))[1..] == left + rest <==> AllAre(left, x)
  {
    var front := left[1..];
    assert left == [left[0]] + front;
    Rotates(front, x, rest);
    assert (left + ([x] + rest))[1..] == front + ([x] + rest);
    if left[0] == x {
      assert left + rest == [x] + (front + rest);
      assert AllAre(left, x) <==> AllAre(front, x) by {
        assert forall i :: 0 <= i < |front| ==> left[i + 1] == front[i];
        if AllAre(front, x) {
          assert forall i :: 0 < i < |left| ==> left[i] == front[i - 1];
        }
      }
    }
  }

  // ----- the walk decides -----

  /** The walk is right: the readings agree on every line it calls kept, and differ on every line it calls changed. */
  lemma {:induction false} JudgedRightly(subcommand: string, left: seq<string>, after: seq<string>)
    requires IsBare(subcommand) && Inert(left)
    ensures Judge(subcommand, left, after).Kept? ==> SameReading(subcommand, left, after)
    ensures Judge(subcommand, left, after).Changed? ==> !SameReading(subcommand, left, after)
    decreases |after|, 1
  {
    hide Inert, Hoistable, Waits, ReadsAsGlobal, Part, InPlace, ReadToken, FlagWithValue, EmptyInline, IsBare;
    hide SameReading, SameSwallowed, JudgeSwallowed, Overhangs;
    BareIsNotHoistable(subcommand);
    if after == [] || after[0] == "--" {
      PartByTokens(after);
      InPlaceEnds(after);
      ReadingEnds(subcommand, left, after);
    } else if EmptyInline(after[0]) {
      if |after| == 1 {
        EmptyAtEnd(subcommand, left, after);
      } else {
        JudgedEmpty(subcommand, left, after);
        StepEmpty(subcommand, left, after);
        SwallowedRightly(subcommand, left, after[1], after[2..]);
      }
    } else {
      ConsumedByTokens(after);
      if Hoistable(after[0]) {
        HoistableReads(after[0]);
        HoistedRightly(subcommand, left, after);
      } else if !ReadsAsGlobal(after[0]) {
        NotNamed(after[0]);
        StepLeft(subcommand, left, after);
        LeftGrows(left, after[0]);
        JudgedRightly(subcommand, left + [after[0]], after[1..]);
      } else {
        NotNamed(after[0]);
        GlobalIsRead(after[0]);
        if ReadToken(after[0]).Awaiting? && |after| == 1 {
          PartByTokens(after);
          assert after[1..] == [];
          PartByTokens([]);
          assert [after[0]] + [] == after;
          InPlaceWaits(after);
          ReadingEnds(subcommand, left, after);
        } else if !(left == [] && subcommand in after && Overhangs(after[1..], false)) {
          GluedDiffers(subcommand, left, after);
        }
      }
    }
  }

  lemma {:induction false} HoistedRightly(subcommand: string, left: seq<string>, after: seq<string>)
    requires IsBare(subcommand) && subcommand != "--" && Inert(left)
    requires after != [] && after[0] != "--" && !EmptyInline(after[0]) && Hoistable(after[0])
    ensures Judge(subcommand, left, after).Kept? ==> SameReading(subcommand, left, after)
    ensures Judge(subcommand, left, after).Changed? ==> !SameReading(subcommand, left, after)
    decreases |after|, 0
  {
    hide Inert, Hoistable, Waits, ReadsAsGlobal, Part, InPlace, ReadToken, FlagWithValue, EmptyInline, IsBare;
    hide SameReading, SameSwallowed, JudgeSwallowed, Overhangs;
    HoistableReads(after[0]);
    if FlagWithValue(after[0]) {
      StepRejected(subcommand, left, after);
    } else if !Waits(after[0]) {
      StepComplete(subcommand, left, after);
      JudgedRightly(subcommand, left, after[1..]);
    } else if |after| == 1 {
      PartByTokens(after);
      InPlaceWaits(after);
      ReadingEnds(subcommand, left, after);
    } else {
      StepWaiting(subcommand, left, after);
      JudgedRightly(subcommand, left, after[2..]);
    }
  }

  // Any token hoisted along with a `name=` or with a global that another one took for its value.
  lemma {:induction false} SwallowedRightly(subcommand: string, left: seq<string>, x: string, rest: seq<string>)
    requires IsBare(subcommand) && subcommand != "--" && Inert(left)
    ensures JudgeSwallowed(subcommand, left, x, rest).Kept? ==> SameSwallowed(subcommand, left, x, rest)
    ensures JudgeSwallowed(subcommand, left, x, rest).Changed? ==> !SameSwallowed(subcommand, left, x, rest)
    decreases |rest|, 2
  {
    hide Inert, Hoistable, Waits, ReadsAsGlobal, Part, InPlace, ReadToken, FlagWithValue, EmptyInline, IsBare;
    hide SameReading, GroupParse, InPlaceReading, NothingToRead, NothingToHoist, AllAre, Judge, JudgeWaiting;
    if x == "--" {
      PartKeepsCount(rest);
      EmptyBeforeEnd(subcommand, left, Part(rest).0, Part(rest).1, rest);
    } else if IsBare(x) {
      InertIsNotHoistable(left);
      EmptyBeforeBare(subcommand, left, x, rest);
    } else if !ReadsAsGlobal(x) {
      NoStop(x);
      EmptyBeforeOther(subcommand, left, x, Part(rest).0 + ([subcommand] + (left + Part(rest).1)), rest);
    } else if ReadToken(x).Complete? {
      EmptyBeforeComplete(subcommand, left, x, rest);
      JudgedRightly(subcommand, left, rest);
    } else {
      GlobalIsRead(x);
      WaitingRightly(subcommand, left, x, rest);
    }
  }

  lemma {:induction false} WaitingRightly(subcommand: string, left: seq<string>, x: string, rest: seq<string>)
    requires IsBare(subcommand) && subcommand != "--" && Inert(left)
    requires ReadsAsGlobal(x) && ReadToken(x).Awaiting? && x != "--"
    ensures JudgeWaiting(subcommand, left, rest).Kept? ==> SameSwallowed(subcommand, left, x, rest)
    ensures JudgeWaiting(subcommand, left, rest).Changed? ==> !SameSwallowed(subcommand, left, x, rest)
    decreases |rest|, 0
  {
    hide Inert, Hoistable, Waits, ReadsAsGlobal, Part, InPlace, ReadToken, FlagWithValue, EmptyInline, IsBare;
    hide SameReading, SameSwallowed, Judge, JudgeSwallowed, JudgeMistaken;
    if rest == [] || rest[0] == "--" || (|rest| == 1 && Waits(rest[0])) {
      WaitingBeforeEnd(subcommand, left, x, rest);
    } else if Waits(rest[0]) {
      WaitingBeforeWaiting(subcommand, left, x, rest);
      SwallowedRightly(subcommand, left, rest[1], rest[2..]);
    } else if Hoistable(rest[0]) {
      WaitingBeforeComplete(subcommand, left, x, rest);
      JudgedRightly(subcommand, left, rest[1..]);
    } else {
      WaitingBeforeLeft(subcommand, left, x, rest);
      MistakenIsDecided(subcommand, left, rest[0], rest[1..]);
    }
  }

  lemma MistakenIsDecided(subcommand: string, left: seq<string>, token: string, rest: seq<string>)
    ensures !JudgeMistaken(subcommand, left, token, rest).Undecided?
  {
  }

  lemma JudgedEmpty(subcommand: string, left: seq<string>, after: seq<string>)
    requires |after| > 1 && after[0] != "--" && EmptyInline(after[0])
    ensures Judge(subcommand, left, after) == JudgeSwallowed(subcommand, left, after[1], after[2..])
  {
    hide EmptyInline, JudgeSwallowed;
  }
}
