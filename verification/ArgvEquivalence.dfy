/** Which whole command lines keep their meaning: the exact condition, and each way of losing it. */
module ArgvEquivalence {
  import opened Wrappers
  import opened Argv
  import opened ArgvMeaning
  import opened ArgvLaws
  import opened ArgvReadings
  import opened ArgvGlued
  import opened ArgvPreservation

  // `bcs -v build` and `bcs build -v` mean the same: the group parser reads from the normalised line what
  // reading globals anywhere finds in the original.
  predicate KeepsMeaning(argv: seq<string>) {
    GroupParse(Normalized(argv), false) == GroupParse(argv, true)
  }

  // The options end while one still waits, and a bare or `--` token follows that it will take.
  predicate Pending(argv: seq<string>) {
    StopIndex(argv) < |argv| && LeavesOptionWaiting(argv[..StopIndex(argv)])
  }

  // The parser rejects one of the options.
  predicate Rejects(opts: seq<string>) {
    opts != [] &&
    match ReadToken(opts[0])
    case Complete(_) => Rejects(opts[1..])
    case Awaiting(_, _) => |opts| > 1 && Rejects(opts[2..])
    case Invalid => true
  }

  // The tokens behind the one the group parser takes for the subcommand, where globals can be found in place.
  function BehindSubcommand(argv: seq<string>): seq<string> {
    if argv == [] || argv[0] == "--" then []
    else if IsBare(argv[0]) then argv[1..]
    else
      match ReadToken(argv[0])
      case Complete(_) => BehindSubcommand(argv[1..])
      case Awaiting(_, _) => if |argv| == 1 then [] else BehindSubcommand(argv[2..])
      case Invalid => []
  }

  function Judgement(argv: seq<string>): Verdict {
    var k := StopIndex(argv);
    if k == |argv| then Kept
    else if Pending(argv) then
      if (argv[k] == "--" || NothingToHoist(argv[k + 1..])) && NothingToRead(BehindSubcommand(argv)) then Kept
      else Changed
    else if argv[k] == "--" || Rejects(argv[..k]) then Kept
    else Judge(argv[k], [], argv[k + 1..])
  }

  // ----- no option in front waits -----

  lemma LiteralEnd(argv: seq<string>)
    requires argv != [] && argv[0] == "--"
    ensures GroupParse(argv, true) == GroupParse(argv, false)
  {
  }

  lemma {:induction false} OptionsOnly(argv: seq<string>)
    requires forall i :: 0 <= i < |argv| ==> !IsStop(argv[i])
    ensures GroupParse(argv, true) == GroupParse(argv, false)
  {
    hide ReadToken, IsBare, InPlace;
    if argv != [] {
      ParseOption(argv, true);
      ParseOption(argv, false);
      match ReadToken(argv[0])
      case Complete(bs) => OptionsOnly(argv[1..]);
      case Awaiting(_, _) => if |argv| > 1 { OptionsOnly(argv[2..]); }
      case Invalid =>
    }
  }

  lemma {:induction false} RejectedRun(opts: seq<string>)
    requires OptionRun(opts)
    ensures ReadRun(opts).1.Some? <==> Rejects(opts)
  {
    hide ReadToken, IsStop;
    if opts != [] {
      match ReadToken(opts[0])
      case Complete(_) => RejectedRun(opts[1..]);
      case Awaiting(_, _) => RejectedRun(opts[2..]);
      case Invalid =>
    }
  }

  lemma ContinueInjective(run: (seq<Binding>, Option<string>), p: Parse, q: Parse)
    ensures Continue(run, p) == Continue(run, q) <==> run.1.Some? || p == q
  {
    PrependInjective(run.0, p, q);
  }

  // Without an option waiting in front, the two readings of what stands behind the subcommand decide.
  lemma SettledInFront(argv: seq<string>)
    requires StopIndex(argv) < |argv| && !Pending(argv) && argv[StopIndex(argv)] != "--"
    ensures var k := StopIndex(argv);
            KeepsMeaning(argv) <==> Rejects(argv[..k]) || SameReading(argv[k], [], argv[k + 1..])
  {
    hide ReadToken, IsBare, IsStop, Part, InPlace, GroupParse, LeavesOptionWaiting, ReadRun, OptionRun;
    hide Normalized, StopIndex, Rejects;
    var k := StopIndex(argv);
    var before, sub, after := argv[..k], argv[k], argv[k + 1..];
    assert argv == before + ([sub] + after);
    StopIsBare(sub);
    NotWaitingIsRun(before);
    RejectedRun(before);
    ParseAfterRun(before, [sub] + after, true);
    assert ([sub] + after)[1..] == after;
    AtSubcommand([sub] + after, true);
    NormalizedShape(argv);
    assert [] + Part(after).1 == Part(after).1;
    ParseAfterRun(before, Part(after).0 + ([sub] + Part(after).1), false);
    ContinueInjective(ReadRun(before), HoistedReading(sub, [], after), InPlaceReading(sub, [], after));
  }

  // ----- an option in front waits -----

  // What the options in front have bound when the last of them still waits, and its name.
  function Waiting(opts: seq<string>): (seq<Binding>, string)
    requires LeavesOptionWaiting(opts)
  {
    match ReadToken(opts[0])
    case Complete(bs) => (bs + Waiting(opts[1..]).0, Waiting(opts[1..]).1)
    case Awaiting(bs, option) =>
      if |opts| == 1 then (bs, option)
      else (bs + [Binding(option, Some(opts[1]))] + Waiting(opts[2..]).0, Waiting(opts[2..]).1)
  }

  // The waiting option takes whatever token comes next.
  lemma {:induction false} WaitingTakesNext(opts: seq<string>, x: string, tail: seq<string>, anywhere: bool)
    requires LeavesOptionWaiting(opts) && forall i :: 0 <= i < |opts| ==> !IsStop(opts[i])
    ensures GroupParse(opts + [x] + tail, anywhere)
         == Prepend(Waiting(opts).0 + [Binding(Waiting(opts).1, Some(x))], GroupParse(tail, anywhere))
  {
    hide ReadToken, IsBare, InPlace, GroupParse;
    var all := opts + [x] + tail;
    ParseOption(all, anywhere);
    match ReadToken(opts[0])
    case Complete(bs) =>
      assert all[1..] == opts[1..] + [x] + tail;
      WaitingTakesNext(opts[1..], x, tail, anywhere);
      var (w, o) := Waiting(opts[1..]);
      PrependTwice(bs, w + [Binding(o, Some(x))], GroupParse(tail, anywhere));
      assert bs + (w + [Binding(o, Some(x))]) == bs + w + [Binding(o, Some(x))];
    case Awaiting(bs, option) =>
      if |opts| == 1 {
        assert all[1] == x && all[2..] == tail;
      } else {
        assert all[2..] == opts[2..] + [x] + tail;
        WaitingTakesNext(opts[2..], x, tail, anywhere);
        var first := bs + [Binding(option, Some(opts[1]))];
        var (w, o) := Waiting(opts[2..]);
        PrependTwice(first, w + [Binding(o, Some(x))], GroupParse(tail, anywhere));
        assert first + (w + [Binding(o, Some(x))]) == first + w + [Binding(o, Some(x))];
      }
  }

  lemma PullFirst(before: seq<string>, h: seq<string>, rest: seq<string>)
    requires h != []
    ensures before + (h + rest) == before + [h[0]] + (h[1..] + rest)
  {
    assert h == [h[0]] + h[1..];
  }

  lemma BindingAt(w: seq<Binding>, b: Binding, p: Parse)
    ensures |Prepend(w + [b], p).bindings| > |w| && Prepend(w + [b], p).bindings[|w|] == b
  {
  }

  // Then its value is mistaken for the subcommand, and the meaning survives only on a line left as it was.
  lemma PendingKeepsMeaningOnlyUntouched(argv: seq<string>)
    requires Pending(argv)
    ensures KeepsMeaning(argv)
       <==> (argv[StopIndex(argv)] == "--" || NothingToHoist(argv[StopIndex(argv) + 1..]))
            && GroupParse(argv, false) == GroupParse(argv, true)
  {
    hide ReadToken, IsBare, IsStop, Part, InPlace, GroupParse, LeavesOptionWaiting, StopIndex, Normalized;
    hide Waiting, NothingToHoist;
    NormalizedUntouched(argv);
    var k := StopIndex(argv);
    if argv[k] != "--" {
      var before, after := argv[..k], argv[k + 1..];
      var (h, r) := Part(after);
      NormalizedShape(argv);
      NothingHoistedExactlyWhen(after);
      assert argv == before + [argv[k]] + after;
      if h == [] {
        Rejoin(before, argv[k], after);
      } else {
        PendingDiffers(before, argv[k], after);
      }
    }
  }

  lemma PendingDiffers(before: seq<string>, x: string, after: seq<string>)
    requires LeavesOptionWaiting(before) && (forall i :: 0 <= i < |before| ==> !IsStop(before[i])) && IsStop(x)
    requires Part(after).0 != []
    ensures GroupParse(before + (Part(after).0 + ([x] + Part(after).1)), false)
              != GroupParse(before + [x] + after, true)
  {
    hide ReadToken, IsStop, Part, GroupParse, LeavesOptionWaiting, Waiting;
    var (h, r) := Part(after);
    NothingHoistedExactlyWhen(after);
    var tail := h[1..] + ([x] + r);
    PullFirst(before, h, [x] + r);
    WaitingTakesNext(before, h[0], tail, false);
    WaitingTakesNext(before, x, after, true);
    var (w, o) := Waiting(before);
    BindingAt(w, Binding(o, Some(h[0])), GroupParse(tail, false));
    BindingAt(w, Binding(o, Some(x)), GroupParse(after, true));
  }

  /** Reading globals in place makes a difference exactly when the parser can read one behind its subcommand. */
  lemma {:induction false} InPlaceDiffersExactlyWhen(argv: seq<string>)
    ensures GroupParse(argv, false) == GroupParse(argv, true) <==> NothingToRead(BehindSubcommand(argv))
  {
    hide ReadToken, IsBare, InPlace, GroupParse, NothingToRead;
    NothingReadExactlyWhen(BehindSubcommand(argv));
    NothingReadExactlyWhen([]);
    EmptyParse();
    if argv == [] {
    } else if argv[0] == "--" {
      LiteralEnd(argv);
    } else if IsBare(argv[0]) {
      AtSubcommand(argv, true);
      AtSubcommand(argv, false);
      assert [] + InPlace(argv[1..]).1 == InPlace(argv[1..]).1;
    } else {
      ParseOption(argv, true);
      ParseOption(argv, false);
      match ReadToken(argv[0])
      case Complete(bs) =>
        InPlaceDiffersExactlyWhen(argv[1..]);
        PrependInjective(bs, GroupParse(argv[1..], true), GroupParse(argv[1..], false));
      case Awaiting(bs, option) =>
        if |argv| > 1 {
          InPlaceDiffersExactlyWhen(argv[2..]);
          PrependInjective(bs + [Binding(option, Some(argv[1]))], GroupParse(argv[2..], true),
              GroupParse(argv[2..], false));
        }
      case Invalid =>
    }
  }

  lemma EmptyParse()
    ensures GroupParse([], true) == GroupParse([], false) && NothingToRead([])
  {
  }

  // ----- the theorem -----

  // A glued global behind which the hoisted tokens run out while a swallowed one still waits.
  predicate GluedOverhang(after: seq<string>, i: nat)
    requires i < |after|
  {
    Glued(after[i]) && Overhangs(after[i + 1..], false)
  }

  predicate Suspicious(subcommand: string, after: seq<string>) {
    subcommand in after && exists i :: 0 <= i < |after| && GluedOverhang(after, i)
  }

  lemma SuspiciousSuffix(subcommand: string, after: seq<string>, n: nat)
    requires n <= |after| && Suspicious(subcommand, after[n..])
    ensures Suspicious(subcommand, after)
  {
    hide Glued, Overhangs;
    var i :| 0 <= i < |after[n..]| && GluedOverhang(after[n..], i);
    assert after[n..][i + 1..] == after[n + i + 1..] && after[n..][i] == after[n + i];
    assert GluedOverhang(after, n + i);
  }

  lemma {:induction false} UndecidedIsSuspicious(subcommand: string, left: seq<string>, after: seq<string>)
    requires Judge(subcommand, left, after).Undecided?
    ensures Suspicious(subcommand, after)
    decreases |after|, 1
  {
    hide Hoistable, Waits, ReadsAsGlobal, ReadToken, FlagWithValue, EmptyInline, Suspicious, Overhangs, JudgeSwallowed;
    if EmptyInline(after[0]) {
      SwallowedIsSuspicious(subcommand, left, after[1], after[2..]);
      SuspiciousSuffix(subcommand, after, 2);
    } else if Waits(after[0]) {
      UndecidedIsSuspicious(subcommand, left, after[2..]);
      SuspiciousSuffix(subcommand, after, 2);
    } else if Hoistable(after[0]) {
      UndecidedIsSuspicious(subcommand, left, after[1..]);
      SuspiciousSuffix(subcommand, after, 1);
    } else if !ReadsAsGlobal(after[0]) {
      UndecidedIsSuspicious(subcommand, left + [after[0]], after[1..]);
      SuspiciousSuffix(subcommand, after, 1);
    } else {
      FirstIsSuspicious(subcommand, after);
    }
  }

  lemma FirstIsSuspicious(subcommand: string, after: seq<string>)
    requires after != [] && subcommand in after && GluedOverhang(after, 0)
    ensures Suspicious(subcommand, after)
  {
  }

  lemma {:induction false} SwallowedIsSuspicious(subcommand: string, left: seq<string>, next: string, rest: seq<string>)
    requires JudgeSwallowed(subcommand, left, next, rest).Undecided?
    ensures Suspicious(subcommand, rest)
    decreases |rest|, 2
  {
    hide Hoistable, Waits, ReadsAsGlobal, ReadToken, IsBare, Suspicious, Judge, JudgeWaiting, AllAre, NothingToHoist;
    if ReadToken(next).Awaiting? {
      WaitingIsSuspicious(subcommand, left, rest);
    } else {
      UndecidedIsSuspicious(subcommand, left, rest);
    }
  }

  lemma {:induction false} WaitingIsSuspicious(subcommand: string, left: seq<string>, rest: seq<string>)
    requires JudgeWaiting(subcommand, left, rest).Undecided?
    ensures Suspicious(subcommand, rest)
    decreases |rest|, 0
  {
    hide Hoistable, Waits, ReadsAsGlobal, ReadToken, IsBare, Suspicious, Judge, JudgeSwallowed, AllAre, NothingToHoist;
    if Waits(rest[0]) {
      SwallowedIsSuspicious(subcommand, left, rest[1], rest[2..]);
      SuspiciousSuffix(subcommand, rest, 2);
    } else {
      UndecidedIsSuspicious(subcommand, left, rest[1..]);
      SuspiciousSuffix(subcommand, rest, 1);
    }
  }

  /** The condition decided by the tokens alone is exact. It leaves a line open only if a glued global stands behind
      the subcommand, the hoisted tokens behind it run out while one waits, and a token is spelled like the
      subcommand. */
  lemma HoistingKeepsMeaningExactlyWhen(argv: seq<string>)
    ensures Judgement(argv).Kept? ==> KeepsMeaning(argv)
    ensures Judgement(argv).Changed? ==> !KeepsMeaning(argv)
    ensures Judgement(argv).Undecided? ==>
              StopIndex(argv) < |argv| && Suspicious(argv[StopIndex(argv)], argv[StopIndex(argv) + 1..])
  {
    hide StopIndex, Pending, Judgement, KeepsMeaning, Suspicious;
    var k := StopIndex(argv);
    if k == |argv| || (argv[k] == "--" && !Pending(argv)) {
      NothingNormalized(argv);
      NothingJudged(argv);
    } else if Pending(argv) {
      PendingJudged(argv);
    } else {
      FrontJudged(argv);
    }
  }

  // So on every line in which no token behind the subcommand is spelled like it, the walk decides.
  lemma ExactUnlessRepeated(argv: seq<string>)
    requires StopIndex(argv) < |argv| ==> argv[StopIndex(argv)] !in argv[StopIndex(argv) + 1..]
    ensures KeepsMeaning(argv) <==> Judgement(argv) == Kept
  {
    hide StopIndex, Judgement, KeepsMeaning, GluedOverhang;
    HoistingKeepsMeaningExactlyWhen(argv);
  }

  lemma NothingJudged(argv: seq<string>)
    requires var k := StopIndex(argv); k == |argv| || (argv[k] == "--" && !Pending(argv))
    ensures Judgement(argv) == Kept
  {
    hide StopIndex, LeavesOptionWaiting;
  }

  lemma PendingJudged(argv: seq<string>)
    requires Pending(argv)
    ensures Judgement(argv) == if KeepsMeaning(argv) then Kept else Changed
  {
    hide StopIndex, LeavesOptionWaiting, KeepsMeaning, NothingToHoist, NothingToRead, BehindSubcommand, GroupParse;
    PendingKeepsMeaningOnlyUntouched(argv);
    InPlaceDiffersExactlyWhen(argv);
  }

  lemma FrontJudged(argv: seq<string>)
    requires StopIndex(argv) < |argv| && !Pending(argv) && argv[StopIndex(argv)] != "--"
    ensures Judgement(argv).Kept? ==> KeepsMeaning(argv)
    ensures Judgement(argv).Changed? ==> !KeepsMeaning(argv)
    ensures Judgement(argv).Undecided? ==> Suspicious(argv[StopIndex(argv)], argv[StopIndex(argv) + 1..])
  {
    hide StopIndex, Pending, KeepsMeaning, Suspicious, Judge, SameReading, Rejects, IsBare, Inert;
    var k := StopIndex(argv);
    var sub, after := argv[k], argv[k + 1..];
    SettledInFront(argv);
    StopIsBare(sub);
    EmptyIsInert();
    JudgedRightly(sub, [], after);
    if Judge(sub, [], after).Undecided? {
      UndecidedIsSuspicious(sub, [], after);
    }
  }

  lemma EmptyIsInert()
    ensures Inert([])
  {
  }

  lemma NothingNormalized(argv: seq<string>)
    requires var k := StopIndex(argv); k == |argv| || (argv[k] == "--" && !Pending(argv))
    ensures KeepsMeaning(argv)
  {
    hide GroupParse, IsBare, IsStop, StopIndex, LeavesOptionWaiting, OptionRun, ReadRun, Normalized;
    NormalizedUntouched(argv);
    var k := StopIndex(argv);
    if k == |argv| {
      OptionsOnly(argv);
    } else {
      var before, tail := argv[..k], argv[k..];
      assert argv == before + tail;
      NotWaitingIsRun(before);
      ParseAfterRun(before, tail, true);
      ParseAfterRun(before, tail, false);
      LiteralEnd(tail);
    }
  }

  // The same read off each token: nothing waits in front, and nothing behind is glued, `name=` or a flag with a value.
  lemma HoistingKeepsMeaning(argv: seq<string>)
    requires !Pending(argv)
    requires forall i :: StopIndex(argv) < i < |argv| ==>
               !Glued(argv[i]) && !EmptyInline(argv[i]) && !FlagWithValue(argv[i])
    ensures KeepsMeaning(argv)
  {
    hide GroupParse, IsBare, IsStop, StopIndex, Judge, Normalized, LeavesOptionWaiting, Pending, Glued;
    hide EmptyInline, FlagWithValue, KeepsMeaning, Rejects;
    var k := StopIndex(argv);
    if k < |argv| {
      var after := argv[k + 1..];
      assert forall i :: 0 <= i < |after| ==> after[i] == argv[k + 1 + i];
      PlainIsKept(argv[k], [], after);
    }
    HoistingKeepsMeaningExactlyWhen(argv);
  }

  lemma {:induction false} PlainIsKept(subcommand: string, left: seq<string>, after: seq<string>)
    requires forall i :: 0 <= i < |after| ==> !Glued(after[i]) && !EmptyInline(after[i]) && !FlagWithValue(after[i])
    ensures Judge(subcommand, left, after) == Kept
    decreases |after|
  {
    hide Hoistable, Waits, ReadsAsGlobal, ReadToken, EmptyInline, FlagWithValue;
    if after != [] && after[0] != "--" {
      if Waits(after[0]) {
        if |after| > 1 { PlainIsKept(subcommand, left, after[2..]); }
      } else if Hoistable(after[0]) {
        PlainIsKept(subcommand, left, after[1..]);
      } else {
        PlainIsKept(subcommand, left + [after[0]], after[1..]);
      }
    }
  }
}
