/** Why a glued global behind the subcommand changes the meaning, and the one way it may not. */
module ArgvGlued {
  import opened Wrappers
  import opened Argv
  import opened ArgvMeaning
  import opened ArgvLaws
  import opened ArgvReadings

  // ----- how far the group parser gets in hoisted tokens -----

  // How far the group parser gets in a run of hoisted tokens: it stops at a bare or `--` token that was hoisted
  // along with a `name=`, or rejects or binds something that is no global.
  datatype Scan = Through | At(index: nat) | Bad

  function Shift(scan: Scan, n: nat): Scan {
    if scan.At? then At(n + scan.index) else scan
  }

  function ScanOf(opts: seq<string>): Scan {
    if opts == [] then Through
    else if IsStop(opts[0]) then At(0)
    else if !ReadsAsGlobal(opts[0]) then Bad
    else if ReadToken(opts[0]).Complete? then Shift(ScanOf(opts[1..]), 1)
    else if |opts| == 1 then Bad
    else Shift(ScanOf(opts[2..]), 2)
  }

  lemma {:induction false} ScanInside(opts: seq<string>)
    ensures ScanOf(opts).At? ==> ScanOf(opts).index < |opts| && IsStop(opts[ScanOf(opts).index])
  {
    hide ReadsAsGlobal, ReadToken, IsStop;
    if opts != [] && !IsStop(opts[0]) && ReadsAsGlobal(opts[0]) {
      if ReadToken(opts[0]).Complete? {
        ScanInside(opts[1..]);
      } else if |opts| > 1 {
        ScanInside(opts[2..]);
      }
    }
  }

  // The run ends while a global still waits, so the subcommand would be taken for its value.
  predicate Dangles(opts: seq<string>) {
    opts != [] && !IsStop(opts[0]) && ReadsAsGlobal(opts[0]) &&
    if ReadToken(opts[0]).Complete? then Dangles(opts[1..]) else |opts| == 1 || Dangles(opts[2..])
  }

  // Where a parse that binds nothing but globals ends up, going by the scan.
  predicate EndsUp(scan: Scan, opts: seq<string>, tail: seq<string>, p: Parse)
    requires tail != []
  {
    p.Dispatch? &&
    match scan
    case Bad => false
    case Through => p.subcommand == tail[0] && p.rest == tail[1..]
    case At(n) =>
      n < |opts| &&
      var behind := opts[n + 1..] + tail;
      if opts[n] == "--" then p.subcommand == behind[0] && p.rest == behind[1..]
      else p.subcommand == opts[n] && p.rest == behind
  }

  lemma SuffixOfSuffix(opts: seq<string>, k: nat)
    requires k <= |opts|
    ensures forall n: nat :: n < |opts| - k ==> opts[k..][n] == opts[k + n] && opts[k..][n + 1..] == opts[k + n + 1..]
  {
  }

  lemma EndsUpShifted(opts: seq<string>, k: nat, tail: seq<string>, p: Parse, q: Parse)
    requires k <= |opts| && tail != [] && EndsUp(ScanOf(opts[k..]), opts[k..], tail, q)
    requires p.Dispatch? && p.subcommand == q.subcommand && p.rest == q.rest
    ensures EndsUp(Shift(ScanOf(opts[k..]), k), opts, tail, p)
  {
    hide ScanOf;
    SuffixOfSuffix(opts, k);
  }

  lemma EndsUpAtStop(opts: seq<string>, tail: seq<string>)
    requires opts != [] && IsStop(opts[0]) && tail != []
    ensures EndsUp(At(0), opts, tail, GroupParse(opts + tail, false))
  {
    hide ReadToken, GroupParse, IsBare;
    var line := opts + tail;
    assert line[0] == opts[0] && line[1..] == opts[1..] + tail;
    if opts[0] == "--" {
      LiteralDispatches(line);
      assert line[2..] == (opts[1..] + tail)[1..];
    } else {
      StopIsBare(opts[0]);
      AtSubcommand(line, false);
    }
  }

  lemma EndsUpThrough(tail: seq<string>, p: Parse)
    requires tail != [] && p == Dispatch([], tail[0], tail[1..])
    ensures EndsUp(Through, [], tail, p)
  {
  }

  // What the parse of the hoisted run and a subcommand behind it comes to, if it binds nothing but globals.
  lemma {:induction false} ScanParse(opts: seq<string>, subcommand: string, rest: seq<string>)
    requires IsBare(subcommand) && subcommand != "--"
    requires PlainDispatch(GroupParse(opts + ([subcommand] + rest), false)) && !Dangles(opts)
    ensures EndsUp(ScanOf(opts), opts, [subcommand] + rest, GroupParse(opts + ([subcommand] + rest), false))
    decreases |opts|
  {
    hide ReadsAsGlobal, ReadToken, IsStop, GroupParse, IsBare, EndsUp, PlainDispatch;
    var tail := [subcommand] + rest;
    var line := opts + tail;
    if opts == [] {
      assert line == tail && tail[1..] == rest;
      AtSubcommand(tail, false);
      EndsUpThrough(tail, GroupParse(tail, false));
    } else if IsStop(opts[0]) {
      EndsUpAtStop(opts, tail);
    } else {
      assert line[0] == opts[0];
      DispatchReadsGlobal(line);
      GlobalIsRead(opts[0]);
      var k := if ReadToken(opts[0]).Complete? then 1 else 2;
      assert k <= |opts|;
      assert line[k..] == opts[k..] + tail;
      ScanParse(opts[k..], subcommand, rest);
      EndsUpShifted(opts, k, tail, GroupParse(line, false), GroupParse(line[k..], false));
    }
  }

  // A bare or `--` token among the hoisted ones is a detached value; what follows it is again a hoisted run.
  lemma {:induction false} StopIsValue(after: seq<string>, n: nat) returns (behind: seq<string>)
    requires n < |Part(after).0| && IsStop(Part(after).0[n])
    ensures Part(after).0[n + 1..] == Part(behind).0
    decreases |after|
  {
    hide Hoistable, Waits, Part, ReadToken, ReadsAsGlobal, FlagWithValue, EmptyInline, IsStop;
    PartByTokens(after);
    ConsumedByTokens(after);
    if Hoistable(after[0]) {
      HoistableReads(after[0]);
    }
    if !Waits(after[0]) {
      var h := Part(after[1..]).0;
      if Hoistable(after[0]) {
        behind := StopIsValue(after[1..], n - 1);
        assert ([after[0]] + h)[n + 1..] == h[n..];
      } else {
        behind := StopIsValue(after[1..], n);
      }
    } else {
      var h := Part(after[2..]).0;
      if n == 1 {
        behind := after[2..];
        assert ([after[0], after[1]] + h)[2..] == h;
      } else {
        behind := StopIsValue(after[2..], n - 2);
        assert ([after[0], after[1]] + h)[n + 1..] == h[n - 1..];
      }
    }
  }

  // ----- when the last hoisted global takes the subcommand for its value -----

  // Going by the tokens: the hoisted ones run out while a swallowed global waits; `pending` says one already does.
  predicate Overhangs(after: seq<string>, pending: bool)
    decreases |after|, 1
  {
    if after == [] || after[0] == "--" then pending
    else if !Hoistable(after[0]) then Overhangs(after[1..], pending)
    else if !Waits(after[0]) then (pending || !FlagWithValue(after[0])) && Overhangs(after[1..], false)
    else if |after| == 1 then pending
    else if pending || EmptyInline(after[0]) then OverhangsBehind(after[1], after[2..])
    else Overhangs(after[2..], false)
  }

  predicate OverhangsBehind(swallowed: string, rest: seq<string>)
    decreases |rest|, 2
  {
    !IsStop(swallowed) && ReadsAsGlobal(swallowed) && Overhangs(rest, ReadToken(swallowed).Awaiting?)
  }

  predicate DanglesFrom(opts: seq<string>, pending: bool) {
    if pending then opts == [] || Dangles(opts[1..]) else Dangles(opts)
  }

  lemma DanglesOne(arg: string, rest: seq<string>, pending: bool)
    requires Hoistable(arg) && !Waits(arg)
    ensures DanglesFrom([arg] + rest, pending) <==> (pending || !FlagWithValue(arg)) && Dangles(rest)
  {
    hide Hoistable, Waits, ReadToken, ReadsAsGlobal, FlagWithValue, EmptyInline, IsStop;
    HoistableReads(arg);
    if FlagWithValue(arg) { FlagIsNotRead(arg); }
    assert ([arg] + rest)[1..] == rest;
  }

  lemma DanglesTwo(arg: string, value: string, rest: seq<string>, pending: bool)
    requires Hoistable(arg) && Waits(arg)
    ensures DanglesFrom([arg, value] + rest, pending) <==>
              if pending || EmptyInline(arg) then
                !IsStop(value) && ReadsAsGlobal(value) && DanglesFrom(rest, ReadToken(value).Awaiting?)
              else Dangles(rest)
  {
    hide Hoistable, Waits, ReadToken, ReadsAsGlobal, FlagWithValue, EmptyInline, IsStop;
    HoistableReads(arg);
    if FlagWithValue(arg) { FlagIsNotRead(arg); }
    DanglesValue(value, rest);
    var all := [arg, value] + rest;
    assert all[1..] == [value] + rest && all[2..] == rest;
  }

  lemma DanglesValue(value: string, rest: seq<string>)
    ensures Dangles([value] + rest) <==>
              !IsStop(value) && ReadsAsGlobal(value) && DanglesFrom(rest, ReadToken(value).Awaiting?)
  {
    hide ReadToken, ReadsAsGlobal, IsStop;
    var all := [value] + rest;
    assert all[1..] == rest && (rest != [] ==> all[2..] == rest[1..]);
    if ReadsAsGlobal(value) { GlobalIsRead(value); }
  }

  lemma {:induction false} OverhangsExactlyWhen(after: seq<string>, pending: bool)
    ensures Overhangs(after, pending) <==> DanglesFrom(Part(after).0, pending)
    decreases |after|
  {
    hide Hoistable, Waits, Part, ReadToken, ReadsAsGlobal, FlagWithValue, EmptyInline, IsStop, Dangles, DanglesFrom;
    PartByTokens(after);
    DanglesNothing(pending);
    if after != [] && after[0] != "--" {
      ConsumedByTokens(after);
      if !Waits(after[0]) {
        OverhangsExactlyWhen(after[1..], pending);
        if Hoistable(after[0]) {
          OverhangsExactlyWhen(after[1..], false);
          DanglesUnlessPending(Part(after[1..]).0);
          DanglesOne(after[0], Part(after[1..]).0, pending);
        }
      } else if |after| > 1 {
        DanglesTwo(after[0], after[1], Part(after[2..]).0, pending);
        OverhangsExactlyWhen(after[2..], ReadToken(after[1]).Awaiting?);
        OverhangsExactlyWhen(after[2..], false);
        DanglesUnlessPending(Part(after[2..]).0);
      }
    }
  }

  lemma DanglesNothing(pending: bool)
    ensures DanglesFrom([], pending) <==> pending
  {
  }

  lemma DanglesUnlessPending(opts: seq<string>)
    ensures DanglesFrom(opts, false) <==> Dangles(opts)
  {
  }

  // Then the parse goes on behind the subcommand.
  lemma {:induction false} DanglingParse(opts: seq<string>, subcommand: string, rest: seq<string>)
    requires Dangles(opts) && PlainDispatch(GroupParse(opts + ([subcommand] + rest), false))
    ensures var (p, q) := (GroupParse(opts + ([subcommand] + rest), false), GroupParse(rest, false));
            PlainDispatch(q) && p.Dispatch? && q.Dispatch? && p.subcommand == q.subcommand && p.rest == q.rest
    decreases |opts|
  {
    hide ReadsAsGlobal, ReadToken, IsStop, GroupParse, PlainDispatch;
    var line := opts + ([subcommand] + rest);
    assert line[0] == opts[0];
    DispatchReadsGlobal(line);
    if ReadToken(opts[0]).Complete? {
      assert line[1..] == opts[1..] + ([subcommand] + rest);
      DanglingParse(opts[1..], subcommand, rest);
    } else if |opts| == 1 {
      assert line[2..] == rest;
      PlainIsDispatch(GroupParse(rest, false));
    } else {
      assert line[2..] == opts[2..] + ([subcommand] + rest);
      DanglingParse(opts[2..], subcommand, rest);
    }
  }

  lemma {:induction false} DispatchedIsToken(line: seq<string>)
    requires GroupParse(line, false).Dispatch?
    ensures GroupParse(line, false).subcommand in line
  {
    hide ReadToken, IsBare;
    if line != [] && line[0] != "--" && !IsBare(line[0]) {
      match ReadToken(line[0])
      case Complete(_) => DispatchedIsToken(line[1..]);
      case Awaiting(_, _) => if |line| > 1 { DispatchedIsToken(line[2..]); }
      case Invalid =>
    }
  }

  lemma {:induction false} RemainingIsThere(after: seq<string>, arg: string)
    requires arg in Part(after).1
    ensures arg in after
    decreases |after|
  {
    hide ConsumeOne;
    if after != [] && after[0] != "--" {
      var n := ConsumeOne(after).0;
      if arg in Part(after[n..]).1 {
        RemainingIsThere(after[n..], arg);
      }
    }
  }

  // Dispatching the subcommand itself from behind then takes a further token spelled like it, and nothing left before.
  lemma OverhangDiffers(subcommand: string, left: seq<string>, after: seq<string>)
    requires IsBare(subcommand) && subcommand != "--" && Inert(left) && after != [] && Glued(after[0])
    requires Dangles(Part(after[1..]).0) && !(left == [] && subcommand in after)
    ensures var rest := left + ([after[0]] + Part(after[1..]).1);
            var p := GroupParse(Part(after[1..]).0 + ([subcommand] + rest), false);
            PlainDispatch(p) ==> p.subcommand != subcommand || p.rest != left + InPlace(after).1
  {
    hide Hoistable, Part, ReadToken, ReadsAsGlobal, InPlace, GroupParse, IsStop, IsBare, Dangles, PlainDispatch;
    var g, r := after[0], Part(after[1..]).1;
    var rest := left + ([g] + r);
    var p := GroupParse(Part(after[1..]).0 + ([subcommand] + rest), false);
    if PlainDispatch(p) {
      DanglingParse(Part(after[1..]).0, subcommand, rest);
      if left == [] {
        GlobalIsRead(g);
        StopTokens(g);
        assert rest == [g] + r;
        DispatchedIsToken(rest);
        if subcommand in r {
          RemainingIsThere(after[1..], subcommand);
        }
      } else {
        FrontFirst(left, [g] + r);
        if IsBare(left[0]) {
          AtSubcommand(rest, false);
          LeftShifted(left, g, r, InPlace(after).1);
        } else {
          NoStop(left[0]);
          DispatchReadsGlobal(rest);
        }
      }
    }
  }

  lemma LeftShifted(left: seq<string>, g: string, r: seq<string>, q: seq<string>)
    requires Inert(left) && left != [] && ReadsAsGlobal(g)
    ensures (left + ([g] + r))[1..] != left + q
  {
    hide ReadsAsGlobal, Hoistable;
    var n := |left| - 1;
    assert (left + ([g] + r))[1..][n] == g && (left + q)[n] == left[n];
  }

  // ----- what the two readings leave behind -----

  // A sequence of tokens up to its first global or `--`.
  function CleanPrefix(tokens: seq<string>): (n: nat)
    ensures n <= |tokens|
    ensures forall i :: 0 <= i < n ==> tokens[i] != "--" && !ReadsAsGlobal(tokens[i])
    ensures n < |tokens| ==> tokens[n] == "--" || ReadsAsGlobal(tokens[n])
  {
    if tokens == [] || tokens[0] == "--" || ReadsAsGlobal(tokens[0]) then 0 else 1 + CleanPrefix(tokens[1..])
  }

  // Tokens left in place are no globals up to the first `--`, except a waiting one that ends the line.
  lemma {:induction false} InPlaceLeaves(after: seq<string>)
    ensures var q := InPlace(after).1;
            CleanPrefix(q) < |q| && q[CleanPrefix(q)] != "--" ==>
              CleanPrefix(q) == |q| - 1 && after != [] && q[|q| - 1] == after[|after| - 1]
                  && ReadToken(q[|q| - 1]).Awaiting?
    decreases |after|
  {
    hide ReadsAsGlobal, InPlace, ReadToken;
    if after == [] || after[0] == "--" {
      InPlaceEnds(after);
    } else {
      InPlaceStep(after);
      if ReadsAsGlobal(after[0]) {
        GlobalIsRead(after[0]);
        if ReadToken(after[0]).Complete? {
          InPlaceLeaves(after[1..]);
        } else if |after| > 1 {
          InPlaceLeaves(after[2..]);
        }
      } else {
        InPlaceLeaves(after[1..]);
        assert ([after[0]] + InPlace(after[1..]).1)[1..] == InPlace(after[1..]).1;
      }
    }
  }

  lemma {:induction false} CleanPrefixOf(a: seq<string>, b: seq<string>)
    ensures CleanPrefix(a + b) == if CleanPrefix(a) < |a| then CleanPrefix(a) else |a| + CleanPrefix(b)
  {
    hide ReadsAsGlobal;
    if a == [] {
      assert a + b == b;
    } else {
      assert (a + b)[1..] == a[1..] + b;
      CleanPrefixOf(a[1..], b);
    }
  }

  // In a run of hoisted tokens `--` comes only behind a global that takes it for a value.
  lemma {:induction false} HoistedCleanPrefix(after: seq<string>)
    ensures var h := Part(after).0; CleanPrefix(h) < |h| ==> h[CleanPrefix(h)] != "--"
    decreases |after|
  {
    hide Hoistable, Waits, Part, ReadsAsGlobal, ReadToken, FlagWithValue, EmptyInline;
    PartByTokens(after);
    if after != [] && after[0] != "--" {
      ConsumedByTokens(after);
      if Hoistable(after[0]) { HoistableReads(after[0]); }
      if !Waits(after[0]) {
        HoistedCleanPrefix(after[1..]);
        assert ([after[0]] + Part(after[1..]).0)[1..] == Part(after[1..]).0;
      }
    }
  }

  lemma {:induction false} AllHoistedIsAll(after: seq<string>)
    requires Part(after).1 == []
    ensures Part(after).0 == after
    decreases |after|
  {
    hide ConsumeOne;
    if after != [] && after[0] != "--" {
      AllHoistedIsAll(after[ConsumeOne(after).0..]);
    }
  }

  // When the parser passes the tokens as globals to the end, reading in place leaves nothing.
  lemma {:induction false} PassedIsRead(after: seq<string>)
    requires ScanOf(after) == Through
    ensures InPlace(after).1 == []
  {
    hide ReadToken, ReadsAsGlobal, InPlace, IsStop;
    if after == [] {
      InPlaceEnds(after);
    } else {
      StopTokens(after[0]);
      if ReadsAsGlobal(after[0]) { GlobalIsRead(after[0]); }
      InPlaceStep(after);
      if ReadToken(after[0]).Complete? {
        PassedIsRead(after[1..]);
      } else {
        PassedIsRead(after[2..]);
      }
    }
  }

  // Behind a glued global that waits for its value, the two readings bind something else first, or part later.
  lemma GluedWaitingDiffers(after: seq<string>, tail: seq<string>)
    requires |after| > 1 && Glued(after[0]) && ReadToken(after[0]).Awaiting? && tail != []
    requires Part(after[1..]).1 == [] && ScanOf(Part(after[1..]).0) == Through && InPlace(after).1 == [after[0]]
    ensures GroupParse(Part(after[1..]).0 + tail, false).bindings != InPlace(after).0
  {
    hide Hoistable, Waits, Part, ReadToken, ReadsAsGlobal, InPlace, FlagWithValue, EmptyInline, IsStop;
    hide GroupParse, ScanOf;
    var s := after[1..];
    FirstInPlaceIsFlag(after);
    AllHoistedIsAll(s);
    HoistedFirst(s);
    if !Waits(s[0]) {
      assert s[1..] == after[2..];
      ScanTail(s);
      PassedIsRead(after[2..]);
    } else {
      var line := s + tail;
      assert line[0] == s[0] && |line| > 1;
      ParseOption(line, false);
      assert GroupParse(line, false).bindings[0].value.Some?;
    }
  }

  lemma ScanTail(opts: seq<string>)
    requires opts != [] && ScanOf(opts) == Through && !(ReadsAsGlobal(opts[0]) && ReadToken(opts[0]).Awaiting?)
    ensures ScanOf(opts[1..]) == Through
  {
    hide ReadsAsGlobal, ReadToken, IsStop;
    if ReadsAsGlobal(opts[0]) {
      GlobalIsRead(opts[0]);
    }
  }

  // When everything gets hoisted, the first token is hoisted too; what takes a value binds it.
  lemma HoistedFirst(after: seq<string>)
    requires after != [] && Part(after).1 == []
    ensures !IsStop(after[0])
    ensures !Waits(after[0]) ==> !(ReadsAsGlobal(after[0]) && ReadToken(after[0]).Awaiting?)
    ensures Waits(after[0]) ==>
              || ReadToken(after[0]) == Awaiting([], after[0])
              || (ReadToken(after[0]).Complete? && ReadToken(after[0]).bindings != []
                  && ReadToken(after[0]).bindings[0].value.Some?)
  {
    hide Hoistable, Part, ReadToken, ReadsAsGlobal, FlagWithValue, TakesValue, IsFlag, IsStop;
    PartByTokens(after);
    ConsumedByTokens(after);
    HoistableReads(after[0]);
    if FlagWithValue(after[0]) { FlagIsNotRead(after[0]); }
    if Waits(after[0]) { NamedReads(after[0]); }
  }

  lemma FirstInPlaceIsFlag(after: seq<string>)
    requires |after| > 1 && Glued(after[0]) && ReadToken(after[0]).Awaiting?
    ensures InPlace(after).0 != [] && InPlace(after).0[0].value == None && InPlace(after).1 == InPlace(after[2..]).1
  {
    hide Hoistable, ReadToken, ReadsAsGlobal, InPlace, IsStop;
    GlobalIsRead(after[0]);
    StopTokens(after[0]);
    GlobalBinds(after[0]);
    InPlaceWaits(after);
  }

  lemma {:induction false} InertIsClean(tokens: seq<string>)
    requires Inert(tokens)
    ensures CleanPrefix(tokens) == |tokens|
  {
    hide Hoistable, ReadsAsGlobal;
    if tokens != [] {
      InertIsClean(tokens[1..]);
    }
  }

  // The tokens left in place behind inert ones: a global among them ends the line.
  lemma LeftoversEnd(left: seq<string>, after: seq<string>)
    requires Inert(left)
    ensures var all := left + InPlace(after).1;
            var n := CleanPrefix(all);
            n < |all| && all[n] != "--" ==>
              n == |all| - 1 && after != [] && all[n] == after[|after| - 1] && ReadToken(all[n]).Awaiting?
  {
    hide ReadsAsGlobal, ReadToken, InPlace, Inert, CleanPrefix;
    InertIsClean(left);
    CleanPrefixOf(left, InPlace(after).1);
    InPlaceLeaves(after);
  }

  lemma CleanUpToGlued(head: seq<string>, left: seq<string>, g: string, r: seq<string>)
    requires CleanPrefix(head) == |head| && Inert(left) && ReadsAsGlobal(g)
    ensures CleanPrefix(head + (left + ([g] + r))) == |head| + |left|
  {
    hide ReadsAsGlobal, Inert;
    InertIsClean(left);
    assert CleanPrefix([g] + r) == 0;
    CleanPrefixOf(left, [g] + r);
    CleanPrefixOf(head, left + ([g] + r));
  }

  lemma EmptyIsClean()
    ensures CleanPrefix([]) == 0
  {
  }

  // The token the scan stops at is the last one, or else the hoisted tokens behind it end the line.
  lemma LastHoisted(after: seq<string>, n: nat)
    requires after != [] && n < |Part(after[1..]).0| && Part(after[1..]).1 == []
    ensures var h := Part(after[1..]).0;
            if n == |h| - 1 then h[n] == after[|after| - 1]
            else h[n + 1..] != [] && h[n + 1..][|h| - n - 2] == after[|after| - 1]
  {
    hide Part;
    AllHoistedIsAll(after[1..]);
  }

  lemma StoppedAtBare(subcommand: string, left: seq<string>, g: string, r: seq<string>, h: seq<string>)
    requires Inert(left) && ReadsAsGlobal(g) && g != "--" && subcommand != "--" && !ReadsAsGlobal(subcommand)
    requires CleanPrefix(h) < |h| ==> h[CleanPrefix(h)] != "--"
    ensures var tail := h + ([subcommand] + (left + ([g] + r)));
            var n := CleanPrefix(tail);
            && n < |tail| && tail[n] != "--"
            && (n == |tail| - 1 ==> r == [] && tail[n] == g && (h != [] ==> !ReadsAsGlobal(h[|h| - 1])))
  {
    hide Hoistable, ReadsAsGlobal, Inert;
    var rest := left + ([g] + r);
    var tail := h + ([subcommand] + rest);
    CleanPrefixOf(h, [subcommand] + rest);
    if CleanPrefix(h) == |h| {
      assert CleanPrefix([subcommand]) == 1 by { assert [subcommand][1..] == []; }
      CleanUpToGlued([subcommand], left, g, r);
      assert tail[|h| + 1 + |left|] == g;
    } else {
      assert tail[CleanPrefix(h)] == h[CleanPrefix(h)];
    }
  }

  lemma StoppedAtEnd(subcommand: string, left: seq<string>, g: string, r: seq<string>, behind: seq<string>)
    requires IsBare(subcommand) && Inert(left) && ReadsAsGlobal(g) && g != "--"
    ensures var tail := Part(behind).0 + ([subcommand] + (left + ([g] + r)));
            tail[0] == subcommand ==>
              && Part(behind).0 == [] && tail[1..] == left + ([g] + r)
              && CleanPrefix(tail[1..]) == |left| && tail[1..][|left|] == g
  {
    hide Hoistable, Part, ReadsAsGlobal, IsBare, Inert, CleanPrefix, IsStop;
    var h, rest := Part(behind).0, left + ([g] + r);
    NothingHoistedExactlyWhen(behind);
    BareIsNotHoistable(subcommand);
    if h == [] {
      EmptyIsClean();
      CleanUpToGlued([], left, g, r);
      HeadAndRest(subcommand, rest);
      InMiddle(left, g, r);
    } else {
      FrontFirst(h, [subcommand] + rest);
    }
  }

  lemma HeadAndRest(x: string, rest: seq<string>)
    ensures [] + rest == rest && ([] + ([x] + rest))[0] == x && ([] + ([x] + rest))[1..] == rest
  {
  }

  lemma InMiddle(left: seq<string>, x: string, right: seq<string>)
    ensures (left + ([x] + right))[|left|] == x
  {
  }

  lemma FrontFirst(a: seq<string>, b: seq<string>)
    requires a != []
    ensures (a + b)[0] == a[0]
  {
  }

  lemma GluedStopped(subcommand: string, left: seq<string>, after: seq<string>, n: nat, behind: seq<string>)
    requires IsBare(subcommand) && subcommand != "--" && Inert(left)
    requires after != [] && Glued(after[0]) && ScanOf(Part(after[1..]).0) == At(n)
    requires n < |Part(after[1..]).0| && Part(after[1..]).0[n + 1..] == Part(behind).0
    ensures var (h, r) := Part(after[1..]);
            var tail := h[n + 1..] + ([subcommand] + (left + ([after[0]] + r)));
            && (h[n] == "--" ==> tail[0] != subcommand || tail[1..] != left + InPlace(after).1)
            && (h[n] != "--" ==> tail != left + InPlace(after).1)
  {
    hide Hoistable, Part, ReadToken, ReadsAsGlobal, InPlace, IsStop, IsBare, Inert, CleanPrefix, ScanOf;
    var (h, r) := Part(after[1..]);
    GlobalIsRead(after[0]);
    StopTokens(after[0]);
    ScanInside(h);
    if r == [] { LastHoisted(after, n); }
    LeftoversEnd(left, after);
    if h[n] == "--" {
      StoppedAtEnd(subcommand, left, after[0], r, behind);
    } else {
      BareIsNotHoistable(subcommand);
      BareIsNotRead(subcommand);
      HoistedCleanPrefix(behind);
      StoppedAtBare(subcommand, left, after[0], r, h[n + 1..]);
    }
  }

  lemma GluedPassed(subcommand: string, left: seq<string>, after: seq<string>)
    requires Inert(left) && after != [] && Glued(after[0]) && !(ReadToken(after[0]).Awaiting? && |after| == 1)
    requires ScanOf(Part(after[1..]).0) == Through
    ensures left + ([after[0]] + Part(after[1..]).1) != left + InPlace(after).1
         || GroupParse(Part(after[1..]).0 + ([subcommand] + (left + ([after[0]] + Part(after[1..]).1))), false).bindings
            != InPlace(after).0
  {
    hide Hoistable, Waits, Part, ReadToken, ReadsAsGlobal, InPlace, FlagWithValue, EmptyInline, GroupParse, IsStop;
    hide IsBare, Inert, CleanPrefix, ScanOf;
    var g, r, q := after[0], Part(after[1..]).1, InPlace(after).1;
    var rest := left + ([g] + r);
    if rest == left + q {
      LeftoversEnd(left, after);
      EmptyIsClean();
      CleanUpToGlued([], left, g, r);
      assert [] + rest == rest && rest[|left|] == g;
      GlobalIsRead(g);
      StopTokens(g);
      assert r == [] && ReadToken(g).Awaiting?;
      assert q == rest[|left|..] == [g];
      GluedWaitingDiffers(after, [subcommand] + rest);
    }
  }

  /** A glued global in front of further tokens changes the meaning, whatever those tokens are, unless nothing was left
      before it, a swallowed global takes the subcommand for its value and a further token is spelled like that. */
  lemma GluedDiffers(subcommand: string, left: seq<string>, after: seq<string>)
    requires IsBare(subcommand) && subcommand != "--" && Inert(left)
    requires after != [] && Glued(after[0]) && !(ReadToken(after[0]).Awaiting? && |after| == 1)
    requires !(left == [] && subcommand in after && Overhangs(after[1..], false))
    ensures !SameReading(subcommand, left, after)
  {
    hide Hoistable, Waits, Part, ReadToken, ReadsAsGlobal, InPlace, FlagWithValue, EmptyInline, GroupParse, IsStop;
    hide IsBare, Inert, CleanPrefix, ScanOf, Dangles, AllGlobal, Overhangs;
    var g, s := after[0], after[1..];
    GlobalIsRead(g);
    StopTokens(g);
    ConsumedByTokens(after);
    PartByTokens(after);
    OverhangsExactlyWhen(s, false);
    if SameReading(subcommand, left, after) {
      var (h, r) := Part(s);
      var rest := left + ([g] + r);
      InPlaceBindsGlobals(after);
      if Dangles(h) {
        OverhangDiffers(subcommand, left, after);
      } else {
        ScanParse(h, subcommand, rest);
        ScanInside(h);
        LeftoversEnd(left, after);
        match ScanOf(h)
        case Through =>
          GluedPassed(subcommand, left, after);
        case At(n) =>
          var behind := StopIsValue(s, n);
          GluedStopped(subcommand, left, after, n, behind);
        case Bad =>
      }
    }
  }
}
