/** Hoisting rearranges the command line stably, and when repeating it changes nothing. */
module ArgvLaws {
  import opened Argv
  import opened ArgvMeaning

  // ----- hoisting, token by token -----

  lemma PartByTokens(after: seq<string>)
    ensures after == [] || after[0] == "--" ==> Part(after) == ([], after)
    ensures after != [] && after[0] != "--" && Waits(after[0]) && |after| == 1 ==> Part(after) == ([], after)
    ensures after != [] && after[0] != "--" && Waits(after[0]) && |after| > 1 ==>
              Part(after) == ([after[0], after[1]] + Part(after[2..]).0, Part(after[2..]).1)
    ensures after != [] && after[0] != "--" && !Waits(after[0]) ==>
              var (hoisted, remaining) := Part(after[1..]);
              Part(after) == if Hoistable(after[0]) then ([after[0]] + hoisted, remaining)
                             else (hoisted, [after[0]] + remaining)
  {
    hide ConsumeOne, Waits, Hoistable, Part;
    PartStep(after);
    if after != [] && after[0] != "--" {
      ConsumedByTokens(after);
      assert after[..1] == [after[0]];
      if |after| > 1 {
        assert after[..2] == [after[0], after[1]];
      } else {
        PartStep([]);
        assert after[1..] == [] && after[..1] + [] == after;
      }
    }
  }

  // No token in front of the first `--` is a global, apart from a value-taking one at the very end.
  predicate NothingToHoist(after: seq<string>) {
    after == [] || after[0] == "--"
    || (if Hoistable(after[0]) then Waits(after[0]) && |after| == 1 else NothingToHoist(after[1..]))
  }

  lemma {:induction false} NothingHoistedExactlyWhen(after: seq<string>)
    ensures Part(after).0 == [] <==> NothingToHoist(after)
    ensures Part(after).0 == [] ==> Part(after).1 == after
    ensures Part(after).0 != [] ==> Hoistable(Part(after).0[0]) && !IsStop(Part(after).0[0])
    decreases |after|
  {
    hide Waits, Hoistable, Part, IsStop;
    PartByTokens(after);
    if after != [] && after[0] != "--" {
      ConsumedByTokens(after);
      if Hoistable(after[0]) {
        HoistableReads(after[0]);
      } else {
        NothingHoistedExactlyWhen(after[1..]);
      }
    }
  }

  lemma BareIsNotHoistable(arg: string)
    requires IsBare(arg)
    ensures !Hoistable(arg) && !Waits(arg) && arg != "--"
  {
    hide TakesValue, IsFlag, ReadToken;
    if Hoistable(arg) {
      HoistableReads(arg);
    }
  }

  lemma GlobalIsOption(after: seq<string>)
    requires after != [] && ConsumeOne(after).1
    ensures !IsStop(after[0])
  {
    hide TakesValue, IsFlag, ReadToken, Hoistable;
    ConsumedByTokens(after);
    HoistableReads(after[0]);
  }

  lemma NormalizedUntouched(argv: seq<string>)
    ensures var k := StopIndex(argv); k == |argv| || argv[k] == "--" ==> Normalized(argv) == argv
  {
  }

  lemma NormalizedShape(argv: seq<string>)
    requires StopIndex(argv) < |argv| && argv[StopIndex(argv)] != "--"
    ensures var k := StopIndex(argv);
            Normalized(argv) == argv[..k] + (Part(argv[k + 1..]).0 + ([argv[k]] + Part(argv[k + 1..]).1))
  {
    hide Part, IsBare, StopIndex;
    var k := StopIndex(argv);
    Regroup(argv[..k], Part(argv[k + 1..]).0, [argv[k]], Part(argv[k + 1..]).1);
  }

  lemma Regroup(a: seq<string>, b: seq<string>, c: seq<string>, d: seq<string>)
    ensures a + b + c + d == a + (b + (c + d))
  {
  }

  // ----- stability -----

  // `s` interleaves `a` and `b`, each in its own order.
  ghost predicate Interleaves(s: seq<string>, a: seq<string>, b: seq<string>) {
    if s == [] then a == [] && b == []
    else
      || (a != [] && a[0] == s[0] && Interleaves(s[1..], a[1..], b))
      || (b != [] && b[0] == s[0] && Interleaves(s[1..], a, b[1..]))
  }

  lemma {:induction false} InterleavesAfter(prefix: seq<string>, s: seq<string>, a: seq<string>, b: seq<string>)
    requires Interleaves(s, a, b)
    ensures Interleaves(prefix + s, prefix + a, b) && Interleaves(prefix + s, a, prefix + b)
  {
    if prefix == [] {
      assert prefix + s == s && prefix + a == a && prefix + b == b;
    } else {
      InterleavesAfter(prefix[1..], s, a, b);
      assert (prefix + s)[1..] == prefix[1..] + s;
      assert (prefix + a)[1..] == prefix[1..] + a;
      assert (prefix + b)[1..] == prefix[1..] + b;
    }
  }

  lemma {:induction false} InterleavedMultiset(s: seq<string>, a: seq<string>, b: seq<string>)
    requires Interleaves(s, a, b)
    ensures multiset(s) == multiset(a) + multiset(b)
  {
    if s != [] {
      assert s == [s[0]] + s[1..];
      if a != [] && a[0] == s[0] && Interleaves(s[1..], a[1..], b) {
        InterleavedMultiset(s[1..], a[1..], b);
        assert a == [a[0]] + a[1..];
      } else {
        InterleavedMultiset(s[1..], a, b[1..]);
        assert b == [b[0]] + b[1..];
      }
    }
  }

  // The tokens after the subcommand are the hoisted and the remaining ones, both in their original order.
  lemma {:induction false} PartIsStable(after: seq<string>)
    ensures Interleaves(after, Part(after).0, Part(after).1)
    decreases |after|
  {
    hide ConsumeOne, Part;
    PartStep(after);
    if after == [] || after[0] == "--" {
      InterleavesAfter(after, [], [], []);
      assert after + [] == after;
    } else {
      var n := ConsumeOne(after).0;
      PartIsStable(after[n..]);
      assert after == after[..n] + after[n..];
      InterleavesAfter(after[..n], after[n..], Part(after[n..]).0, Part(after[n..]).1);
    }
  }

  /** For every command line the result is a permutation of it that keeps what precedes the subcommand in
      front, and keeps the order inside the hoisted and inside the remaining tokens. */
  lemma NormalizedRearranges(argv: seq<string>) returns (hoisted: seq<string>, remaining: seq<string>)
    ensures multiset(Normalized(argv)) == multiset(argv)
    ensures var k := StopIndex(argv);
            k < |argv| && argv[k] != "--" ==>
              && Normalized(argv) == argv[..k] + hoisted + [argv[k]] + remaining
              && Interleaves(argv[k + 1..], hoisted, remaining)
  {
    hide Part;
    hoisted, remaining := [], [];
    var k := StopIndex(argv);
    if k < |argv| && argv[k] != "--" {
      var after := argv[k + 1..];
      hoisted, remaining := Part(after).0, Part(after).1;
      PartIsStable(after);
      InterleavedMultiset(after, hoisted, remaining);
      assert argv == argv[..k] + [argv[k]] + after;
    }
  }

  // ----- repetition -----

  predicate GlobalRun(opts: seq<string>) {
    opts == [] || (opts[0] != "--" && ConsumeOne(opts).1 && GlobalRun(opts[ConsumeOne(opts).0..]))
  }

  lemma ConsumeIsLocal(after: seq<string>, more: seq<string>)
    requires after != []
    ensures ConsumeOne(after).1 ==> ConsumeOne(after + more) == ConsumeOne(after)
    ensures ConsumeOne(after).1 ==> ConsumeOne(after[..ConsumeOne(after).0] + more) == ConsumeOne(after)
  {
  }

  lemma {:induction false} HoistedIsGlobalRun(after: seq<string>)
    ensures GlobalRun(Part(after).0)
    decreases |after|
  {
    hide ConsumeOne, Part;
    PartStep(after);
    if after != [] && after[0] != "--" {
      var (n, global) := ConsumeOne(after);
      HoistedIsGlobalRun(after[n..]);
      if global {
        var h := Part(after[n..]).0;
        ConsumeIsLocal(after, h);
        assert (after[..n] + h)[n..] == h && (after[..n] + h)[0] == after[0];
      }
    }
  }

  // A bare or `--` token inside a run of globals is a detached value; what follows it is again a run of globals.
  lemma {:induction false} StopInRunIsValue(opts: seq<string>)
    requires GlobalRun(opts) && StopIndex(opts) < |opts|
    ensures GlobalRun(opts[StopIndex(opts) + 1..])
    decreases |opts|
  {
    hide ConsumeOne;
    GlobalIsOption(opts);
    var n := ConsumeOne(opts).0;
    ConsumeAtMostTwo(opts);
    if n == 1 {
      StopInRunIsValue(opts[1..]);
      assert opts[1..][StopIndex(opts[1..]) + 1..] == opts[StopIndex(opts) + 1..];
    } else {
      assert StopIndex(opts) == 1 + StopIndex(opts[1..]);
      if IsStop(opts[1]) {
        assert StopIndex(opts) == 1;
      } else {
        assert opts[1..][1..] == opts[2..];
        StopInRunIsValue(opts[2..]);
        assert opts[2..][StopIndex(opts[2..]) + 1..] == opts[StopIndex(opts) + 1..];
      }
    }
  }

  lemma ConsumeAtMostTwo(after: seq<string>)
    requires after != []
    ensures ConsumeOne(after).0 <= 2
  {
  }

  // What was left behind once is left behind again.
  lemma {:induction false} RemainingStays(after: seq<string>)
    ensures Part(Part(after).1) == ([], Part(after).1)
    decreases |after|
  {
    hide ConsumeOne, Part;
    PartStep(after);
    if after != [] && after[0] != "--" {
      var (n, global) := ConsumeOne(after);
      RemainingStays(after[n..]);
      if !global {
        var r := Part(after[n..]).1;
        LeftoverConsumes(after);
        PartStep(after[..n] + r);
        assert (after[..n] + r)[n..] == r && (after[..n] + r)[..n] == after[..n];
      }
    }
  }

  // A token passed over is passed over again in front of what else remains.
  lemma LeftoverConsumes(after: seq<string>)
    requires after != [] && after[0] != "--" && !ConsumeOne(after).1
    ensures ConsumeOne(after).0 == 1
    ensures ConsumeOne(after[..1] + Part(after[1..]).1) == (1, false)
  {
    hide TakesValue, IsFlag;
    if |after| == 1 {
      PartStep([]);
      assert after[1..] == [] && after[..1] + [] == after;
    }
  }

  lemma StopAfterRun(opts: seq<string>, x: string, tail: seq<string>)
    requires IsStop(x)
    ensures StopIndex(opts + [x] + tail) == StopIndex(opts)
  {
    var all := opts + [x] + tail;
    assert forall i :: 0 <= i < |opts| ==> all[i] == opts[i];
    assert all[|opts|] == x;
  }

  lemma {:induction false} StopInSecond(before: seq<string>, tail: seq<string>)
    requires forall i :: 0 <= i < |before| ==> !IsStop(before[i])
    ensures StopIndex(before + tail) == |before| + StopIndex(tail)
  {
    hide IsStop;
    if before == [] {
      assert before + tail == tail;
    } else {
      assert (before + tail)[1..] == before[1..] + tail;
      StopInSecond(before[1..], tail);
    }
  }

  // The first bare or `--` token among the hoisted ones, if any, is `--` or comes last.
  predicate Settles(hoisted: seq<string>) {
    var j := StopIndex(hoisted);
    j == |hoisted| || hoisted[j] == "--" || j == |hoisted| - 1
  }

  // The first bare or `--` token taken for a detached value, if any, is `--` or has no global behind it to hoist.
  predicate StaysSettled(after: seq<string>) {
    after == [] || after[0] == "--"
    || (if !Waits(after[0]) then StaysSettled(after[1..])
        else if |after| == 1 then true
        else if IsStop(after[1]) then after[1] == "--" || NothingToHoist(after[2..])
        else StaysSettled(after[2..]))
  }

  lemma {:induction false} SettlesExactlyWhen(after: seq<string>)
    ensures Settles(Part(after).0) <==> StaysSettled(after)
    decreases |after|
  {
    hide Waits, Hoistable, Part, IsStop, ConsumeOne;
    PartByTokens(after);
    if after != [] && after[0] != "--" {
      ConsumedByTokens(after);
      if Hoistable(after[0]) {
        HoistableReads(after[0]);
      }
      if !Waits(after[0]) {
        SettlesExactlyWhen(after[1..]);
        assert ([after[0]] + Part(after[1..]).0)[1..] == Part(after[1..]).0;
      } else if |after| > 1 {
        var h := Part(after[2..]).0;
        assert ([after[0], after[1]] + h)[1..] == [after[1]] + h && ([after[1]] + h)[1..] == h;
        NothingHoistedExactlyWhen(after[2..]);
        SettlesExactlyWhen(after[2..]);
        if IsStop(after[1]) {
          assert StopIndex([after[1]] + h) == 0;
        } else {
          assert StopIndex([after[1]] + h) == 1 + StopIndex(h);
        }
      }
    }
  }

  /** Normalising twice is normalising once exactly when there is no subcommand, or the first bare or `--` token
      hoisted as a detached value is `--` or has no global behind it. */
  lemma NormalizingTwice(argv: seq<string>)
    ensures Normalized(Normalized(argv)) == Normalized(argv)
       <==> var k := StopIndex(argv); k == |argv| || argv[k] == "--" || StaysSettled(argv[k + 1..])
  {
    hide ConsumeOne, Part, IsBare, IsStop, Normalized, StopIndex, GlobalRun, Settles, StaysSettled;
    var k := StopIndex(argv);
    if k == |argv| || argv[k] == "--" {
      NormalizedUntouched(argv);
    } else {
      NormalizedShape(argv);
      StopIsBare(argv[k]);
      SecondPass(argv[..k], argv[k], argv[k + 1..]);
      SettlesExactlyWhen(argv[k + 1..]);
    }
  }

  lemma StopIsBare(arg: string)
    requires IsStop(arg) && arg != "--"
    ensures IsBare(arg)
  {
  }

  lemma SecondPass(before: seq<string>, sub: string, after: seq<string>)
    requires (forall i :: 0 <= i < |before| ==> !IsStop(before[i])) && IsStop(sub) && IsBare(sub) && sub != "--"
    ensures var line := before + (Part(after).0 + ([sub] + Part(after).1));
            Normalized(line) == line <==> Settles(Part(after).0)
  {
    hide ConsumeOne, Part, IsBare, IsStop, Normalized, StopIndex, GlobalRun;
    var h, r := Part(after).0, Part(after).1;
    var line := before + (h + ([sub] + r));
    LineStop(before, h, sub, r);
    var j := StopIndex(h);
    if j == |h| {
      RemainingStays(after);
      Regroup(before, h, [sub], r);
      RenormalizedAt(before + h, sub, r);
    } else if h[j] == "--" {
      NormalizedUntouched(line);
    } else {
      HoistedIsGlobalRun(after);
      StopInRunIsValue(h);
      RescanHoists(h[j + 1..], sub, r, after);
      RegroupAround(before, h, j, sub, r);
      RenormalizedAt(before + h[..j], h[j], h[j + 1..] + [sub] + r);
    }
  }

  // The normalised line stops where its hoisted tokens do, or at the subcommand.
  lemma LineStop(before: seq<string>, h: seq<string>, sub: string, r: seq<string>)
    requires (forall i :: 0 <= i < |before| ==> !IsStop(before[i])) && IsStop(sub)
    ensures var line := before + (h + ([sub] + r));
            && StopIndex(line) == |before| + StopIndex(h)
            && line[|before| + StopIndex(h)] == if StopIndex(h) < |h| then h[StopIndex(h)] else sub
  {
    hide IsStop, StopIndex;
    Regroup([], h, [sub], r);
    assert [] + h + [sub] + r == h + [sub] + r;
    assert [] + (h + ([sub] + r)) == h + ([sub] + r);
    StopInSecond(before, h + [sub] + r);
    StopAfterRun(h, sub, r);
  }

  lemma RegroupAround(before: seq<string>, h: seq<string>, j: nat, sub: string, r: seq<string>)
    requires j < |h|
    ensures before + (h + ([sub] + r)) == (before + h[..j]) + [h[j]] + (h[j + 1..] + [sub] + r)
  {
    assert h == h[..j] + [h[j]] + h[j + 1..];
  }

  // A line that stops at a bare token is left alone exactly when nothing behind that token is hoisted.
  lemma RenormalizedAt(front: seq<string>, x: string, tail: seq<string>)
    requires StopIndex(front + [x] + tail) == |front| && x != "--"
    ensures Normalized(front + [x] + tail) == front + [x] + tail <==> Part(tail).0 == []
  {
    hide ConsumeOne, Part, IsBare, Normalized, StopIndex;
    var line := front + [x] + tail;
    NormalizedShape(line);
    Cut(front, x, tail);
    NothingHoistedExactlyWhen(tail);
    if Part(tail).0 == [] {
      Rejoin(front, x, tail);
    } else {
      DiffersAt(front, Part(tail).0, [x] + Part(tail).1, x, tail);
    }
  }

  lemma Cut(front: seq<string>, x: string, tail: seq<string>)
    ensures var line := front + [x] + tail;
            line[..|front|] == front && line[|front|] == x && line[|front| + 1..] == tail
  {
  }

  lemma Rejoin(front: seq<string>, x: string, tail: seq<string>)
    ensures front + ([] + ([x] + tail)) == front + [x] + tail
  {
  }

  lemma DiffersAt(front: seq<string>, h: seq<string>, rest: seq<string>, x: string, tail: seq<string>)
    requires h != [] && h[0] != x
    ensures front + (h + rest) != front + [x] + tail
  {
    assert (front + (h + rest))[|front|] == h[0];
    assert (front + [x] + tail)[|front|] == x;
  }

  // Scanning again behind a hoisted bare value hoists something exactly when a global follows it.
  lemma RescanHoists(opts: seq<string>, sub: string, r: seq<string>, after: seq<string>)
    requires GlobalRun(opts) && IsBare(sub) && r == Part(after).1
    ensures Part(opts + [sub] + r).0 == [] <==> opts == []
  {
    hide ConsumeOne, Part;
    var line := opts + [sub] + r;
    PartStep(line);
    if opts == [] {
      assert line[0] == sub && line[1..] == r;
      BareConsumes(line);
      RemainingStays(after);
      assert line[..1] == [sub];
    } else {
      assert line == opts + ([sub] + r);
      ConsumeIsLocal(opts, [sub] + r);
    }
  }

  lemma BareConsumes(after: seq<string>)
    requires after != [] && IsBare(after[0])
    ensures ConsumeOne(after) == (1, false) && after[0] != "--"
  {
    hide Hoistable, Waits, ConsumeOne;
    BareIsNotHoistable(after[0]);
    ConsumedByTokens(after);
  }
}
