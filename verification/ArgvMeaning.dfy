/**
 What the group-level parser reads from a command line, and when hoisting preserves it.
 The parser stops at the first argument that is not an option, as Click's groups do; reading
 `anywhere` additionally takes global options found after the subcommand, up to a literal `--`.
 */
module ArgvMeaning {
  import opened Wrappers
  import opened Text
  import opened Argv

  datatype Binding = Binding(option: string, value: Option<string>)

  datatype Reading =
    | Complete(bindings: seq<Binding>)
    | Awaiting(bindings: seq<Binding>, option: string)
    | Invalid

  datatype Parse =
    | Dispatch(bindings: seq<Binding>, subcommand: string, rest: seq<string>)
    | NoSubcommand(bindings: seq<Binding>)
    | UsageError(bindings: seq<Binding>, token: string)

  function ReadCluster(chars: string): Reading {
    if chars == "" then Complete([])
    else
      var option := ['-', chars[0]];
      if TakesValue(option) then
        if |chars| == 1 then Awaiting([], option) else Complete([Binding(option, Some(chars[1..]))])
      else if IsFlag(option) || option == "-h" then
        match ReadCluster(chars[1..])
        case Complete(bs) => Complete([Binding(option, None)] + bs)
        case Awaiting(bs, o) => Awaiting([Binding(option, None)] + bs, o)
        case Invalid => Invalid
      else Invalid
  }

  // What one option token means to the parser: a long option, or a cluster of short ones.
  function ReadToken(arg: string): Reading {
    if "--" <= arg then
      if '=' in arg then
        if TakesValue(Name(arg)) then Complete([Binding(Name(arg), Some(Inline(arg)))]) else Invalid
      else if TakesValue(arg) then Awaiting([], arg)
      else if IsFlag(arg) || arg == "--help" || arg == "--version" then Complete([Binding(arg, None)])
      else Invalid
    else if arg != "" then ReadCluster(arg[1..])
    else Invalid
  }

  function Prepend(bs: seq<Binding>, p: Parse): Parse {
    p.(bindings := bs + p.bindings)
  }

  function GroupParse(argv: seq<string>, anywhere: bool): Parse {
    if argv == [] then NoSubcommand([])
    else if argv[0] == "--" then
      if |argv| == 1 then NoSubcommand([]) else Dispatch([], argv[1], argv[2..])
    else if IsBare(argv[0]) then
      if anywhere then Dispatch(InPlace(argv[1..]).0, argv[0], InPlace(argv[1..]).1)
      else Dispatch([], argv[0], argv[1..])
    else
      match ReadToken(argv[0])
      case Complete(bs) => Prepend(bs, GroupParse(argv[1..], anywhere))
      case Awaiting(bs, option) =>
        if |argv| == 1 then UsageError(bs, argv[0])
        else Prepend(bs + [Binding(option, Some(argv[1]))], GroupParse(argv[2..], anywhere))
      case Invalid => UsageError([], argv[0])
  }

  // ----- globals behind the subcommand -----

  predicate IsGlobalOption(option: string) {
    TakesValue(option) || IsFlag(option)
  }

  predicate AllGlobal(bs: seq<Binding>) {
    forall i :: 0 <= i < |bs| ==> IsGlobalOption(bs[i].option)
  }

  // The group parser reads nothing but global options from the token.
  predicate ReadsAsGlobal(arg: string) {
    !IsStop(arg) &&
    match ReadToken(arg)
    case Complete(bs) => AllGlobal(bs)
    case Awaiting(bs, _) => AllGlobal(bs)
    case Invalid => false
  }

  // The globals read where they stand, and the tokens left to the subcommand. A value-taking global with
  // nothing after it stays with the subcommand, whose parser reports it.
  function InPlace(after: seq<string>): (seq<Binding>, seq<string>) {
    if after == [] || after[0] == "--" then ([], after)
    else if !ReadsAsGlobal(after[0]) then
      var (bs, rest) := InPlace(after[1..]);
      (bs, [after[0]] + rest)
    else if ReadToken(after[0]).Complete? then
      var (bs, rest) := InPlace(after[1..]);
      (ReadToken(after[0]).bindings + bs, rest)
    else if |after| == 1 then ([], after)
    else
      var (bs, rest) := InPlace(after[2..]);
      (ReadToken(after[0]).bindings + [Binding(ReadToken(after[0]).option, Some(after[1]))] + bs, rest)
  }

  // ----- runs of options with their values -----

  predicate OptionRun(opts: seq<string>) {
    opts == [] ||
    (!IsStop(opts[0]) &&
     match ReadToken(opts[0])
     case Complete(_) => OptionRun(opts[1..])
     case Awaiting(_, _) => |opts| > 1 && OptionRun(opts[2..])
     case Invalid => true)
  }

  // What a run binds before the first token the parser rejects, if any.
  function ReadRun(opts: seq<string>): (seq<Binding>, Option<string>)
    requires OptionRun(opts)
  {
    if opts == [] then ([], None)
    else
      match ReadToken(opts[0])
      case Complete(bs) => var (more, bad) := ReadRun(opts[1..]); (bs + more, bad)
      case Awaiting(bs, option) =>
        var (more, bad) := ReadRun(opts[2..]); (bs + [Binding(option, Some(opts[1]))] + more, bad)
      case Invalid => ([], Some(opts[0]))
  }

  function Continue(run: (seq<Binding>, Option<string>), p: Parse): Parse {
    match run.1
    case None => Prepend(run.0, p)
    case Some(token) => UsageError(run.0, token)
  }

  lemma ParseOption(argv: seq<string>, anywhere: bool)
    requires argv != [] && !IsStop(argv[0])
    ensures GroupParse(argv, anywhere) ==
            match ReadToken(argv[0])
            case Complete(bs) => Prepend(bs, GroupParse(argv[1..], anywhere))
            case Awaiting(bs, option) =>
              if |argv| == 1 then UsageError(bs, argv[0])
              else Prepend(bs + [Binding(option, Some(argv[1]))], GroupParse(argv[2..], anywhere))
            case Invalid => UsageError([], argv[0])
  {
  }

  lemma PrependTwice(a: seq<Binding>, b: seq<Binding>, p: Parse)
    ensures Prepend(a, Prepend(b, p)) == Prepend(a + b, p)
    ensures Prepend([], p) == p
  {
    assert a + (b + p.bindings) == a + b + p.bindings;
    assert [] + p.bindings == p.bindings;
  }

  lemma {:induction false} ParseAfterRun(opts: seq<string>, tail: seq<string>, anywhere: bool)
    requires OptionRun(opts)
    ensures GroupParse(opts + tail, anywhere) == Continue(ReadRun(opts), GroupParse(tail, anywhere))
  {
    hide ReadToken, IsBare, InPlace, GroupParse;
    if opts == [] {
      assert opts + tail == tail;
      PrependTwice([], [], GroupParse(tail, anywhere));
    } else {
      var all := opts + tail;
      ParseOption(all, anywhere);
      match ReadToken(opts[0])
      case Complete(bs) =>
        assert all[1..] == opts[1..] + tail;
        ParseAfterRun(opts[1..], tail, anywhere);
        PrependTwice(bs, ReadRun(opts[1..]).0, GroupParse(tail, anywhere));
      case Awaiting(bs, option) =>
        assert all[2..] == opts[2..] + tail;
        ParseAfterRun(opts[2..], tail, anywhere);
        PrependTwice(bs + [Binding(option, Some(opts[1]))], ReadRun(opts[2..]).0, GroupParse(tail, anywhere));
      case Invalid =>
    }
  }

  // The option tokens end while one of them still waits for its value.
  predicate LeavesOptionWaiting(opts: seq<string>) {
    opts != [] &&
    match ReadToken(opts[0])
    case Complete(_) => LeavesOptionWaiting(opts[1..])
    case Awaiting(_, _) => |opts| == 1 || LeavesOptionWaiting(opts[2..])
    case Invalid => false
  }

  lemma {:induction false} NotWaitingIsRun(opts: seq<string>)
    requires !LeavesOptionWaiting(opts) && forall i :: 0 <= i < |opts| ==> !IsStop(opts[i])
    ensures OptionRun(opts)
  {
    if opts != [] {
      match ReadToken(opts[0])
      case Complete(_) => NotWaitingIsRun(opts[1..]);
      case Awaiting(_, _) => if |opts| > 1 { NotWaitingIsRun(opts[2..]); }
      case Invalid =>
    }
  }

  // ----- the normaliser's classification against the parser's -----

  // A value-taking global written `name=` with nothing after the equals sign.
  predicate EmptyInline(arg: string) {
    TakesValue(Name(arg)) && '=' in arg && Inline(arg) == ""
  }

  // A flag written with a value, which the parser rejects.
  predicate FlagWithValue(arg: string) {
    IsFlag(Name(arg)) && '=' in arg
  }

  // Short globals in one token that the normaliser does not recognise, such as `-ojson`, `-qv` or `-vo`.
  predicate Glued(arg: string) {
    ReadsAsGlobal(arg) && !Hoistable(arg)
  }

  lemma NameOfPlain(arg: string)
    ensures '=' !in arg ==> Name(arg) == arg && Inline(arg) == ""
    ensures '=' in arg ==> arg == Name(arg) + "=" + Inline(arg)
  {
    if '=' !in arg {
      PartitionNone(arg, '=');
    } else {
      PartitionJoins(arg, '=');
    }
  }

  lemma {:induction false} PartitionJoins(s: string, sep: char)
    requires sep in s
    ensures s == Partition(s, sep).0 + [sep] + Partition(s, sep).1
  {
    if s[0] != sep {
      PartitionJoins(s[1..], sep);
    }
  }

  lemma {:induction false} VerboseClusterReads(chars: string)
    requires forall i :: 0 <= i < |chars| ==> chars[i] == 'v'
    ensures ReadCluster(chars).Complete? && AllGlobal(ReadCluster(chars).bindings)
  {
    if chars != "" {
      VerboseClusterReads(chars[1..]);
      assert ['-', chars[0]] == "-v";
    }
  }

  lemma EqualsIsNoOption()
    ensures !TakesValue("-=") && !IsFlag("-=")
  {
  }

  // A named global as the parser reads it, with and without an equals sign.
  lemma NamedReads(arg: string)
    requires TakesValue(Name(arg)) || IsFlag(Name(arg))
    ensures !IsStop(arg)
    ensures TakesValue(Name(arg)) && '=' !in arg ==> ReadToken(arg) == Awaiting([], arg)
    ensures TakesValue(Name(arg)) && '=' in arg ==>
              && ReadToken(arg).Complete? && |ReadToken(arg).bindings| == 1
              && ReadToken(arg).bindings[0].option == Name(arg) && ReadToken(arg).bindings[0].value.Some?
    ensures IsFlag(Name(arg)) && '=' !in arg ==> ReadToken(arg) == Complete([Binding(arg, None)])
    ensures FlagWithValue(arg) ==> ReadToken(arg) == Invalid
  {
    hide TakesValue, IsFlag;
    NameOfPlain(arg);
    OptionNames(Name(arg));
    if !("--" <= arg) {
      assert ['-', arg[1]] == Name(arg);
      if '=' in arg {
        assert arg == Name(arg) + "=" + Inline(arg);
        assert arg[1..][1..][0] == '=';
        EqualsIsNoOption();
        assert ['-', '='] == "-=";
        assert ReadCluster(arg[1..][1..]) == Invalid;
      } else {
        assert arg == Name(arg) && arg[1..][1..] == "";
        assert ReadCluster(arg[1..][1..]) == Complete([]);
      }
    }
  }

  // What each kind of hoistable token means to the parser.
  lemma HoistableReads(arg: string)
    requires Hoistable(arg)
    ensures !IsStop(arg)
    ensures FlagWithValue(arg) ==> ReadToken(arg) == Invalid && !Waits(arg)
    ensures !FlagWithValue(arg) ==> ReadsAsGlobal(arg)
    ensures Waits(arg) && !EmptyInline(arg) ==> ReadToken(arg) == Awaiting([], arg)
    ensures (!Waits(arg) && !FlagWithValue(arg)) || EmptyInline(arg) ==> ReadToken(arg).Complete?
    ensures EmptyInline(arg) ==> Waits(arg)
  {
    hide TakesValue, IsFlag, ReadCluster;
    NameOfPlain(arg);
    if TakesValue(Name(arg)) || IsFlag(Name(arg)) {
      NamedReads(arg);
      OptionNames(Name(arg));
    } else {
      VerboseClusterReads(arg[1..]);
    }
  }

  /** How many tokens the normaliser takes, against what the parser reads: they agree except on glued globals,
      on `name=` and on flags written with a value. */
  lemma ClassifiedAsRead(after: seq<string>)
    requires after != [] && after[0] != "--"
    ensures ConsumeOne(after).1 ==> !IsStop(after[0])
    ensures !Glued(after[0]) && !EmptyInline(after[0]) && !FlagWithValue(after[0]) ==>
              ConsumeOne(after) == if !ReadsAsGlobal(after[0]) then (1, false)
                                   else if ReadToken(after[0]).Complete? then (1, true)
                                   else if |after| > 1 then (2, true) else (1, false)
    ensures Glued(after[0]) ==> ConsumeOne(after) == (1, false)
    ensures FlagWithValue(after[0]) ==> ConsumeOne(after) == (1, true) && ReadToken(after[0]) == Invalid
    ensures EmptyInline(after[0]) ==>
              ConsumeOne(after) == (if |after| > 1 then (2, true) else (1, false)) && ReadToken(after[0]).Complete?
  {
    hide TakesValue, IsFlag, ReadToken, ConsumeOne, IsRepeatedShortVerbose;
    ConsumedByTokens(after);
    if Hoistable(after[0]) {
      HoistableReads(after[0]);
    }
  }

  // A token of global options binds something, or waits; a glued one that waits binds a flag first.
  lemma GlobalBinds(arg: string)
    requires ReadsAsGlobal(arg)
    ensures ReadToken(arg).Complete? ==> ReadToken(arg).bindings != []
    ensures ReadToken(arg).Awaiting? && !Hoistable(arg) ==>
              ReadToken(arg).bindings != [] && ReadToken(arg).bindings[0].value == None
  {
    hide TakesValue, IsFlag;
    NameOfPlain(arg);
    if "--" <= arg {
      assert ReadToken(arg).Awaiting? ==> Hoistable(arg);
    } else {
      assert arg[0] == '-' && arg[1..] != "";
      if |arg| == 2 {
        assert ['-', arg[1..][0]] == arg && arg[1..][1..] == "";
        if TakesValue(arg) {
          OptionNames(arg);
        }
      }
    }
  }
}
