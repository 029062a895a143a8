/**
 The table of global options, spelled out, and what the normaliser does to a command line written with it: read off
 the names alone, without the normaliser's own classification of tokens.
 */
module ArgvTable {
  import opened Text
  import opened Argv
  import opened ArgvMeaning
  import opened ArgvLaws
  import opened ArgvEquivalence

  const VALUED: seq<string> := [
    "--config", "-c", "--set", "--output", "-o", "--color", "--log-level", "--log-format", "--log-file", "--timeout"]

  const FLAGS: seq<string> := ["--verbose", "-v", "--quiet", "-q", "--no-input", "--yes", "-y", "--dry-run"]

  // A dash and `n` times the letter v.
  function Cluster(n: nat): (t: string)
    ensures |t| == n + 1
  {
    "-" + seq(n, i requires 0 <= i < n => 'v')
  }

  // What a user writes behind the subcommand: the documented ways to give a global option, or anything else.
  datatype Item =
    | Detached(name: string, equals: bool, value: string)   // `--color never`; also `--color= never`
    | Joined(name: string, value: string)                   // `--color=never`
    | Flag(name: string)
    | FlagGiven(name: string, value: string)                // `--quiet=value`, moved and then refused
    | Verbose(n: nat)                                       // `-vv`, `-vvv`, and so on
    | Other(token: string)

  predicate Names(token: string, name: string) {
    token == name || name + "=" <= token
  }

  ghost predicate NamesGlobal(token: string) {
    || (exists i :: 0 <= i < |VALUED| && Names(token, VALUED[i]))
    || (exists i :: 0 <= i < |FLAGS| && Names(token, FLAGS[i]))
    || (exists n :: n >= 2 && token == Cluster(n))
  }

  ghost predicate ValidItem(item: Item) {
    match item
    case Detached(name, _, _) => name in VALUED
    case Joined(name, value) => name in VALUED && value != ""
    case Flag(name) => name in FLAGS
    case FlagGiven(name, _) => name in FLAGS
    case Verbose(n) => n >= 2
    case Other(token) => token != "--" && !NamesGlobal(token)
  }

  function Tokens(item: Item): seq<string> {
    match item
    case Detached(name, equals, value) => [if equals then name + "=" else name, value]
    case Joined(name, value) => [name + "=" + value]
    case Flag(name) => [name]
    case FlagGiven(name, value) => [name + "=" + value]
    case Verbose(n) => [Cluster(n)]
    case Other(token) => [token]
  }

  function Print(items: seq<Item>): seq<string> {
    if items == [] then [] else Tokens(items[0]) + Print(items[1..])
  }

  function Globals(items: seq<Item>): seq<Item> {
    if items == [] then []
    else (if items[0].Other? then [] else [items[0]]) + Globals(items[1..])
  }

  function Others(items: seq<Item>): seq<Item> {
    if items == [] then []
    else (if items[0].Other? then [items[0]] else []) + Others(items[1..])
  }

  // What ends the options behind a subcommand: nothing, `--` and all that follows, or a lone option without its value.
  predicate EndsLine(tail: seq<string>) {
    tail == [] || tail[0] == "--" || (|tail| == 1 && exists i :: 0 <= i < |VALUED| && Unfinished(tail[0], VALUED[i]))
  }

  predicate Unfinished(token: string, name: string) {
    token == name || token == name + "="
  }

  // ----- the two tables agree -----

  lemma TablesAgree(name: string)
    ensures TakesValue(name) <==> name in VALUED
    ensures IsFlag(name) <==> name in FLAGS
  {
  }

  lemma NameBefore(name: string, value: string)
    requires '=' !in name
    ensures Name(name) == name && Inline(name) == "" && Name(name + "=" + value) == name
    ensures Inline(name + "=" + value) == value
  {
    PartitionNone(name, '=');
    PartitionAt(name, value, '=');
    assert name + ['='] + value == name + "=" + value;
  }

  // The name a token starts with is the one it names.
  lemma NamedBy(token: string, name: string)
    requires '=' !in name
    ensures Names(token, name) <==> Name(token) == name
  {
    NameOfPlain(token);
    if name + "=" <= token {
      var value := token[|name| + 1..];
      assert token == name + "=" + value;
      NameBefore(name, value);
    } else if token == name {
      NameBefore(name, "");
    }
  }

  lemma ClusterIsVerbose(token: string)
    ensures IsRepeatedShortVerbose(token) <==> |token| >= 3 && token == Cluster(|token| - 1)
    ensures forall n :: n >= 2 && token == Cluster(n) ==> n == |token| - 1
  {
    if IsRepeatedShortVerbose(token) {
      assert token == Cluster(|token| - 1);
    }
  }

  lemma HoistableIsNamed(token: string)
    ensures Hoistable(token) <==> NamesGlobal(token)
  {
    hide TakesValue, IsFlag, Names, Name, IsRepeatedShortVerbose;
    ClusterIsVerbose(token);
    TablesAgree(Name(token));
    if i :| 0 <= i < |VALUED| && (Names(token, VALUED[i]) || Name(token) == VALUED[i]) {
      TablesAgree(VALUED[i]);
      OptionNames(VALUED[i]);
      NamedBy(token, VALUED[i]);
    }
    if i :| 0 <= i < |FLAGS| && (Names(token, FLAGS[i]) || Name(token) == FLAGS[i]) {
      TablesAgree(FLAGS[i]);
      OptionNames(FLAGS[i]);
      NamedBy(token, FLAGS[i]);
    }
    if Hoistable(token) && !IsRepeatedShortVerbose(token) {
      if TakesValue(Name(token)) {
        var i :| 0 <= i < |VALUED| && VALUED[i] == Name(token);
        assert Names(token, VALUED[i]);
      } else {
        var i :| 0 <= i < |FLAGS| && FLAGS[i] == Name(token);
        assert Names(token, FLAGS[i]);
      }
    }
  }

  lemma ItemTokens(item: Item)
    requires ValidItem(item)
    ensures var head := Tokens(item)[0];
            && head != "--" && (Hoistable(head) <==> !item.Other?) && (Waits(head) <==> item.Detached?)
  {
    hide TakesValue, IsFlag, Name, Inline, IsRepeatedShortVerbose, NamesGlobal, Cluster;
    HoistableIsNamed(Tokens(item)[0]);
    match item
    case Detached(name, equals, value) => NamedToken(name, "");
    case Joined(name, value) => NamedToken(name, value);
    case Flag(name) => NamedToken(name, "");
    case FlagGiven(name, value) => NamedToken(name, value);
    case Verbose(n) => ClusterToken(n);
    case Other(token) => if Waits(token) { HoistableReads(token); }
  }

  lemma NamedToken(name: string, value: string)
    requires name in VALUED || name in FLAGS
    ensures forall token :: token in {name, name + "=" + value} ==>
              && token != "--" && Hoistable(token) && Name(token) == name
              && Inline(token) == (if token == name then "" else value)
    ensures TakesValue(name) <==> name in VALUED
    ensures name + "=" + "" == name + "="
  {
    hide TakesValue, IsFlag, Name, Inline;
    TablesAgree(name);
    OptionNames(name);
    NameBefore(name, value);
    assert (name + "=" + value)[|name|] == '=';
  }

  lemma ClusterToken(n: nat)
    requires n >= 2
    ensures Hoistable(Cluster(n)) && !Waits(Cluster(n)) && Cluster(n) != "--" && !IsStop(Cluster(n))
    ensures '=' !in Cluster(n) && Name(Cluster(n)) == Cluster(n)
  {
    hide TakesValue, IsFlag;
    var t := Cluster(n);
    ClusterIsVerbose(t);
    NameOfPlain(t);
    assert t[1] == 'v';
    if TakesValue(t) || IsFlag(t) {
      OptionNames(t);
    }
  }

  // ----- the theorem -----

  lemma PrintNothing()
    ensures Print([]) == [] && Globals([]) == [] && Others([]) == []
  {
  }

  lemma PrintFirst(item: Item, items: seq<Item>)
    ensures Print([item] + items) == Tokens(item) + Print(items)
    ensures Globals([item] + items) == if item.Other? then Globals(items) else [item] + Globals(items)
    ensures Others([item] + items) == if item.Other? then [item] + Others(items) else Others(items)
  {
    var all := [item] + items;
    assert all[0] == item && all[1..] == items;
    assert [] + Globals(items) == Globals(items) && [] + Others(items) == Others(items);
  }

  lemma {:induction false} PartedByItems(items: seq<Item>, tail: seq<string>)
    requires (forall i :: 0 <= i < |items| ==> ValidItem(items[i])) && EndsLine(tail)
    ensures Part(Print(items) + tail) == (Print(Globals(items)), Print(Others(items)) + tail)
  {
    hide ValidItem, Hoistable, Waits, EndsLine, Part, Print, Globals, Others, Tokens;
    PrintNothing();
    if items == [] {
      EndedHoistsNothing(tail);
      PartByTokens(tail);
      assert [] + tail == tail;
    } else {
      var item, more := items[0], items[1..];
      assert items == [item] + more;
      var others := Others(more);
      PrintFirst(item, more);
      PrintFirst(item, Globals(more));
      PrintFirst(item, others);
      PartedByItems(more, tail);
      PartedAt(item, Print(more) + tail);
      Associates(Tokens(item), Print(more), tail);
      Associates(Tokens(item), Print(others), tail);
    }
  }

  lemma Associates(a: seq<string>, b: seq<string>, c: seq<string>)
    ensures a + b + c == a + (b + c)
  {
  }

  lemma PartedAt(item: Item, rest: seq<string>)
    requires ValidItem(item)
    ensures var (hoisted, remaining) := Part(rest);
            Part(Tokens(item) + rest) == if item.Other? then (hoisted, Tokens(item) + remaining)
                                         else (Tokens(item) + hoisted, remaining)
  {
    hide ValidItem, Hoistable, Waits, Part, Cluster;
    ItemTokens(item);
    var after := Tokens(item) + rest;
    assert after[|Tokens(item)|..] == rest;
    PartByTokens(after);
  }

  lemma EndedHoistsNothing(tail: seq<string>)
    requires EndsLine(tail)
    ensures tail == [] || tail[0] == "--" || (|tail| == 1 && Waits(tail[0]))
  {
    hide TakesValue, IsFlag, Name, Inline, Hoistable;
    if tail != [] && tail[0] != "--" {
      var i :| 0 <= i < |VALUED| && Unfinished(tail[0], VALUED[i]);
      NamedToken(VALUED[i], "");
    }
  }

  /** Behind the first bare token, each documented global option goes in front of it, a value option together with its
      value, in the order written; everything else stays in order, and nothing from `--` on moves. */
  lemma GlobalsGoInFront(before: seq<string>, subcommand: string, items: seq<Item>, tail: seq<string>)
    requires forall i :: 0 <= i < |before| ==> |before[i]| >= 2 && before[i][0] == '-' && before[i] != "--"
    requires subcommand in {"", "-"} || subcommand[0] != '-'
    requires (forall i :: 0 <= i < |items| ==> ValidItem(items[i])) && EndsLine(tail)
    ensures Normalized(before + [subcommand] + (Print(items) + tail))
         == before + Print(Globals(items)) + [subcommand] + (Print(Others(items)) + tail)
  {
    hide ValidItem, EndsLine, Part, Normalized, Print, Globals, Others, StopIndex;
    var after := Print(items) + tail;
    var argv := before + [subcommand] + after;
    StopBehind(before, subcommand, after);
    SplitAt(before, subcommand, after);
    PartedByItems(items, tail);
    NormalizedShape(argv);
    Regroup(before, Print(Globals(items)), [subcommand], Print(Others(items)) + tail);
  }

  lemma SplitAt(before: seq<string>, x: string, after: seq<string>)
    ensures var line := before + [x] + after;
            line[..|before|] == before && line[|before|] == x && line[|before| + 1..] == after
  {
  }

  lemma {:induction false} StopBehind(before: seq<string>, subcommand: string, after: seq<string>)
    requires forall i :: 0 <= i < |before| ==> |before[i]| >= 2 && before[i][0] == '-' && before[i] != "--"
    requires subcommand in {"", "-"} || subcommand[0] != '-'
    ensures StopIndex(before + [subcommand] + after) == |before|
  {
    if before != [] {
      assert (before + [subcommand] + after)[1..] == before[1..] + [subcommand] + after;
      StopBehind(before[1..], subcommand, after);
    }
  }

  // Every command line is written that way: all tokens behind a subcommand are such items and such an end.
  lemma {:induction false} Itemized(after: seq<string>) returns (items: seq<Item>, tail: seq<string>)
    ensures (forall i :: 0 <= i < |items| ==> ValidItem(items[i])) && EndsLine(tail)
    ensures after == Print(items) + tail
    decreases |after|
  {
    hide ValidItem, EndsLine, Ends, Print, Tokens;
    PrintNothing();
    if Ends(after) {
      EndedLine(after);
      items, tail := [], after;
      assert [] + after == after;
    } else {
      var item := FirstItem(after);
      var n := |Tokens(item)|;
      items, tail := Itemized(after[n..]);
      PrintFirst(item, items);
      Associates(Tokens(item), Print(items), tail);
      assert after == Tokens(item) + after[n..];
      items := [item] + items;
    }
  }

  predicate Ends(after: seq<string>) {
    after == [] || after[0] == "--" || (|after| == 1 && Waits(after[0]))
  }

  lemma EndedLine(after: seq<string>)
    requires Ends(after)
    ensures EndsLine(after)
  {
    hide TakesValue, IsFlag, Name, Inline;
    if after != [] && after[0] != "--" {
      var name := Name(after[0]);
      TablesAgree(name);
      NameOfPlain(after[0]);
      var i :| 0 <= i < |VALUED| && VALUED[i] == name;
      assert name + "=" + "" == name + "=";
      assert Unfinished(after[0], VALUED[i]);
    }
  }

  lemma FirstItem(after: seq<string>) returns (item: Item)
    requires !Ends(after)
    ensures ValidItem(item) && Tokens(item) <= after && Tokens(item) != []
  {
    hide TakesValue, IsFlag, Name, Inline, NamesGlobal, Cluster;
    var token := after[0];
    var name, value := Name(token), Inline(token);
    NameOfPlain(token);
    TablesAgree(name);
    HoistableIsNamed(token);
    ClusterIsVerbose(token);
    assert name + "=" + "" == name + "=";
    if TakesValue(name) {
      item := if value != "" then Joined(name, value) else Detached(name, '=' in token, after[1]);
    } else if IsFlag(name) {
      item := if '=' in token then FlagGiven(name, value) else Flag(name);
    } else if IsRepeatedShortVerbose(token) {
      item := Verbose(|token| - 1);
    } else {
      item := Other(token);
    }
  }

  // ----- what stays, and clusters of v -----

  // Help and version stay with the subcommand, and so does a lone `-`, an unknown option or anything bare.
  lemma HelpStays(token: string)
    requires token in ["--help", "-h", "--version", "-", ""] || (token != "" && token[0] != '-')
    ensures ValidItem(Other(token))
  {
    hide TakesValue, IsFlag, NamesGlobal, Name, IsRepeatedShortVerbose, ReadToken, ReadsAsGlobal;
    HoistableIsNamed(token);
    if token in ["--help", "-h", "--version"] {
      HelpIsNoGlobal(token);
    } else {
      BareIsNotHoistable(token);
    }
  }

  lemma HelpIsNoGlobal(token: string)
    requires token in ["--help", "-h", "--version"]
    ensures !Hoistable(token) && token != "--"
  {
    hide TakesValue, IsFlag;
    assert token[1] == '-' || token[1] == 'h';
    assert |token| == 2 ==> token[1] == 'h';
    assert |token| == 9 ==> token[5] == 's';
    PartitionNone(token, '=');
    Spellings(token);
  }

  lemma Spellings(name: string)
    ensures TakesValue(name) || IsFlag(name) ==>
              |name| != 6 && (|name| == 2 ==> name[1] != 'h') && (|name| == 9 ==> name[5] != 's')
  {
  }

  lemma {:induction false} PrintOthers(left: seq<string>, items: seq<Item>) returns (all: seq<Item>)
    requires (forall i :: 0 <= i < |left| ==> ValidItem(Other(left[i])))
    requires forall i :: 0 <= i < |items| ==> ValidItem(items[i])
    ensures forall i :: 0 <= i < |all| ==> ValidItem(all[i])
    ensures Print(all) == left + Print(items)
    ensures Print(Globals(all)) == Print(Globals(items)) && Print(Others(all)) == left + Print(Others(items))
  {
    hide ValidItem, Print, Globals, Others;
    if left == [] {
      all := items;
      Associates([], [], Print(items));
      assert left + Print(items) == Print(items) && left + Print(Others(items)) == Print(Others(items));
    } else {
      var more := PrintOthers(left[1..], items);
      all := [Other(left[0])] + more;
      PrintFirst(Other(left[0]), more);
      PrintFirst(Other(left[0]), Others(more));
      assert left == [left[0]] + left[1..];
      Associates([left[0]], left[1..], Print(items));
      Associates([left[0]], left[1..], Print(Others(items)));
    }
  }

  lemma StaysIsOther(token: string)
    requires token != "--" && !ReadsAsGlobal(token) && !FlagWithValue(token)
    ensures ValidItem(Other(token)) && !Glued(token) && !EmptyInline(token)
  {
    hide TakesValue, IsFlag, NamesGlobal, ReadToken, ReadsAsGlobal, IsRepeatedShortVerbose;
    HoistableIsNamed(token);
    if Hoistable(token) {
      HoistableReads(token);
    }
  }

  /** A cluster of two or more v is hoisted in front of any subcommand from behind any tokens that stay, whatever
      follows it; if nothing does, the line keeps its meaning. */
  lemma ClusterGoesInFront(subcommand: string, left: seq<string>, n: nat, rest: seq<string>)
    requires n >= 2 && (subcommand in {"", "-"} || subcommand[0] != '-')
    requires forall i :: 0 <= i < |left| ==> left[i] != "--" && !ReadsAsGlobal(left[i]) && !FlagWithValue(left[i])
    ensures Normalized([subcommand] + left + [Cluster(n)] + rest)[0] == Cluster(n)
    ensures Normalized([subcommand] + left + [Cluster(n)]) == [Cluster(n), subcommand] + left
    ensures KeepsMeaning([subcommand] + (left + [Cluster(n)]))
  {
    hide Normalized, KeepsMeaning, ValidItem, FlagWithValue, ReadsAsGlobal, Glued, EmptyInline, Cluster;
    forall i | 0 <= i < |left|
      ensures ValidItem(Other(left[i])) && !Glued(left[i]) && !EmptyInline(left[i])
    {
      StaysIsOther(left[i]);
    }
    ClusterLine(subcommand, left, n, rest);
    ClusterLine(subcommand, left, n, []);
    assert [subcommand] + left + [Cluster(n)] + [] == [subcommand] + left + [Cluster(n)];
    ClusterKeeps(subcommand, left + [Cluster(n)], n);
  }

  lemma ClusterKeeps(subcommand: string, after: seq<string>, n: nat)
    requires n >= 2 && (subcommand in {"", "-"} || subcommand[0] != '-')
    requires forall i :: 0 <= i < |after| ==>
               after[i] == Cluster(n) || (!Glued(after[i]) && !EmptyInline(after[i]) && !FlagWithValue(after[i]))
    ensures KeepsMeaning([subcommand] + after)
  {
    hide KeepsMeaning, FlagWithValue, Glued, EmptyInline, Cluster, StopIndex, Pending;
    ClusterIsNoGlued(n);
    StopBehind([], subcommand, after);
    var argv := [subcommand] + after;
    assert [] + [subcommand] + after == argv;
    NotPendingAtOnce(argv);
    HoistingKeepsMeaning(argv);
  }

  lemma NotPendingAtOnce(argv: seq<string>)
    requires StopIndex(argv) == 0
    ensures !Pending(argv)
  {
    assert argv[..0] == [];
  }

  lemma EmptyEnds()
    ensures EndsLine([])
  {
  }

  lemma ClusterLine(subcommand: string, left: seq<string>, n: nat, rest: seq<string>)
    requires n >= 2 && (subcommand in {"", "-"} || subcommand[0] != '-')
    requires forall i :: 0 <= i < |left| ==> ValidItem(Other(left[i]))
    ensures var line := Normalized([subcommand] + left + [Cluster(n)] + rest);
            line[0] == Cluster(n) && (rest == [] ==> line == [Cluster(n), subcommand] + left)
  {
    hide Normalized, EndsLine, Cluster, Print, Globals, Others, NamesGlobal;
    PrintNothing();
    EmptyEnds();
    var items, tail: seq<string> := [], [];
    if rest != [] { items, tail := Itemized(rest); }
    assert ValidItem(Verbose(n));
    hide ValidItem;
    PrintFirst(Verbose(n), items);
    PrintFirst(Verbose(n), Globals(items));
    var all := PrintOthers(left, [Verbose(n)] + items);
    GlobalsGoInFront([], subcommand, all, tail);
    Layout(subcommand, left, Cluster(n), Print(items), tail, Print(Globals(items)), Print(Others(items)));
  }

  lemma Layout(subcommand: string, left: seq<string>, cluster: string, p: seq<string>, tail: seq<string>,
      g: seq<string>, o: seq<string>)
    ensures [] + [subcommand] + ((left + ([cluster] + p)) + tail) == [subcommand] + left + [cluster] + (p + tail)
    ensures ([] + ([cluster] + g) + [subcommand] + ((left + o) + tail))[0] == cluster
    ensures [] + ([cluster] + []) + [subcommand] + ((left + []) + []) == [cluster, subcommand] + left
  {
  }

  /** No token of v alone is left behind as glued: it is the flag `-v` or a cluster the normaliser moves. */
  lemma ClusterIsNoGlued(n: nat)
    requires n >= 1
    ensures ReadsAsGlobal(Cluster(n)) && !Glued(Cluster(n)) && !EmptyInline(Cluster(n)) && !FlagWithValue(Cluster(n))
  {
    hide TakesValue, ReadToken;
    if n == 1 {
      assert Cluster(1) == "-v";
      NamedToken("-v", "");
      NameOfPlain("-v");
    } else {
      ClusterToken(n);
    }
    HoistableReads(Cluster(n));
  }
}
