/** Stats::add, Parser::parse and the use the documentation makes of them: size the arrays with
    one pass, fill them with a second one (src/C++/optionparser.h). */
module ParserRuns {
  import opened Arguments
  import opened ArgScan
  import opened Reparse
  import opened OptionChain
  import opened OptionStore
  import opened ArgParser
  import opened Rendering

  // ---------- the tokens of the line that a pass leaves ----------

  lemma {:induction false} TokensOf(ts: seq<string>, rest: seq<Arg>, argc: int)
    requires argc < 0 || |ts| <= argc
    requires |ts| == argc || rest == [] || rest[0].Null?
    ensures Tokens(ArgsOf(ts) + rest, argc) == ts
  {
    var a := ArgsOf(ts) + rest;
    if ts == [] {
      assert a == rest;
    } else {
      TokensOf(ts[1..], rest, argc - 1);
      assert a[1..] == ArgsOf(ts[1..]) + rest;
    }
  }

  lemma TokensArranged(orig: seq<Arg>, argc: int, marks: seq<bool>)
    requires |marks| == |Tokens(orig, argc)|
    ensures Tokens(Arranged(orig, marks), argc) == Partition(Tokens(orig, argc), marks)
    ensures multiset(Arranged(orig, marks)) == multiset(orig)
  {
    hide Tokens, Keep;
    var toks := Tokens(orig, argc);
    TokensEnd(orig, argc);
    KeepArgs(toks, marks, true);
    KeepArgs(toks, marks, false);
    PartitionPermutes(toks, marks);
    var ts := Partition(toks, marks);
    assert ArgsOf(ts) == ArgsOf(Keep(toks, marks, true)) + ArgsOf(Keep(toks, marks, false));
    TokensOf(ts, orig[|toks|..], argc);
    PartitionPermutes(orig[..|marks|], marks);
    assert orig == orig[..|marks|] + orig[|marks|..];
    assert multiset(Arranged(orig, marks)) == multiset(orig);
  }

  // ---------- Stats ----------

  ghost predicate IndicesBelow(usage: seq<Descriptor>, n: int) {
    forall d :: d in usage ==> d.index < n
  }

  class Stats {
    var bufferMax: nat
    var optionsMax: nat

    constructor ()
      ensures bufferMax == 1 && optionsMax == 1
    {
      bufferMax, optionsMax := 1, 1;
    }

    /** Every descriptor index fits below optionsMax - 1, and the smallest such value is taken. */
    method AddUsage(usage: seq<Descriptor>)
      requires optionsMax >= 1
      modifies this`optionsMax
      ensures IndicesBelow(usage, optionsMax - 1) && optionsMax >= old(optionsMax)
      ensures optionsMax == old(optionsMax) || exists d :: d in usage && optionsMax == d.index + 2
    {
      var i := 0;
      while i < |usage|
        invariant i <= |usage| && optionsMax >= old(optionsMax)
        invariant forall j :: 0 <= j < i ==> usage[j].index < optionsMax - 1
        invariant optionsMax == old(optionsMax) || exists d :: d in usage && optionsMax == d.index + 2
      {
        if usage[i].index + 1 >= optionsMax {
          assert usage[i] in usage;
          optionsMax := usage[i].index + 2;
        }
        i := i + 1;
      }
    }

    /** The count stops at the greatest int; the pass is then given up. */
    method Add(gnu: bool, cfg: Config, argc: int, args: array<Arg>)
      requires optionsMax >= 1 && bufferMax <= MAX_OPTIONS
      requires argc <= args.Length && (argc < 0 ==> Null in args[..])
      modifies this, args
      ensures IndicesBelow(cfg.usage, optionsMax - 1) && optionsMax >= old(optionsMax)
      ensures
        var s := ScanArgs(cfg, gnu, old(Tokens(args[..], argc)));
        var total := old(bufferMax) + |s.performed|;
        && bufferMax == (if total <= MAX_OPTIONS then total else MAX_OPTIONS)
        && (total <= MAX_OPTIONS ==> args[..] == Arranged(old(args[..]), s.marks))
      ensures multiset(args[..]) == multiset(old(args[..]))
    {
      hide ScanArgs, Tokens, Arranged;
      ghost var orig := args[..];
      AddUsage(cfg.usage);
      var action := new Action.Count(bufferMax);
      var ok := Workhorse(gnu, cfg, argc, args, action);
      bufferMax := action.bufferMax;
      TokensArranged(orig, argc, ScanArgs(cfg, gnu, Tokens(orig, argc)).marks);
    }
  }

  // ---------- Parser ----------

  lemma KnowsAll(action: Action, usage: seq<Descriptor>)
    requires action.store != null && IndicesBelow(usage, |action.store.options|)
    ensures forall d :: d in usage ==> action.Knows(d)
  {
  }

  /** What the store holds after a run, and what it means that it is full. */
  lemma StoreAfter(action: Action)
    requires action.Valid() && action.store != null
    ensures
      var store := action.store;
      && store.Valid() && store.opCount == |store.log| <= MAX_OPTIONS
      && store.log == Stored(action.base, action.trace, store.bufmax)
      && (store.bufmax < 0 ==> store.log == action.base + action.trace)
      && (action.Full() <==> store.bufmax < 0 && |store.log| == MAX_OPTIONS)
  {
  }

  class Parser {
    var opCount: nat
    var nonopCount: nat
    var nonopArgs: nat       // index in argv of the first non-option argument
    var err: bool

    constructor ()
      ensures opCount == nonopCount == nonopArgs == 0 && !err
    {
      opCount, nonopCount, nonopArgs, err := 0, 0, 0, false;
    }

    /** Reads an unused slot before it starts, as an array of unstated size must have one. It gives
        up when the number of options no longer fits an int. */
    method Parse(gnu: bool, cfg: Config, argc: int, args: array<Arg>, store: Store)
      requires store.Valid()
      requires argc <= args.Length && (argc < 0 ==> Null in args[..])
      requires IndicesBelow(cfg.usage, |store.options|)
      requires store.bufmax < 0 ==> |store.log| < |store.buffer|
      requires store.bufmax < 0 ==>
        |store.log| + |ScanArgs(cfg, gnu, Tokens(args[..], argc)).performed| <= |store.buffer| || MAX_OPTIONS <= |store.buffer|
      modifies this, args, store, store.Repr
      ensures store.Valid() && opCount == |store.log| && multiset(args[..]) == multiset(old(args[..]))
      ensures err ==> nonopCount == old(nonopCount) && nonopArgs == old(nonopArgs)
      ensures
        var toks := old(Tokens(args[..], argc));
        var s := ScanArgs(cfg, gnu, toks);
        if TooMany(old(store.log), s.performed, store.bufmax) then
          err && |store.log| == MAX_OPTIONS && old(store.log) <= store.log < old(store.log) + s.performed
        else
          && err == s.illegal
          && store.log == Stored(old(store.log), s.performed, store.bufmax)
          && args[..] == Arranged(old(args[..]), s.marks)
          && (!err ==>
                var n := Reported(argc, toks, s);
                if n > 0 then nonopCount == n && nonopArgs == |Keep(toks, s.marks, true)|
                else nonopCount == old(nonopCount) && nonopArgs == old(nonopArgs))
    {
      hide ScanArgs, Tokens, Arranged, Keep, Action.Valid, Action.Full, Store.Valid, Action.Knows, Reported, Stored;
      ghost var orig, toks := args[..], Tokens(args[..], argc);
      ghost var s := ScanArgs(cfg, gnu, toks);
      TokensArranged(orig, argc, s.marks);
      assert [] + s.performed == s.performed;
      store.Counted();
      opCount := store.FindFree();
      var action := new Action.StoreIn(store);
      KnowsAll(action, cfg.usage);
      var ok := Workhorse(gnu, cfg, argc, args, action);
      err := !ok;
      StoreAfter(action);
      opCount := store.opCount;
      if action.reported.Just? && action.reported.value.0 > 0 {
        nonopCount, nonopArgs := action.reported.value.0, action.reported.value.1;
      }
    }
  }

  /** More options than an int can count, in a store of unstated size. */
  predicate TooMany(base: seq<Opt>, performed: seq<Opt>, bufmax: int) {
    bufmax < 0 && |base| + |performed| > MAX_OPTIONS
  }

  // ---------- one pass to size the arrays, one to fill them ----------

  method FreshOptions(n: nat) returns (os: seq<Option>)
    ensures |os| == n && Distinct(os)
    ensures forall i :: 0 <= i < n ==> fresh(os[i]) && os[i].desc == Nothing && Chain([os[i]])
  {
    os := [];
    while |os| < n
      invariant |os| <= n && Distinct(os)
      invariant forall i :: 0 <= i < |os| ==> fresh(os[i]) && os[i].desc == Nothing && Chain([os[i]])
    {
      var o := new Option();
      os := os + [o];
    }
  }

  /** The documented use: sizes from Stats, arrays of exactly those sizes, then Parser::parse with
      no bound on the buffer. That every array access stays in bounds is what Parse demands. The
      buffer has exactly one slot more than is filled unless the second pass falls short of a
      token that performs options before it is rejected. */
  method SizeThenParse(counting: bool, storing: bool, cfg: Config, argc: int, args: array<Arg>)
    returns (stats: Stats, parser: Parser, store: Store)
    requires StableUsage(cfg.usage)
    requires storing && !counting ==> Beyond(cfg, Tokens(args[..], argc)) == []
    requires argc <= args.Length && (argc < 0 ==> Null in args[..])
    modifies args
    ensures store.Valid() && |store.buffer| == stats.bufferMax && |store.options| == stats.optionsMax
    ensures parser.opCount == |store.log|
    ensures
      var toks := old(Tokens(args[..], argc));
      var s := ScanArgs(cfg, counting, toks);
      var line := Reordered(cfg, counting, toks);
      var s2 := ScanArgs(cfg, storing, line);
      var short := FallsShort(s, storing, Left(cfg, counting, toks));
      var lost := if short then |Rejected(cfg, counting, toks)| else 0;
      if |s.performed| >= MAX_OPTIONS then stats.bufferMax == MAX_OPTIONS
      else
        && stats.bufferMax == |s.performed| + 1 == parser.opCount + lost + 1
        && (stats.bufferMax == parser.opCount + 1 <==> short ==> Rejected(cfg, counting, toks) == [])
        && store.log == s2.performed && parser.err == s2.illegal
        && Tokens(args[..], argc) == Reordered(cfg, storing, line)
        && (counting && !s.illegal ==> Tokens(args[..], argc) == line)
  {
    hide ScanArgs, Tokens, Arranged, Keep, Store.Valid, Stored, StableUsage, Left, FallsShort, Rejected, Beyond, Reported;
    ghost var orig := args[..];
    ghost var toks := Tokens(orig, argc);
    ghost var s := ScanArgs(cfg, counting, toks);
    TokensEnd(orig, argc);
    TokensArranged(orig, argc, s.marks);
    CountsAgree(cfg, counting, storing, toks);
    stats := new Stats();
    stats.Add(counting, cfg, argc, args);
    var options := FreshOptions(stats.optionsMax);
    var buffer := FreshOptions(stats.bufferMax);
    store := new Store(options, buffer, -1);
    parser := new Parser();
    ghost var now := args[..];
    assert argc < 0 ==> Null in multiset(now);
    ghost var s2 := ScanArgs(cfg, storing, Tokens(now, argc));
    parser.Parse(storing, cfg, argc, args, store);
    StoredAll(s2.performed, -1);
    TokensArranged(now, argc, s2.marks);
    if counting && !s.illegal {
      ReparseChangesNothing(cfg, storing, toks);
    }
  }

  /** The second pass reports as many non-options as the first one exactly if argc is honest, or both
      passes looked at all tokens or neither did. */
  lemma ReportsAgain(cfg: Config, again: bool, argc: int, toks: seq<string>)
    requires StableUsage(cfg.usage) && !ScanArgs(cfg, true, toks).illegal
    ensures
      var s := ScanArgs(cfg, true, toks);
      var line := Reordered(cfg, true, toks);
      var s2 := ScanArgs(cfg, again, line);
      && |line| == |toks|
      && (Reported(argc, line, s2) == Reported(argc, toks, s) <==> argc <= |toks| || (s2.atEnd <==> s.atEnd))
      && (!again ==> (s2.atEnd <==> Left(cfg, true, toks) == []))
  {
    hide ScanArgs, Keep;
    var s := ScanArgs(cfg, true, toks);
    var line := Reordered(cfg, true, toks);
    PartitionPermutes(toks, s.marks);
    ReparseChangesNothing(cfg, again, toks);
    ReportedExact(argc, toks, s);
    ReportedExact(argc, line, ScanArgs(cfg, again, line));
  }

  lemma StoredAll(performed: seq<Opt>, bufmax: int)
    requires bufmax < 0
    ensures Stored([], performed, bufmax) == performed
  {
  }

  // ---------- from what is meant to what is found ----------

  function WithIndex(ms: seq<Meant>, idx: nat): seq<Meant> {
    if ms == [] then [] else (if ms[0].desc.index == idx then [ms[0]] else []) + WithIndex(ms[1..], idx)
  }

  lemma {:induction false} WithIndexAppend(ms: seq<Meant>, m: Meant, idx: nat)
    ensures WithIndex(ms + [m], idx) == WithIndex(ms, idx) + if m.desc.index == idx then [m] else []
  {
    if ms == [] {
      assert [] + [m] == [m] && [m][1..] == [];
    } else {
      assert (ms + [m])[1..] == ms[1..] + [m];
      WithIndexAppend(ms[1..], m, idx);
    }
  }

  lemma {:induction false} SeeByIndex(log: seq<Opt>, idx: nat)
    ensures SeeAll(ByIndex(log, idx)) == WithIndex(SeeAll(log), idx)
  {
    hide See, SeeAll;
    if log == [] {
      SeeNothing();
    } else {
      var n := |log| - 1;
      SeeByIndex(log[..n], idx);
      assert log == log[..n] + [log[n]];
      SeeConcat(log[..n], [log[n]]);
      SeeOne(log[n]);
      WithIndexAppend(SeeAll(log[..n]), See(log[n]), idx);
      var before := ByIndex(log[..n], idx);
      if log[n].desc.index == idx {
        SeeConcat(before, [log[n]]);
        assert ByIndex(log, idx) == before + [log[n]];
      } else {
        assert ByIndex(log, idx) == before + [] == before;
        assert WithIndex(SeeAll(log[..n]), idx) + [] == WithIndex(SeeAll(log[..n]), idx);
      }
    }
  }

  lemma SeeNothing()
    ensures SeeAll([]) == []
  {
  }

  lemma SeeOne(o: Opt)
    ensures SeeAll([o]) == [See(o)] && See(o).desc == o.desc
  {
  }

  /** The whole way. A command line that is written from items is parsed, and the list of any index holds
      exactly the options that were meant with that index, each with its own name and argument, in
      order; the other arguments stand behind them in argv, as the parser says. */
  method ParseLine(gnu: bool, cfg: Config, items: seq<Item>, tail: seq<string>, argc: int, args: array<Arg>, store: Store, idx: nat)
    returns (parser: Parser, found: seq<Opt>)
    requires GoodItems(cfg, gnu, items) && GoodTail(gnu, tail)
    requires argc <= args.Length && (argc < 0 ==> Null in args[..])
    requires Tokens(args[..], argc) == Line(items) + tail
    requires store.Valid() && store.log == [] && store.bufmax < 0 && idx < |store.options|
    requires IndicesBelow(cfg.usage, |store.options|) && |AllMeant(items)| < |store.buffer| && |AllMeant(items)| <= MAX_OPTIONS
    modifies args, store, store.Repr
    ensures store.Valid() && !parser.err && parser.opCount == |AllMeant(items)|
    ensures SeeAll(store.log) == AllMeant(items)
    ensures SeeAll(found) == WithIndex(AllMeant(items), idx)
    ensures
      var now, left := Tokens(args[..], argc), Plains(items) + TailArgs(tail);
      && |left| <= |now| && now[|now| - |left|..] == left
      && (left != [] ==> parser.nonopArgs == |now| - |left|)
      && (left != [] && argc <= |now| ==> parser.nonopCount == |left|)
  {
    hide ScanArgs, Tokens, Arranged, Keep, Store.Valid, Left, GoodItems, Good, SeeAll, Line, AllMeant, Plains, Stored, ByIndex;
    ghost var orig, toks := args[..], Tokens(args[..], argc);
    ghost var s := ScanArgs(cfg, gnu, toks);
    LineParsed(cfg, gnu, items, tail);
    SeenCount(s.performed);
    LeftIs(cfg, gnu, toks);
    parser := new Parser();
    parser.Parse(gnu, cfg, argc, args, store);
    StoredAll(s.performed, store.bufmax);
    TokensArranged(orig, argc, s.marks);
    ReportedExact(argc, toks, s);
    SeeByIndex(store.log, idx);
    found := store.Walk(idx);
  }

  lemma SeenCount(os: seq<Opt>)
    ensures |SeeAll(os)| == |os|
  {
  }

  /** The tokens that are left stand at the end of the reordered line. */
  lemma LeftIs(cfg: Config, gnu: bool, toks: seq<string>)
    ensures
      var s, left := ScanArgs(cfg, gnu, toks), Left(cfg, gnu, toks);
      var line := Partition(toks, s.marks);
      && left == Keep(toks, s.marks, false)
      && |line| == |toks| && |Keep(toks, s.marks, true)| == |toks| - |left|
      && line[|toks| - |left|..] == left
  {
    hide ScanArgs, Keep;
    PartitionPermutes(toks, ScanArgs(cfg, gnu, toks).marks);
  }
}
