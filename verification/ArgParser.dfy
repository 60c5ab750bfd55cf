/** Parser::workhorse and the two actions of src/C++/optionparser.h, working in place on argv. */
module ArgParser {
  import opened Arguments
  import opened ArgScan
  import opened OptionChain
  import opened OptionStore

  /** What remains in the log when `performed` follows `base` into a buffer of bufmax slots
      (bufmax < 0: large enough). */
  function Stored(base: seq<Opt>, performed: seq<Opt>, bufmax: int): seq<Opt> {
    var all := base + performed;
    if bufmax < 0 || |all| <= bufmax then all else all[..bufmax]
  }

  /** The two actions of the parser: counting options (store == null) and storing them. */
  class Action {
    const store: Store?
    ghost const Repr: set<object>
    ghost const base: seq<Opt>
    ghost const count0: nat
    var bufferMax: nat
    ghost var trace: seq<Opt>               // the options performed so far
    var reported: Maybe<(nat, nat)>         // the arguments of finished(): how many, from which index

    ghost predicate Valid()
      reads this, Repr
    {
      && this in Repr
      && (store == null ==> bufferMax == count0 + |trace| <= MAX_OPTIONS)
      && (store != null ==>
           && store in Repr && store.Repr <= Repr
           && store.Valid()
           && |base| <= |store.buffer| && (store.bufmax >= 0 ==> |base| <= store.bufmax)
           && store.log == Stored(base, trace, store.bufmax))
    }

    constructor Count(bufferMax: nat)
      requires bufferMax <= MAX_OPTIONS
      ensures Valid() && store == null && trace == [] && reported == Nothing && fresh(Repr)
      ensures this.bufferMax == count0 == bufferMax
    {
      store, base, trace, reported := null, [], [], Nothing;
      this.bufferMax, count0 := bufferMax, bufferMax;
      Repr := {this};
    }

    constructor StoreIn(store: Store)
      requires store.Valid()
      ensures Valid() && this.store == store && base == store.log && trace == [] && reported == Nothing
      ensures fresh(Repr - {store} - store.Repr)
    {
      this.store, base, trace, reported := store, store.log, [], Nothing;
      bufferMax, count0 := 0, 0;
      Repr := {this, store} + store.Repr;
    }

    /** A buffer of unstated size is large enough for a trace of the given length, up to the number
        at which perform() refuses. */
    ghost predicate Fits(total: nat) {
      store != null && store.bufmax < 0 ==> |base| + total <= |store.buffer| || MAX_OPTIONS <= |store.buffer|
    }

    ghost predicate Knows(d: Descriptor) {
      store != null ==> d.index < |store.options|
    }

    /** perform() is about to refuse: one more option would overflow the count. */
    predicate Full()
      reads this, Repr
      requires Valid()
    {
      if store == null then bufferMax == MAX_OPTIONS else store.Refuses()
    }

    method Perform(opt: Opt) returns (ok: bool)
      requires Valid() && Fits(|trace| + 1) && Knows(opt.desc)
      modifies Repr
      ensures Valid() && reported == old(reported)
      ensures ok == !old(Full())
      ensures trace == if ok then old(trace) + [opt] else old(trace)
      ensures !ok ==> Full()
    {
      if store == null {
        if bufferMax == MAX_OPTIONS { return false; }
        bufferMax := bufferMax + 1;
        trace := trace + [opt];
        return true;
      }
      ok := store.Perform(opt);
      if ok {
        assert base + (trace + [opt]) == base + trace + [opt];
        trace := trace + [opt];
      }
    }

    method Finished(count: nat, start: nat)
      requires Valid()
      modifies this
      ensures Valid() && trace == old(trace) && reported == Just((count, start))
    {
      reported := Just((count, start));
    }
  }

  // ---------- argv ----------

  /** The strings of argv up to the first NULL, at most argc of them (argc < 0: no limit). */
  function Tokens(argv: seq<Arg>, argc: int): (toks: seq<string>)
    ensures |toks| <= |argv| && forall i :: 0 <= i < |toks| ==> argv[i] == Text(toks[i])
    ensures argc >= 0 ==> |toks| <= argc
  {
    if argv == [] || argc == 0 || argv[0].Null? then [] else [argv[0].text] + Tokens(argv[1..], argc - 1)
  }

  ghost function Rotated(a: seq<Arg>, at: nat, count: nat): seq<Arg>
    requires count <= at < |a|
  {
    a[..at - count] + [a[at]] + a[at - count..at] + a[at + 1..]
  }

  /** Moves args[at] in front of the `count` entries before it. */
  method Shift(args: array<Arg>, at: nat, count: nat)
    requires count <= at < args.Length
    modifies args
    ensures args[..] == Rotated(old(args[..]), at, count)
  {
    hide Rotated;
    ghost var was := args[..];
    var i := 0;
    while i < count
      invariant 0 <= i <= count
      invariant args[at - i] == was[at]
      invariant forall j :: 0 <= j < at - i ==> args[j] == was[j]
      invariant forall j :: at - i < j <= at ==> args[j] == was[j - 1]
      invariant forall j :: at < j < args.Length ==> args[j] == was[j]
    {
      args[at - i], args[at - i - 1] := args[at - i - 1], args[at - i];
      i := i + 1;
    }
    RotatedIs(was, args[..], at, count);
  }

  lemma RotatedIs(a: seq<Arg>, b: seq<Arg>, at: nat, count: nat)
    requires count <= at < |a| == |b|
    requires b[at - count] == a[at]
    requires forall j :: 0 <= j < at - count ==> b[j] == a[j]
    requires forall j :: at - count < j <= at ==> b[j] == a[j - 1]
    requires forall j :: at < j < |a| ==> b[j] == a[j]
    ensures b == Rotated(a, at, count)
  {
  }

  // ---------- one token ----------

  datatype Verdict = Illegal | Refused | Stop | More

  /** The option argument as the source sees it: args[1] if it may be read. */
  ghost function NextArg(args: seq<Arg>, pos: nat, more: bool): OptArg
    requires more ==> pos + 1 < |args|
  {
    if more && args[pos + 1].Text? then Detached(args[pos + 1].text) else NoArg
  }

  /** How performing the options of e, one by one, may end. A refused option is not in the trace. */
  ghost predicate Outcome(v: Verdict, took: bool, e: Effect, before: seq<Opt>, after: seq<Opt>) {
    && v.Illegal? == (e.illegal && !v.Refused?)
    && (v.Refused? ==> before <= after < before + e.performed)
    && (!v.Refused? ==> took == e.took && after == before + e.performed)
  }

  method FindEqLoop(s: string) returns (k: nat)
    ensures k == FindEq(s)
  {
    k := 0;
    while k < |s| && s[k] != '='
      invariant k <= |s| && '=' !in s[..k]
    {
      k := k + 1;
    }
    FindEqIs(s, k);
  }

  /** An option and its potential argument go to the checker and then to the action. An accepted
      detached argument first brings its option in front of the skipped non-options. */
  method OfferOption(desc: Maybe<Descriptor>, name: string, arg: OptArg,
                     args: array<Arg>, pos: nat, nonops: nat, action: Action) returns (v: Verdict, took: bool)
    requires action.Valid() && args !in action.Repr && nonops <= pos < args.Length
    requires action.Fits(|action.trace| + |Offer(desc, name, arg).e.performed|) && (desc.Just? ==> action.Knows(desc.value))
    modifies args, action.Repr
    ensures action.Valid() && action.reported == old(action.reported)
    ensures
      var o := Offer(desc, name, arg);
      Outcome(v, took, o.e, old(action.trace), action.trace) && (v.Stop? ==> o.stop) && (v.More? ==> !o.stop)
    ensures v.Refused? ==> action.Full()
    ensures args[..] == if took then Rotated(old(args[..]), pos, nonops) else old(args[..])
  {
    took := false;
    if desc.Nothing? { return More, false; }
    var option := Opt(desc.value, name, arg.ToMaybe());
    v := More;
    match desc.value.check(name, option.arg) {
      case ArgIllegal => return Illegal, false;
      case ArgOk =>
        if arg.Detached? {
          Shift(args, pos, nonops);
          took := true;
        }
        v := Stop;
      case _ => option := option.(arg := Nothing);
    }
    var ok := action.Perform(option);
    if !ok { v := Refused; }
  }

  lemma KnowsUnknown(usage: seq<Descriptor>, c: char, action: Action)
    requires forall d :: d in usage ==> action.Knows(d)
    ensures UnknownDescriptor(usage).Just? ==> action.Knows(UnknownDescriptor(usage).value)
    ensures ShortDescriptor(usage, c).Just? ==> action.Knows(ShortDescriptor(usage, c).value)
  {
  }

  /** The loop over the short options of a group. */
  method ProcessGroup(cfg: Config, tok: string, next: OptArg,
                      args: array<Arg>, pos: nat, nonops: nat, action: Action) returns (v: Verdict, took: bool)
    requires action.Valid() && args !in action.Repr && nonops <= pos < args.Length && tok != ""
    requires action.Fits(|action.trace| + |ShortGroup(cfg, tok, 1, next).performed|)
    requires forall d :: d in cfg.usage ==> action.Knows(d)
    modifies args, action.Repr
    ensures action.Valid() && action.reported == old(action.reported)
    ensures Outcome(v, took, ShortGroup(cfg, tok, 1, next), old(action.trace), action.trace)
    ensures v.Refused? ==> action.Full()
    ensures args[..] == if took then Rotated(old(args[..]), pos, nonops) else old(args[..])
  {
    hide ShortGroup, Offer, Action.Valid, Action.Full;
    v, took := More, false;
    var p := 1;
    ghost var e := ShortGroup(cfg, tok, 1, next);
    ghost var done: seq<Opt> := [];
    while p < |tok|
      invariant 1 <= p <= |tok| && v.More? && !took
      invariant action.Valid() && action.reported == old(action.reported)
      invariant e == Prepend(done, ShortGroup(cfg, tok, p, next))
      invariant action.trace == old(action.trace) + done
      invariant args[..] == old(args[..])
    {
      KnowsUnknown(cfg.usage, tok[p], action);
      var desc := FindShort(cfg.usage, tok[p]);
      var arg := if p + 1 == |tok| then next else Attached(tok[p + 1..]);
      ghost var o := Offer(desc, tok[p..], arg);
      GroupStep(cfg, tok, p, next, done, e);
      v, took := OfferOption(desc, tok[p..], arg, args, pos, nonops, action);
      GroupOutcome(v, took, o, e, done, old(action.trace), action.trace);
      if !v.More? { return; }
      done := done + o.e.performed;
      p := p + 1;
    }
    GroupEnd(cfg, tok, next);
  }

  lemma GroupEnd(cfg: Config, tok: string, next: OptArg)
    ensures ShortGroup(cfg, tok, |tok|, next) == Effect([], false, false)
  {
  }

  lemma GroupOutcome(v: Verdict, took: bool, o: Offered, e: Effect, done: seq<Opt>, before: seq<Opt>, after: seq<Opt>)
    requires Outcome(v, took, o.e, before + done, after) && (v.Stop? ==> o.stop) && (v.More? ==> !o.stop)
    requires o.stop ==> e == Prepend(done, o.e)
    requires done + o.e.performed <= e.performed
    requires (o.e.illegal ==> o.stop) && (o.e.took ==> o.stop)
    ensures !v.More? ==> Outcome(v, took, e, before, after)
    ensures v.More? ==> after == before + (done + o.e.performed) && !took
  {
  }

  function Prepend(done: seq<Opt>, e: Effect): Effect {
    e.(performed := done + e.performed)
  }

  lemma GroupStep(cfg: Config, tok: string, p: nat, next: OptArg, done: seq<Opt>, e: Effect)
    requires p < |tok| && e == Prepend(done, ShortGroup(cfg, tok, p, next))
    ensures
      var o := Offer(ShortDescriptor(cfg.usage, tok[p]), tok[p..], ShortArg(tok, p, next));
      && (o.stop ==> e == Prepend(done, o.e))
      && (!o.stop ==> e == Prepend(done + o.e.performed, ShortGroup(cfg, tok, p + 1, next)))
      && (!o.stop ==> |o.e.performed| + |ShortGroup(cfg, tok, p + 1, next).performed| ==
                      |ShortGroup(cfg, tok, p, next).performed|)
      && done + o.e.performed <= e.performed
      && (o.e.illegal ==> o.stop) && (o.e.took ==> o.stop)
  {
    var o := Offer(ShortDescriptor(cfg.usage, tok[p]), tok[p..], ShortArg(tok, p, next));
    if !o.stop {
      var r := ShortGroup(cfg, tok, p + 1, next);
      assert done + (o.e.performed + r.performed) == done + o.e.performed + r.performed;
    }
  }

  lemma TokenCases(cfg: Config, tok: string, next: OptArg)
    requires IsOption(tok)
    ensures
      var short := tok[1] != '-';
      var name := if short then tok[1..] else tok[2..];
      var found := LongIndex(cfg.usage, name, cfg.minAbbr) < |cfg.usage|;
      TokenEffect(cfg, tok, next) ==
        if !short || (cfg.singleMinus && found) then Offer(LongDescriptor(cfg, name), tok, LongArg(name, next)).e
        else ShortGroup(cfg, tok, 1, next)
  {
  }

  lemma LongKnown(cfg: Config, name: string, action: Action)
    requires forall d :: d in cfg.usage ==> action.Knows(d)
    ensures LongDescriptor(cfg, name).Just? ==> action.Knows(LongDescriptor(cfg, name).value)
  {
  }

  /** The loop over the options of one token. */
  method ProcessToken(cfg: Config, args: array<Arg>, pos: nat, more: bool, nonops: nat, action: Action)
    returns (v: Verdict, took: bool)
    requires action.Valid() && args !in action.Repr && nonops <= pos < args.Length
    requires more ==> pos + 1 < args.Length
    requires args[pos].Text? && IsOption(args[pos].text)
    requires action.Fits(|action.trace| + |TokenEffect(cfg, args[pos].text, NextArg(args[..], pos, more)).performed|)
    requires forall d :: d in cfg.usage ==> action.Knows(d)
    modifies args, action.Repr
    ensures action.Valid() && action.reported == old(action.reported)
    ensures Outcome(v, took, old(TokenEffect(cfg, args[pos].text, NextArg(args[..], pos, more))),
                    old(action.trace), action.trace)
    ensures v.Refused? ==> action.Full()
    ensures args[..] == if took then Rotated(old(args[..]), pos, nonops) else old(args[..])
  {
    hide ShortGroup, Offer, TokenEffect, LongIndex, Action.Valid, Action.Full, Outcome, Rotated;
    var tok := args[pos].text;
    var handleShort := tok[1] != '-';
    var longName := if handleShort then tok[1..] else tok[2..];
    var next := if more && args[pos + 1].Text? then Detached(args[pos + 1].text) else NoArg;
    TokenCases(cfg, tok, next);
    LongKnown(cfg, longName, action);
    var idx := |cfg.usage|;
    if !handleShort || cfg.singleMinus {
      idx := FindLong(cfg.usage, longName, cfg.minAbbr);
    }
    if !handleShort || idx < |cfg.usage| {
      var k := FindEqLoop(longName);
      var arg := if k < |longName| then Attached(longName[k + 1..]) else next;
      var desc := Nothing;
      if idx < |cfg.usage| { desc := Just(cfg.usage[idx]); } else { desc := FindUnknown(cfg.usage); }
      v, took := OfferOption(desc, tok, arg, args, pos, nonops, action);
    } else {
      v, took := ProcessGroup(cfg, tok, next, args, pos, nonops, action);
    }
  }

  // ---------- the whole line ----------

  /** argv after a pass: its tokens partitioned, what follows them untouched. */
  ghost function Arranged(line: seq<Arg>, marks: seq<bool>): seq<Arg>
    requires |marks| <= |line|
  {
    Partition(line[..|marks|], marks) + line[|marks|..]
  }

  /** The loop has dealt with the first pos entries; m says which of them were consumed. */
  ghost predicate Progress(orig: seq<Arg>, now: seq<Arg>, pos: nat, m: seq<bool>, nonops: nat) {
    && pos == |m| <= |orig|
    && now == Arranged(orig, m)
    && nonops == |Keep(orig[..pos], m, false)|
  }

  lemma ProgressSizes(orig: seq<Arg>, now: seq<Arg>, pos: nat, m: seq<bool>, nonops: nat)
    requires Progress(orig, now, pos, m, nonops)
    ensures nonops <= pos && |now| == |orig| && now[pos..] == orig[pos..]
    ensures |Keep(orig[..pos], m, true)| == pos - nonops
    ensures multiset(now) == multiset(orig)
  {
    PartitionPermutes(orig[..pos], m);
    assert orig == orig[..pos] + orig[pos..];
  }

  lemma KeepOne(x: Arg, b: bool)
    ensures Keep([x], [b], b) == [x] && Keep([x], [b], !b) == []
  {
  }

  lemma ProgressSkip(orig: seq<Arg>, now: seq<Arg>, pos: nat, m: seq<bool>, nonops: nat)
    requires Progress(orig, now, pos, m, nonops) && pos < |orig|
    ensures Progress(orig, now, pos + 1, m + [false], nonops + 1)
  {
    hide Keep;
    var x := orig[pos];
    assert orig[..pos + 1] == orig[..pos] + [x] && orig[pos..] == [x] + orig[pos + 1..];
    KeepOne(x, false);
    KeepSplit(orig[..pos], m, [x], [false], true);
    KeepSplit(orig[..pos], m, [x], [false], false);
    var k, l := Keep(orig[..pos], m, true), Keep(orig[..pos], m, false);
    assert k + l + ([x] + orig[pos + 1..]) == (k + []) + (l + [x]) + orig[pos + 1..];
  }

  lemma ProgressTake(orig: seq<Arg>, now: seq<Arg>, pos: nat, m: seq<bool>, nonops: nat)
    requires Progress(orig, now, pos, m, nonops) && pos < |orig|
    requires |now| == |orig| && nonops <= pos
    ensures Progress(orig, Rotated(now, pos, nonops), pos + 1, m + [true], nonops)
  {
    hide Keep;
    var x := orig[pos];
    assert orig[..pos + 1] == orig[..pos] + [x] && orig[pos..] == [x] + orig[pos + 1..];
    KeepOne(x, true);
    KeepSplit(orig[..pos], m, [x], [true], true);
    KeepSplit(orig[..pos], m, [x], [true], false);
    ProgressSizes(orig, now, pos, m, nonops);
    var k, l := Keep(orig[..pos], m, true), Keep(orig[..pos], m, false);
    assert now == k + l + [x] + orig[pos + 1..];
    RotateSplit(k, l, x, orig[pos + 1..]);
    assert k + [x] + (l + []) == k + [x] + l;
  }

  lemma RotateSplit(k: seq<Arg>, l: seq<Arg>, x: Arg, rest: seq<Arg>)
    ensures Rotated(k + l + [x] + rest, |k| + |l|, |l|) == k + [x] + l + rest
  {
    var a := k + l + [x] + rest;
    assert a[..|k|] == k && a[|k|..|k| + |l|] == l && a[|k| + |l| + 1..] == rest;
  }

  lemma KeepTail(a: seq<Arg>, m: seq<bool>, b: seq<Arg>)
    requires |a| == |m|
    ensures Keep(a + b, m + Same(false, |b|), true) == Keep(a, m, true)
    ensures Keep(a + b, m + Same(false, |b|), false) == Keep(a, m, false) + b
  {
    hide Keep, Same;
    KeepSplit(a, m, b, Same(false, |b|), true);
    KeepSplit(a, m, b, Same(false, |b|), false);
    KeepSame(b, false);
  }

  /** Nothing after pos is consumed. */
  lemma ProgressEnd(orig: seq<Arg>, now: seq<Arg>, pos: nat, m: seq<bool>, nonops: nat, n: nat)
    requires Progress(orig, now, pos, m, nonops) && pos <= n <= |orig|
    ensures now == Arranged(orig, m + Same(false, n - pos))
    ensures |Keep(orig[..n], m + Same(false, n - pos), true)| == pos - nonops
  {
    hide Keep, Same;
    ProgressSizes(orig, now, pos, m, nonops);
    var a, b := orig[..pos], orig[pos..n];
    KeepTail(a, m, b);
    assert orig[..n] == a + b;
    var k, l := Keep(a, m, true), Keep(a, m, false);
    calc {
      now;
      (k + l) + orig[pos..];
      { assert orig[pos..] == b + orig[n..]; }
      (k + l) + (b + orig[n..]);
      k + (l + b) + orig[n..];
    }
  }

  lemma AfterAfter(r: Scan, m: seq<bool>, p: seq<Opt>, m2: seq<bool>, p2: seq<Opt>)
    ensures r.After(m2, p2).After(m, p) == r.After(m + m2, p + p2)
  {
  }

  /** One token of the scan, from position pos. */
  lemma ScanStep(cfg: Config, gnu: bool, toks: seq<string>, pos: nat, m: seq<bool>, p: seq<Opt>)
    requires pos < |toks|
    ensures
      var t := toks[pos];
      var n := |toks| - pos;
      var s := ScanArgs(cfg, gnu, toks[pos..]).After(m, p);
      if !IsOption(t) then
        if gnu then s == ScanArgs(cfg, gnu, toks[pos + 1..]).After(m + [false], p)
        else s == Scan(m + Same(false, n), p, false, false)
      else if t == "--" then s == Scan(m + [true] + Same(false, n - 1), p, false, n == 1)
      else
        var e := TokenEffect(cfg, t, Next(toks[pos..]));
        if e.illegal then s == Scan(m + Same(false, n), p + e.performed, true, false)
        else if e.took then pos + 1 < |toks| && s == ScanArgs(cfg, gnu, toks[pos + 2..]).After(m + [true] + [true], p + e.performed)
        else s == ScanArgs(cfg, gnu, toks[pos + 1..]).After(m + [true], p + e.performed)
  {
    hide TokenEffect;
    var ts := toks[pos..];
    assert ts[0] == toks[pos] && ts[1..] == toks[pos + 1..];
    assert |ts| > 1 ==> ts[2..] == toks[pos + 2..];
    assert p + [] == p && m + [true, true] == m + [true] + [true];
    AfterAfter(ScanArgs(cfg, gnu, toks[pos + 1..]), m, p, [false], []);
    var e := if IsOption(ts[0]) then TokenEffect(cfg, ts[0], Next(ts)) else Effect([], false, false);
    AfterAfter(ScanArgs(cfg, gnu, toks[pos + 1..]), m, p, [true], e.performed);
    if e.took {
      AfterAfter(ScanArgs(cfg, gnu, toks[pos + 2..]), m, p, [true, true], e.performed);
    }
    assert m + ([true] + Same(false, |ts| - 1)) == m + [true] + Same(false, |ts| - 1);
  }

  /** One option token: its options are performed, then it is moved in front of the skipped
      non-options, together with its detached argument. */
  method HandleOption(cfg: Config, args: array<Arg>, pos: nat, more: bool, nonops: nat, action: Action,
                      ghost orig: seq<Arg>, ghost m: seq<bool>) returns (v: Verdict, took: bool)
    requires action.Valid() && args !in action.Repr && nonops <= pos < args.Length
    requires more ==> pos + 1 < args.Length
    requires args[pos].Text? && IsOption(args[pos].text)
    requires action.Fits(|action.trace| + |TokenEffect(cfg, args[pos].text, NextArg(args[..], pos, more)).performed|)
    requires forall d :: d in cfg.usage ==> action.Knows(d)
    requires Progress(orig, args[..], pos, m, nonops)
    modifies args, action.Repr
    ensures action.Valid() && action.reported == old(action.reported)
    ensures Outcome(v, took, old(TokenEffect(cfg, args[pos].text, NextArg(args[..], pos, more))),
                    old(action.trace), action.trace)
    ensures v.Refused? ==> action.Full() && multiset(args[..]) == multiset(orig)
    ensures v.Illegal? ==> args[..] == old(args[..])
    ensures v.Stop? || v.More? ==>
      if took then pos + 1 < args.Length && Progress(orig, args[..], pos + 2, m + [true] + [true], nonops)
      else Progress(orig, args[..], pos + 1, m + [true], nonops)
  {
    hide TokenEffect, Action.Valid, Action.Full, Keep, Progress, Rotated;
    ProgressSizes(orig, args[..], pos, m, nonops);
    ProgressTake(orig, args[..], pos, m, nonops);
    v, took := ProcessToken(cfg, args, pos, more, nonops, action);
    ghost var m' := if took then m + [true] else m;
    var q := if took then pos + 1 else pos;
    ProgressSizes(orig, args[..], q, m', nonops);
    if v.Illegal? || v.Refused? { return; }
    ProgressTake(orig, args[..], q, m', nonops);
    Shift(args, q, nonops);
  }

  lemma ProgressStart(orig: seq<Arg>)
    ensures Progress(orig, orig, 0, [], 0)
  {
    assert orig[..0] == [] && [] + [] + orig[0..] == orig;
  }

  ghost function ArgsOf(toks: seq<string>): seq<Arg> {
    seq(|toks|, i requires 0 <= i < |toks| => Text(toks[i]))
  }

  lemma {:induction false} KeepArgs(toks: seq<string>, m: seq<bool>, b: bool)
    requires |toks| == |m|
    ensures Keep(ArgsOf(toks), m, b) == ArgsOf(Keep(toks, m, b))
  {
    if toks != [] {
      KeepArgs(toks[1..], m[1..], b);
      assert ArgsOf(toks)[1..] == ArgsOf(toks[1..]);
    }
  }

  /** Where the tokens of argv end. */
  lemma {:induction false} TokensEnd(argv: seq<Arg>, argc: int)
    ensures var n := |Tokens(argv, argc)|; n == argc || n == |argv| || argv[n].Null?
    ensures argc < 0 && Null in argv ==> |Tokens(argv, argc)| < |argv|
    ensures argv[..|Tokens(argv, argc)|] == ArgsOf(Tokens(argv, argc))
  {
    if argv != [] && argc != 0 && argv[0].Text? {
      TokensEnd(argv[1..], argc - 1);
    }
  }

  /** The token at pos, and what the parser may read after it. */
  lemma AtToken(orig: seq<Arg>, argc: int, now: seq<Arg>, pos: nat, more: bool)
    requires argc <= |orig| == |now| && pos <= |Tokens(orig, argc)|
    requires now[pos..] == orig[pos..] && pos < |now| && now[pos].Text?
    requires argc >= 0 ==> pos < argc
    requires more == (argc < 0 || argc - pos > 1)
    requires argc < 0 ==> Null in orig
    ensures pos < |Tokens(orig, argc)| && now[pos].text == Tokens(orig, argc)[pos]
    ensures more ==> pos + 1 < |now|
    ensures NextArg(now, pos, more) == Next(Tokens(orig, argc)[pos..])
  {
    TokensEnd(orig, argc);
    assert now[pos] == now[pos..][0] == orig[pos];
    if more {
      assert now[pos + 1] == now[pos..][1] == orig[pos + 1];
    }
  }

  lemma ScanStart(cfg: Config, gnu: bool, toks: seq<string>)
    ensures ScanArgs(cfg, gnu, toks) == ScanArgs(cfg, gnu, toks[0..]).After([], [])
  {
  }

  lemma ScanEnd(cfg: Config, gnu: bool, toks: seq<string>, m: seq<bool>, p: seq<Opt>)
    ensures ScanArgs(cfg, gnu, toks[|toks|..]).After(m, p) == Scan(m + Same(false, 0), p, false, true)
  {
  }

  /** The layout of argv when the scan stops at pos, and how many tokens come first in it. */
  lemma LaidOut(orig: seq<Arg>, argc: int, now: seq<Arg>, pos: nat, m: seq<bool>, nonops: nat, marks: seq<bool>)
    requires Progress(orig, now, pos, m, nonops) && pos <= |Tokens(orig, argc)|
    requires marks == m + Same(false, |Tokens(orig, argc)| - pos)
    ensures |marks| == |Tokens(orig, argc)| && now == Arranged(orig, marks) && multiset(now) == multiset(orig)
    ensures |Keep(Tokens(orig, argc), marks, true)| == pos - nonops
    ensures |Keep(Tokens(orig, argc), marks, false)| == |Tokens(orig, argc)| - (pos - nonops)
  {
    hide Keep;
    var toks := Tokens(orig, argc);
    TokensEnd(orig, argc);
    ProgressSizes(orig, now, pos, m, nonops);
    ProgressEnd(orig, now, pos, m, nonops, |toks|);
    KeepArgs(toks, marks, true);
    PartitionPermutes(toks, marks);
  }

  /** Between two rounds of the loop: m and p are the marks and options of the tokens before
      pos, and what remains of the scan s is the scan of the tokens from pos on. */
  ghost predicate Round(cfg: Config, gnu: bool, orig: seq<Arg>, argc: int, now: seq<Arg>,
                        pos: nat, nonops: nat, numargs: int, broke: bool, m: seq<bool>, p: seq<Opt>)
  {
    var toks := Tokens(orig, argc);
    var s := ScanArgs(cfg, gnu, toks);
    && nonops <= pos <= |toks| && Progress(orig, now, pos, m, nonops)
    && |now| == |orig| && now[pos..] == orig[pos..]
    && argc <= |orig| && (argc < 0 ==> Null in orig)
    && numargs == (if argc < 0 then argc else argc - pos)
    && |p| <= |s.performed|
    && if broke then s == Scan(m + Same(false, |toks| - pos), p, false, pos == |toks|)
       else s == ScanArgs(cfg, gnu, toks[pos..]).After(m, p)
  }

  lemma RoundStart(cfg: Config, gnu: bool, orig: seq<Arg>, argc: int)
    requires argc <= |orig| && (argc < 0 ==> Null in orig)
    ensures Round(cfg, gnu, orig, argc, orig, 0, 0, argc, false, [], [])
  {
    hide ScanArgs, Progress;
    ProgressStart(orig);
    ScanStart(cfg, gnu, Tokens(orig, argc));
  }

  /** The loop is over: argv is laid out and s is what has been performed. */
  lemma RoundEnd(cfg: Config, gnu: bool, orig: seq<Arg>, argc: int, now: seq<Arg>,
                 pos: nat, nonops: nat, numargs: int, broke: bool, m: seq<bool>, p: seq<Opt>)
    requires Round(cfg, gnu, orig, argc, now, pos, nonops, numargs, broke, m, p)
    requires broke || numargs == 0 || (pos < |now| && now[pos].Null?)
    ensures
      var toks := Tokens(orig, argc);
      var s := ScanArgs(cfg, gnu, toks);
      && !s.illegal && Parsed(orig, now, s, [], p)
      && |Keep(toks, s.marks, true)| == pos - nonops
      && |Keep(toks, s.marks, false)| == |toks| - (pos - nonops)
      && nonops <= pos <= |toks| <= |now| && (s.atEnd <==> pos == |toks|)
      && (argc < 0 ==> |toks| < |now| && now[|toks|].Null?)
      && (forall i :: pos <= i < |toks| ==> now[i].Text?)
      && (pos < |now| && now[pos].Null? ==> pos == |toks|)
      && (pos < argc && pos == |toks| ==> now[pos].Null?)
      && (argc >= 0 ==> |toks| <= argc)
  {
    hide ScanArgs, Progress, Keep, Tokens, Arranged;
    var toks := Tokens(orig, argc);
    TokensEnd(orig, argc);
    forall i | pos <= i < |now| ensures now[i] == orig[i] {
      assert now[pos..][i - pos] == orig[pos..][i - pos];
    }
    if !broke {
      assert pos == |toks|;
      ScanEnd(cfg, gnu, toks, m, p);
    }
    LaidOut(orig, argc, now, pos, m, nonops, ScanArgs(cfg, gnu, toks).marks);
  }

  lemma RoundSkip(cfg: Config, gnu: bool, orig: seq<Arg>, argc: int, now: seq<Arg>,
                  pos: nat, nonops: nat, numargs: int, m: seq<bool>, p: seq<Opt>)
    requires Round(cfg, gnu, orig, argc, now, pos, nonops, numargs, false, m, p)
    requires numargs != 0 && pos < |now| && now[pos].Text? && !IsOption(now[pos].text)
    ensures gnu ==> Round(cfg, gnu, orig, argc, now, pos + 1, nonops + 1,
                          if numargs > 0 then numargs - 1 else numargs, false, m + [false], p)
    ensures !gnu ==> Round(cfg, gnu, orig, argc, now, pos, nonops, numargs, true, m, p)
  {
    hide ScanArgs, Progress, Tokens;
    AtToken(orig, argc, now, pos, argc < 0 || argc - pos > 1);
    ScanStep(cfg, gnu, Tokens(orig, argc), pos, m, p);
    ProgressSkip(orig, now, pos, m, nonops);
    ProgressSizes(orig, now, pos + 1, m + [false], nonops + 1);
  }

  lemma RoundTerminator(cfg: Config, gnu: bool, orig: seq<Arg>, argc: int, now: seq<Arg>,
                        pos: nat, nonops: nat, numargs: int, m: seq<bool>, p: seq<Opt>)
    requires Round(cfg, gnu, orig, argc, now, pos, nonops, numargs, false, m, p)
    requires numargs != 0 && pos < |now| && now[pos] == Text("--")
    ensures Round(cfg, gnu, orig, argc, Rotated(now, pos, nonops), pos + 1, nonops,
                  if numargs > 0 then numargs - 1 else numargs, true, m + [true], p)
  {
    hide ScanArgs, Progress, Tokens, Rotated;
    AtToken(orig, argc, now, pos, argc < 0 || argc - pos > 1);
    ScanStep(cfg, gnu, Tokens(orig, argc), pos, m, p);
    ProgressTake(orig, now, pos, m, nonops);
    ProgressSizes(orig, Rotated(now, pos, nonops), pos + 1, m + [true], nonops);
  }

  /** What is known of the option token at pos before it is handled. */
  lemma RoundOption(cfg: Config, gnu: bool, orig: seq<Arg>, argc: int, now: seq<Arg>,
                    pos: nat, nonops: nat, numargs: int, m: seq<bool>, p: seq<Opt>, more: bool)
    requires Round(cfg, gnu, orig, argc, now, pos, nonops, numargs, false, m, p)
    requires numargs != 0 && pos < |now| && now[pos].Text? && IsOption(now[pos].text) && now[pos].text != "--"
    requires more == (numargs > 1 || numargs < 0)
    ensures more ==> pos + 1 < |now|
    ensures
      var e := TokenEffect(cfg, now[pos].text, NextArg(now, pos, more));
      var s := ScanArgs(cfg, gnu, Tokens(orig, argc));
      && p + e.performed <= s.performed
      && (e.illegal ==> s.illegal && Parsed(orig, now, s, [], p + e.performed))
  {
    hide ScanArgs, Progress, Tokens, TokenEffect, Arranged;
    var toks := Tokens(orig, argc);
    AtToken(orig, argc, now, pos, more);
    ScanStep(cfg, gnu, toks, pos, m, p);
    if TokenEffect(cfg, now[pos].text, NextArg(now, pos, more)).illegal {
      LaidOut(orig, argc, now, pos, m, nonops, ScanArgs(cfg, gnu, toks).marks);
    }
  }

  lemma RoundHandled(cfg: Config, gnu: bool, orig: seq<Arg>, argc: int, now: seq<Arg>, after: seq<Arg>,
                     pos: nat, nonops: nat, numargs: int, m: seq<bool>, p: seq<Opt>, more: bool, m': seq<bool>)
    requires Round(cfg, gnu, orig, argc, now, pos, nonops, numargs, false, m, p)
    requires numargs != 0 && pos < |now| && now[pos].Text? && IsOption(now[pos].text) && now[pos].text != "--"
    requires more == (numargs > 1 || numargs < 0) && (more ==> pos + 1 < |now|)
    requires !TokenEffect(cfg, now[pos].text, NextArg(now, pos, more)).illegal
    requires m' == if TokenEffect(cfg, now[pos].text, NextArg(now, pos, more)).took then m + [true] + [true] else m + [true]
    requires Progress(orig, after, |m'|, m', nonops)
    ensures Round(cfg, gnu, orig, argc, after, |m'|, nonops, if numargs > 0 then numargs - (|m'| - pos) else numargs,
                  false, m', p + TokenEffect(cfg, now[pos].text, NextArg(now, pos, more)).performed)
  {
    hide ScanArgs, Progress, Tokens, TokenEffect;
    AtToken(orig, argc, now, pos, more);
    ScanStep(cfg, gnu, Tokens(orig, argc), pos, m, p);
    ProgressSizes(orig, now, pos, m, nonops);
    ProgressSizes(orig, after, |m'|, m', nonops);
  }

  /** One round of the loop on an option token; step is the number of tokens used up. */
  method OptionRound(cfg: Config, gnu: bool, argc: int, args: array<Arg>, pos: nat, nonops: nat, numargs: int,
                     action: Action, ghost orig: seq<Arg>, ghost m: seq<bool>, ghost p: seq<Opt>)
    returns (ok: bool, step: nat, ghost m': seq<bool>, ghost p': seq<Opt>)
    requires action.Valid() && args !in action.Repr
    requires Round(cfg, gnu, orig, argc, args[..], pos, nonops, numargs, false, m, p)
    requires numargs != 0 && pos < args.Length && args[pos].Text? && IsOption(args[pos].text) && args[pos].text != "--"
    requires |p| <= |action.trace| && p == action.trace[|action.trace| - |p|..]
    requires action.Fits(|action.trace| - |p| + |ScanArgs(cfg, gnu, Tokens(orig, argc)).performed|)
    requires forall d :: d in cfg.usage ==> action.Knows(d)
    modifies args, action.Repr
    ensures action.Valid() && action.reported == old(action.reported)
    ensures
      var trace0 := old(action.trace)[..|old(action.trace)| - |p|];
      && (ok ==> 0 < step && action.trace == trace0 + p')
      && (ok ==> Round(cfg, gnu, orig, argc, args[..], pos + step, nonops,
                       if numargs > 0 then numargs - step else numargs, false, m', p'))
      && (!ok ==>
           (Failed(cfg, gnu, argc, orig, args[..], trace0, action.trace)
            || (action.Full() && Refusal(cfg, gnu, argc, orig, args[..], trace0, action.trace))))
  {
    hide TokenEffect, Action.Valid, Action.Full, Action.Knows, Keep, Progress, ScanArgs, Tokens, Arranged, Round, Rotated;
    var more := numargs > 1 || numargs < 0;
    ghost var now := args[..];
    ghost var trace0 := action.trace[..|action.trace| - |p|];
    assert action.trace == trace0 + p;
    RoundFacts(cfg, gnu, orig, argc, now, pos, nonops, numargs, false, m, p);
    RoundOption(cfg, gnu, orig, argc, now, pos, nonops, numargs, m, p, more);
    ghost var e := TokenEffect(cfg, args[pos].text, NextArg(now, pos, more));
    p' := p + e.performed;
    assert trace0 + p + e.performed == trace0 + p';
    var v, took := HandleOption(cfg, args, pos, more, nonops, action, orig, m);
    ok := v.Stop? || v.More?;
    step := if took then 2 else 1;
    m' := if took then m + [true] + [true] else m + [true];
    if ok {
      RoundHandled(cfg, gnu, orig, argc, now, args[..], pos, nonops, numargs, m, p, more, m');
    }
  }

  /** The core loop of the parser. In terms of the scan that moves nothing: on success argv is
      the stable partition of its tokens into consumed ones and others, the performed options
      are those of the scan, and finished() gets the others, with the count Reported. On failure either a checker
      rejected an argument, and argv is laid out likewise, or the action refused an option. */
  method Workhorse(gnu: bool, cfg: Config, argc: int, args: array<Arg>, action: Action) returns (ok: bool)
    requires action.Valid() && args !in action.Repr
    requires argc <= args.Length && (argc < 0 ==> Null in args[..])
    requires action.Fits(|action.trace| + |ScanArgs(cfg, gnu, Tokens(args[..], argc)).performed|)
    requires forall d :: d in cfg.usage ==> action.Knows(d)
    modifies args, action, action.Repr
    ensures action.Valid()
    ensures ok ==> Succeeded(cfg, gnu, argc, old(args[..]), args[..], old(action.trace), action.trace, action.reported)
    ensures !ok ==> action.reported == old(action.reported)
    ensures !ok ==>
      (Failed(cfg, gnu, argc, old(args[..]), args[..], old(action.trace), action.trace)
       || (action.Full() && Refusal(cfg, gnu, argc, old(args[..]), args[..], old(action.trace), action.trace)))
  {
    hide TokenEffect, Action.Valid, Action.Full, Action.Knows, Keep, Progress, ScanArgs, Tokens, Arranged, Round, Rotated;
    ghost var orig, trace0, reported0 := args[..], action.trace, action.reported;
    ghost var total := ScanArgs(cfg, gnu, Tokens(orig, argc)).performed;
    ghost var m: seq<bool>, p: seq<Opt> := [], [];
    var pos, nonops, numargs := 0, 0, argc;
    var broke := false;
    RoundStart(cfg, gnu, orig, argc);
    while !broke && numargs != 0 && args[pos].Text?
      invariant Round(cfg, gnu, orig, argc, args[..], pos, nonops, numargs, broke, m, p)
      invariant pos <= args.Length && (!broke && numargs != 0 ==> pos < args.Length)
      invariant action.Valid() && action.reported == reported0 && action.trace == trace0 + p
      decreases args.Length - pos, !broke
    {
      RoundFacts(cfg, gnu, orig, argc, args[..], pos, nonops, numargs, broke, m, p);
      if !IsOption(args[pos].text) {
        RoundSkip(cfg, gnu, orig, argc, args[..], pos, nonops, numargs, m, p);
        if gnu {
          nonops, pos, m := nonops + 1, pos + 1, m + [false];
          if numargs > 0 { numargs := numargs - 1; }
        } else {
          broke := true;
        }
      } else if args[pos].text == "--" {
        RoundTerminator(cfg, gnu, orig, argc, args[..], pos, nonops, numargs, m, p);
        Shift(args, pos, nonops);
        pos, m := pos + 1, m + [true];
        if numargs > 0 { numargs := numargs - 1; }
        broke := true;
      } else {
        var ok', step, m', p' := OptionRound(cfg, gnu, argc, args, pos, nonops, numargs, action, orig, m, p);
        if !ok' { return false; }
        pos, m, p := pos + step, m', p';
        if numargs > 0 { numargs := numargs - step; }
      }
      RoundFacts(cfg, gnu, orig, argc, args[..], pos, nonops, numargs, broke, m, p);
    }
    RoundFacts(cfg, gnu, orig, argc, args[..], pos, nonops, numargs, broke, m, p);
    RoundEnd(cfg, gnu, orig, argc, args[..], pos, nonops, numargs, broke, m, p);
    if numargs > 0 && args[pos].Null? { numargs := 0; }
    if numargs < 0 { numargs := CountRest(args, pos, |Tokens(orig, argc)|); }
    action.Finished(numargs + nonops, pos - nonops);
    return true;
  }

  lemma RoundFacts(cfg: Config, gnu: bool, orig: seq<Arg>, argc: int, now: seq<Arg>,
                   pos: nat, nonops: nat, numargs: int, broke: bool, m: seq<bool>, p: seq<Opt>)
    requires Round(cfg, gnu, orig, argc, now, pos, nonops, numargs, broke, m, p)
    ensures Progress(orig, now, pos, m, nonops) && pos == |m|
    ensures numargs == if argc < 0 then argc else argc - pos
    ensures nonops <= pos <= |now| && (numargs < 0 ==> !broke ==> pos < |now|) && numargs <= |now| - pos
  {
    hide ScanArgs;
    TokensEnd(orig, argc);
  }

  /** before is argv on entry, after argv on return. */
  ghost predicate Succeeded(cfg: Config, gnu: bool, argc: int, before: seq<Arg>, after: seq<Arg>,
                            trace0: seq<Opt>, trace: seq<Opt>, reported: Maybe<(nat, nat)>)
  {
    var toks := Tokens(before, argc);
    var s := ScanArgs(cfg, gnu, toks);
    && !s.illegal && Parsed(before, after, s, trace0, trace)
    && reported.Just?
    && reported.value.1 == |Keep(toks, s.marks, true)|
    && reported.value.0 == Reported(argc, toks, s)
  }

  /** The count that finished() gets. */
  function Reported(argc: int, toks: seq<string>, s: Scan): (n: int)
    requires |s.marks| == |toks|
  {
    if argc <= |toks| || s.atEnd then |Keep(toks, s.marks, false)| else argc - |Keep(toks, s.marks, true)|
  }

  /** It is the number of non-options unless argc goes beyond a NULL in argv and the scan stopped in
      front of a token; then it is too great. */
  lemma ReportedExact(argc: int, toks: seq<string>, s: Scan)
    requires |s.marks| == |toks|
    ensures Reported(argc, toks, s) == |Keep(toks, s.marks, false)| <==> argc <= |toks| || s.atEnd
    ensures Reported(argc, toks, s) >= |Keep(toks, s.marks, false)|
  {
    PartitionPermutes(toks, s.marks);
  }

  /** Such an input: argv is "x" and NULL, argc is 2. The gnu pass reports one argument, the
      POSIX pass two. */
  lemma OverlongArgc(cfg: Config)
    ensures
      var toks := Tokens([Text("x"), Null], 2);
      && toks == ["x"]
      && Reported(2, toks, ScanArgs(cfg, true, toks)) == 1
      && Reported(2, toks, ScanArgs(cfg, false, toks)) == 2
  {
    var argv := [Text("x"), Null];
    assert argv[1..] == [Null];
    assert Tokens([Null], 1) == [];
    assert ["x"][1..] == [];
    assert ScanArgs(cfg, true, ["x"]).marks == [false] && ScanArgs(cfg, false, ["x"]).marks == [false];
    KeepSame(["x"], false);
    assert Same(false, 1) == [false];
  }

  ghost predicate Failed(cfg: Config, gnu: bool, argc: int, before: seq<Arg>, after: seq<Arg>,
                         trace0: seq<Opt>, trace: seq<Opt>)
  {
    var s := ScanArgs(cfg, gnu, Tokens(before, argc));
    s.illegal && Parsed(before, after, s, trace0, trace)
  }

  ghost predicate Refusal(cfg: Config, gnu: bool, argc: int, before: seq<Arg>, after: seq<Arg>,
                          trace0: seq<Opt>, trace: seq<Opt>)
  {
    && multiset(after) == multiset(before)
    && trace0 <= trace < trace0 + ScanArgs(cfg, gnu, Tokens(before, argc)).performed
  }

  method CountRest(args: array<Arg>, pos: nat, ghost n: nat) returns (count: nat)
    requires pos <= n < args.Length && args[n].Null?
    requires forall i :: pos <= i < n ==> args[i].Text?
    ensures count == n - pos
  {
    count := 0;
    while args[pos + count].Text?
      invariant 0 <= count <= n - pos
      decreases n - pos - count
    {
      count := count + 1;
    }
  }

  ghost predicate Parsed(before: seq<Arg>, after: seq<Arg>, s: Scan, trace0: seq<Opt>, trace: seq<Opt>) {
    && |s.marks| <= |before| && after == Arranged(before, s.marks)
    && trace == trace0 + s.performed
  }
}
