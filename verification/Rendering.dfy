/** What an option looks like on a command line, and that the parser finds it there
    (src/C++/optionparser.h). Any list of options, each written in one of the ways that the parser
    documents and mixed with other arguments, is performed as it was meant. */
module Rendering {
  import opened Arguments
  import opened ArgScan
  import opened Reparse

  // ---------- which descriptor a name stands for ----------

  /** The first entry without names, which stands for unknown options; or none. */
  ghost predicate DummyMeans(usage: seq<Descriptor>, d: Maybe<Descriptor>) {
    || (d == Nothing && forall i :: 0 <= i < |usage| ==> usage[i].shortopt != "" || usage[i].longopt != "")
    || exists i :: 0 <= i < |usage| && usage[i].shortopt == usage[i].longopt == "" && d == Just(usage[i]) &&
         forall j :: 0 <= j < i ==> usage[j].shortopt != "" || usage[j].longopt != ""
  }

  ghost predicate ShortMeans(usage: seq<Descriptor>, c: char, d: Maybe<Descriptor>) {
    || ((forall i :: 0 <= i < |usage| ==> c !in usage[i].shortopt) && DummyMeans(usage, d))
    || exists i :: 0 <= i < |usage| && c in usage[i].shortopt && d == Just(usage[i]) &&
         forall j :: 0 <= j < i ==> c !in usage[j].shortopt
  }

  /** The name is that of entry i, or an abbreviation of it and of no other. */
  ghost predicate Finds(cfg: Config, name: string, i: nat)
    requires i < |cfg.usage|
  {
    if exists j :: 0 <= j < |cfg.usage| && Exact(cfg.usage[j], name) then
      Exact(cfg.usage[i], name) && forall j :: 0 <= j < i ==> !Exact(cfg.usage[j], name)
    else
      cfg.minAbbr > 0 && Abbr(cfg.usage[i], name, cfg.minAbbr) &&
      forall j :: 0 <= j < |cfg.usage| && j != i ==> !Abbr(cfg.usage[j], name, cfg.minAbbr)
  }

  ghost predicate Known(cfg: Config, name: string) {
    exists i :: 0 <= i < |cfg.usage| && Finds(cfg, name, i)
  }

  ghost predicate LongMeans(cfg: Config, name: string, d: Maybe<Descriptor>) {
    || (!Known(cfg, name) && DummyMeans(cfg.usage, d))
    || exists i :: 0 <= i < |cfg.usage| && Finds(cfg, name, i) && d == Just(cfg.usage[i])
  }

  /** Which long names a text stands for that begins with `given`, up to the end or a '='. A name stands
      for itself, and, if it is as long as required, its beginning may stand for it. */
  lemma NamesMatch(name: string, given: string, rest: string, min: int)
    requires '=' !in name && '=' !in given && (rest != "" ==> rest[0] == '=')
    ensures StrEq(name, given + rest) <==> given == name
    ensures StrEqAbbr(name, given + rest, min) <==> given <= name && (given == name || (min > 0 && |given| >= min))
  {
    var s := given + rest;
    var k := CommonPrefix(name, s);
    NotIn(name, '=');
    NotIn(given, '=');
    assert forall i :: 0 <= i < |given| ==> s[i] == given[i];
    assert s[..|given|] == given;
    assert |given| <= k ==> name[..k][..|given|] == name[..|given|] && s[..k][..|given|] == given;
    if given <= name { CommonPrefixUnique(name, s, |given|); }
  }

  lemma NotIn(s: string, c: char)
    requires c !in s
    ensures forall i :: 0 <= i < |s| ==> s[i] != c
  {
  }

  lemma DummyIs(usage: seq<Descriptor>, d: Maybe<Descriptor>)
    requires DummyMeans(usage, d)
    ensures UnknownDescriptor(usage) == d
  {
  }

  lemma ShortIs(usage: seq<Descriptor>, c: char, d: Maybe<Descriptor>)
    requires ShortMeans(usage, c, d)
    ensures ShortDescriptor(usage, c) == d
  {
    if forall i :: 0 <= i < |usage| ==> c !in usage[i].shortopt { DummyIs(usage, d); }
  }

  lemma FindsIs(cfg: Config, name: string, i: nat)
    requires i < |cfg.usage|
    ensures Finds(cfg, name, i) <==> LongIndex(cfg.usage, name, cfg.minAbbr) == i
  {
    hide LongIndex, Exact, Abbr;
    LongIndexMeaning(cfg.usage, name, cfg.minAbbr, i);
  }

  lemma KnownIs(cfg: Config, name: string)
    ensures Known(cfg, name) <==> LongIndex(cfg.usage, name, cfg.minAbbr) < |cfg.usage|
  {
    hide LongIndex, Finds;
    var k := LongIndex(cfg.usage, name, cfg.minAbbr);
    if k < |cfg.usage| { FindsIs(cfg, name, k); }
    forall i | 0 <= i < |cfg.usage| ensures Finds(cfg, name, i) <==> k == i {
      FindsIs(cfg, name, i);
    }
  }

  lemma LongIs(cfg: Config, name: string, d: Maybe<Descriptor>)
    requires LongMeans(cfg, name, d)
    ensures LongDescriptor(cfg, name) == d
  {
    hide LongIndex, UnknownDescriptor, Finds, Known;
    KnownIs(cfg, name);
    if i :| 0 <= i < |cfg.usage| && Finds(cfg, name, i) && d == Just(cfg.usage[i]) {
      FindsIs(cfg, name, i);
    } else {
      DummyIs(cfg.usage, d);
    }
  }

  // ---------- ways to write options ----------

  /** A short option without an argument. */
  datatype Flag = Flag(c: char, d: Maybe<Descriptor>)

  /** Where d may be Nothing an option that is not known is meant, which is passed over. dash is "--",
      or "-" for a long option with a single minus. */
  datatype Item =
    | Plain(text: string)
    | Long(dash: string, name: string, d: Maybe<Descriptor>)
    | LongValue(dash: string, name: string, value: string, d: Maybe<Descriptor>)
    | LongNext(dash: string, name: string, value: string, desc: Descriptor)
    | Shorts(flags: seq<Flag>, last: Flag)
    | ShortValue(flags: seq<Flag>, c: char, value: string, desc: Descriptor)
    | ShortNext(flags: seq<Flag>, c: char, value: string, desc: Descriptor)

  function Chars(flags: seq<Flag>): (s: string)
    ensures |s| == |flags| && forall i :: 0 <= i < |s| ==> s[i] == flags[i].c
  {
    seq(|flags|, i requires 0 <= i < |flags| => flags[i].c)
  }

  /** The tokens of an item. */
  function Render(it: Item): (toks: seq<string>)
    ensures toks != []
  {
    match it
    case Plain(text) => [text]
    case Long(dash, name, _) => [dash + name]
    case LongValue(dash, name, value, _) => [dash + name + "=" + value]
    case LongNext(dash, name, value, _) => [dash + name, value]
    case Shorts(flags, last) => ["-" + Chars(flags) + [last.c]]
    case ShortValue(flags, c, value, _) => ["-" + Chars(flags) + [c] + value]
    case ShortNext(flags, c, value, _) => ["-" + Chars(flags) + [c], value]
  }

  function Line(items: seq<Item>): seq<string> {
    if items == [] then [] else Render(items[0]) + Line(items[1..])
  }

  /** A performed option as its user sees it: whose it is, its name as written, and its argument. */
  datatype Meant = Meant(desc: Descriptor, name: string, arg: Maybe<string>)

  function ForFlags(flags: seq<Flag>): seq<Meant> {
    if flags == [] then []
    else (if flags[0].d.Just? then [Meant(flags[0].d.value, [flags[0].c], Nothing)] else []) + ForFlags(flags[1..])
  }

  function MeantBy(it: Item): seq<Meant> {
    match it
    case Plain(_) => []
    case Long(dash, name, d) => if d.Just? then [Meant(d.value, dash + name, Nothing)] else []
    case LongValue(dash, name, value, d) => if d.Just? then [Meant(d.value, dash + name, Just(value))] else []
    case LongNext(dash, name, value, desc) => [Meant(desc, dash + name, Just(value))]
    case Shorts(flags, last) => ForFlags(flags) + ForFlags([last])
    case ShortValue(flags, c, value, desc) => ForFlags(flags) + [Meant(desc, [c], Just(value))]
    case ShortNext(flags, c, value, desc) => ForFlags(flags) + [Meant(desc, [c], Just(value))]
  }

  function AllMeant(items: seq<Item>): seq<Meant> {
    if items == [] then [] else MeantBy(items[0]) + AllMeant(items[1..])
  }

  function Plains(items: seq<Item>): seq<string> {
    if items == [] then [] else (if items[0].Plain? then [items[0].text] else []) + Plains(items[1..])
  }

  ghost predicate NeverTakes(d: Maybe<Descriptor>) {
    d.Just? ==> forall n, a :: Declines(d.value.check(n, a))
  }

  /** Nothing that may follow the name is taken for its argument. */
  ghost predicate TakesNone(d: Maybe<Descriptor>, name: string) {
    d.Just? ==> forall a :: Declines(d.value.check(name, a))
  }

  ghost predicate GoodFlags(cfg: Config, flags: seq<Flag>) {
    forall f :: f in flags ==> f.c != '-' && ShortMeans(cfg.usage, f.c, f.d) && NeverTakes(f.d)
  }

  ghost predicate GoodLong(cfg: Config, dash: string, name: string, text: string, d: Maybe<Descriptor>) {
    && '=' !in name && LongMeans(cfg, text, d)
    && (dash == "--" || (dash == "-" && cfg.singleMinus && name != "" && name[0] != '-' && Known(cfg, text)))
  }

  ghost predicate GoodGroup(cfg: Config, flags: seq<Flag>, c: char, text: string, d: Maybe<Descriptor>) {
    GoodFlags(cfg, flags) && c != '-' && ShortMeans(cfg.usage, c, d) && !(cfg.singleMinus && Known(cfg, text))
  }

  /** No option: there is no minus in front, or nothing behind it. */
  predicate Argument(text: string) { text == "" || text[0] != '-' || text == "-" }

  /** The item may be written like that. */
  ghost predicate Good(cfg: Config, it: Item) {
    match it
    case Plain(text) => Argument(text)
    case Long(dash, name, d) => name != "" && GoodLong(cfg, dash, name, name, d) && TakesNone(d, dash + name)
    case LongValue(dash, name, value, d) =>
      && GoodLong(cfg, dash, name, name + "=" + value, d)
      && (d.Just? ==> d.value.check(dash + name + "=" + value, Just(value)) == ArgOk)
    case LongNext(dash, name, value, desc) =>
      name != "" && GoodLong(cfg, dash, name, name, Just(desc)) && desc.check(dash + name, Just(value)) == ArgOk
    case Shorts(flags, last) =>
      GoodGroup(cfg, flags, last.c, Chars(flags) + [last.c], last.d) && TakesNone(last.d, [last.c])
    case ShortValue(flags, c, value, desc) =>
      && value != "" && GoodGroup(cfg, flags, c, Chars(flags) + [c] + value, Just(desc))
      && desc.check([c] + value, Just(value)) == ArgOk
    case ShortNext(flags, c, value, desc) =>
      GoodGroup(cfg, flags, c, Chars(flags) + [c], Just(desc)) && desc.check([c], Just(value)) == ArgOk
  }

  // ---------- one item ----------

  function See(o: Opt): Meant {
    var n := NameLen(o.name);
    Meant(o.desc, if n <= |o.name| then o.name[..n] else o.name, o.arg)
  }

  function SeeAll(os: seq<Opt>): (ms: seq<Meant>)
    ensures |ms| == |os|
  {
    seq(|os|, i requires 0 <= i < |os| => See(os[i]))
  }

  lemma SeeConcat(a: seq<Opt>, b: seq<Opt>)
    ensures SeeAll(a + b) == SeeAll(a) + SeeAll(b)
  {
    hide See;
  }

  lemma {:induction false} FindEqAt(name: string, rest: string)
    requires '=' !in name && (rest != "" ==> rest[0] == '=')
    ensures FindEq(name + rest) == |name|
  {
    if name == "" {
      assert name + rest == rest;
    } else {
      assert (name + rest)[1..] == name[1..] + rest;
      FindEqAt(name[1..], rest);
    }
  }

  /** The name of a long option ends at its '='. */
  lemma LongName(dash: string, name: string, rest: string)
    requires dash == "-" || dash == "--"
    requires '=' !in name && (rest != "" ==> rest[0] == '=')
    ensures var s := dash + name + rest;
      NameLen(s) == |dash + name| && s[..NameLen(s)] == dash + name
  {
    var s := dash + name + rest;
    assert s[1..] == dash[1..] + name + rest;
    FindEqAt(dash[1..] + name, rest);
  }

  lemma ShortName(c: char, rest: string)
    requires c != '-'
    ensures var s := [c] + rest; NameLen(s) == 1 && s[..1] == [c]
  {
  }

  /** What a token must come to. */
  ghost predicate ComesTo(e: Effect, took: bool, ms: seq<Meant>) {
    !e.illegal && e.took == took && SeeAll(e.performed) == ms
  }

  lemma LongToken(cfg: Config, dash: string, name: string, rest: string, d: Maybe<Descriptor>, next: OptArg)
    requires GoodLong(cfg, dash, name, name + rest, d) && |dash + name + rest| >= 2 && !next.Attached?
    requires rest != "" ==> rest[0] == '='
    ensures
      var tok := dash + name + rest;
      && IsOption(tok)
      && TokenEffect(cfg, tok, next) == Offer(d, tok, if rest == "" then next else Attached(rest[1..])).e
  {
    hide LongIndex, LongDescriptor, Offer, ShortGroup, LongMeans, Known;
    var tok, text := dash + name + rest, name + rest;
    LongIs(cfg, text, d);
    KnownIs(cfg, text);
    FindEqAt(name, rest);
    if dash == "--" {
      assert tok[2..] == text;
    } else {
      assert tok[1..] == text && tok[1] == name[0];
    }
    assert rest != "" ==> text[|name| + 1..] == rest[1..];
  }

  lemma OneSeen(d: Descriptor, name: string, arg: Maybe<string>)
    ensures SeeAll([Opt(d, name, arg)]) == [See(Opt(d, name, arg))] && SeeAll([]) == []
  {
  }

  lemma LongEffect(cfg: Config, it: Item, next: OptArg)
    requires (it.Long? || it.LongValue? || it.LongNext?) && Good(cfg, it) && !next.Attached?
    requires it.LongNext? ==> next == Detached(it.value)
    ensures IsOption(Render(it)[0]) && ComesTo(TokenEffect(cfg, Render(it)[0], next), |Render(it)| == 2, MeantBy(it))
  {
    hide TokenEffect, LongMeans, Known, NameLen;
    var rest := if it.LongValue? then "=" + it.value else "";
    var d := if it.LongNext? then Just(it.desc) else it.d;
    assert it.dash + it.name + "" == it.dash + it.name && it.name + "" == it.name;
    assert it.LongValue? ==> it.dash + it.name + "=" + it.value == it.dash + it.name + rest && it.name + "=" + it.value == it.name + rest
                             && rest[1..] == it.value;
    LongToken(cfg, it.dash, it.name, rest, d, next);
    LongName(it.dash, it.name, rest);
    if d.Just? {
      OneSeen(d.value, Render(it)[0], Nothing);
      OneSeen(d.value, Render(it)[0], next.ToMaybe());
      if it.LongValue? { OneSeen(d.value, Render(it)[0], Just(it.value)); }
    }
  }

  /** The flags in front of a group's last option. */
  lemma {:induction false} FlagsEffect(cfg: Config, tok: string, p: nat, flags: seq<Flag>, next: OptArg)
    requires GoodFlags(cfg, flags) && p + |flags| < |tok| && tok[p..p + |flags|] == Chars(flags)
    ensures
      var r, e := ShortGroup(cfg, tok, p + |flags|, next), ShortGroup(cfg, tok, p, next);
      e.took == r.took && e.illegal == r.illegal && SeeAll(e.performed) == ForFlags(flags) + SeeAll(r.performed)
    decreases |flags|
  {
    hide ShortMeans, ShortDescriptor, ShortGroup, Offer, ShortArg, SeeAll, NeverTakes;
    if flags != [] {
      var f := flags[0];
      assert f in flags && tok[p] == Chars(flags)[0] == f.c;
      ShortIs(cfg.usage, f.c, f.d);
      forall g | g in flags[1..] ensures g in flags {
      }
      assert tok[p + 1..p + 1 + |flags[1..]|] == Chars(flags[1..]) by {
        assert tok[p + 1..p + |flags|] == tok[p..p + |flags|][1..] == Chars(flags)[1..];
      }
      FlagsEffect(cfg, tok, p + 1, flags[1..], next);
      FlagOffered(f, tok[p..], ShortArg(tok, p, next));
      GroupGoesOn(cfg, tok, p, next);
      SeeConcat(Offer(f.d, tok[p..], ShortArg(tok, p, next)).e.performed, ShortGroup(cfg, tok, p + 1, next).performed);
    } else {
      assert [] + SeeAll(ShortGroup(cfg, tok, p, next).performed) == SeeAll(ShortGroup(cfg, tok, p, next).performed);
    }
  }

  lemma GroupGoesOn(cfg: Config, tok: string, p: nat, next: OptArg)
    requires p < |tok| && !Offer(ShortDescriptor(cfg.usage, tok[p]), tok[p..], ShortArg(tok, p, next)).stop
    ensures
      var o := Offer(ShortDescriptor(cfg.usage, tok[p]), tok[p..], ShortArg(tok, p, next));
      var r := ShortGroup(cfg, tok, p + 1, next);
      ShortGroup(cfg, tok, p, next) == r.(performed := o.e.performed + r.performed)
  {
    hide ShortDescriptor, Offer, ShortArg;
  }

  lemma FlagOffered(f: Flag, name: string, arg: OptArg)
    requires f.c != '-' && NeverTakes(f.d) && name != "" && name[0] == f.c
    ensures
      var o := Offer(f.d, name, arg);
      && !o.stop && !o.e.took && !o.e.illegal
      && SeeAll(o.e.performed) == if f.d.Just? then [Meant(f.d.value, [f.c], Nothing)] else []
  {
    hide NameLen;
    assert name == [f.c] + name[1..];
    ShortName(f.c, name[1..]);
    if f.d.Just? { OneSeen(f.d.value, name, Nothing); }
  }

  /** The last option of a group, at position p. */
  lemma LastEffect(cfg: Config, tok: string, p: nat, c: char, d: Maybe<Descriptor>, rest: string, next: OptArg)
    requires p < |tok| && tok[p..] == [c] + rest && c != '-' && ShortMeans(cfg.usage, c, d)
    requires
      var arg := if rest == "" then next.ToMaybe() else Just(rest);
      if d.Just? && d.value.check([c] + rest, arg) == ArgOk then true else rest == "" && (d.Just? ==> Declines(d.value.check([c], arg)))
    ensures
      var arg := if rest == "" then next.ToMaybe() else Just(rest);
      var ok := d.Just? && d.value.check([c] + rest, arg) == ArgOk;
      ComesTo(ShortGroup(cfg, tok, p, next), ok && rest == "" && next.Detached?,
              if d.Nothing? then [] else [Meant(d.value, [c], if ok then arg else Nothing)])
  {
    hide ShortMeans, ShortDescriptor, NameLen;
    ShortIs(cfg.usage, c, d);
    assert tok[p] == tok[p..][0] == c;
    assert tok[p..][1..] == rest && tok[p + 1..] == tok[p..][1..];
    assert [c] + "" == [c];
    ShortName(c, rest);
    if d.Just? {
      OneSeen(d.value, [c] + rest, Nothing);
      OneSeen(d.value, [c] + rest, if rest == "" then next.ToMaybe() else Just(rest));
    }
    assert rest == "" ==> ShortGroup(cfg, tok, p + 1, next) == Effect([], false, false);
  }

  lemma GroupToken(cfg: Config, flags: seq<Flag>, c: char, rest: string, d: Maybe<Descriptor>, next: OptArg)
    requires GoodGroup(cfg, flags, c, Chars(flags) + [c] + rest, d)
    ensures
      var tok := "-" + Chars(flags) + [c] + rest;
      && IsOption(tok) && TokenEffect(cfg, tok, next) == ShortGroup(cfg, tok, 1, next)
      && tok[1..1 + |flags|] == Chars(flags) && tok[1 + |flags|..] == [c] + rest
  {
    hide LongIndex, Offer, ShortGroup, LongDescriptor, ShortMeans, Known;
    var text := Chars(flags) + [c] + rest;
    var tok := "-" + Chars(flags) + [c] + rest;
    assert tok == "-" + text && tok[1..] == text;
    assert tok[1] != '-' by {
      if flags != [] { assert flags[0] in flags && tok[1] == flags[0].c; }
    }
    KnownIs(cfg, text);
  }

  lemma ShortEffect(cfg: Config, it: Item, next: OptArg)
    requires (it.Shorts? || it.ShortValue? || it.ShortNext?) && Good(cfg, it) && !next.Attached?
    requires it.ShortNext? ==> next == Detached(it.value)
    ensures IsOption(Render(it)[0]) && ComesTo(TokenEffect(cfg, Render(it)[0], next), |Render(it)| == 2, MeantBy(it))
  {
    hide TokenEffect, ShortGroup, ShortMeans, Known, NameLen, SeeAll, ForFlags;
    var c := if it.Shorts? then it.last.c else it.c;
    var d := if it.Shorts? then it.last.d else Just(it.desc);
    var rest := if it.ShortValue? then it.value else "";
    var tok := "-" + Chars(it.flags) + [c] + rest;
    assert Chars(it.flags) + [c] + "" == Chars(it.flags) + [c];
    assert tok == Render(it)[0];
    GroupToken(cfg, it.flags, c, rest, d, next);
    LastEffect(cfg, tok, 1 + |it.flags|, c, d, rest, next);
    FlagsEffect(cfg, tok, 1, it.flags, next);
    if it.Shorts? { OneFlag(it.last); }
  }

  lemma OneFlag(f: Flag)
    ensures ForFlags([f]) == if f.d.Just? then [Meant(f.d.value, [f.c], Nothing)] else []
  {
    assert [f][1..] == [];
  }

  // ---------- whole lines ----------

  /** What may stand behind the items: nothing, the terminator and anything, or, for a POSIX pass, a
      non-option and anything. */
  predicate GoodTail(gnu: bool, tail: seq<string>) {
    tail == [] || tail[0] == "--" || (!gnu && Argument(tail[0]))
  }

  function TailArgs(tail: seq<string>): seq<string> {
    if tail != [] && tail[0] == "--" then tail[1..] else tail
  }

  ghost predicate GoodItems(cfg: Config, gnu: bool, items: seq<Item>) {
    forall it :: it in items ==> Good(cfg, it) && (gnu || !it.Plain?)
  }

  /** The options of the items are performed, each with its own argument, and the other arguments are
      left, all in order. */
  lemma {:induction false} LineParsed(cfg: Config, gnu: bool, items: seq<Item>, tail: seq<string>)
    requires GoodItems(cfg, gnu, items) && GoodTail(gnu, tail)
    ensures
      var line := Line(items) + tail;
      var s := ScanArgs(cfg, gnu, line);
      && !s.illegal && SeeAll(s.performed) == AllMeant(items)
      && Left(cfg, gnu, line) == Plains(items) + TailArgs(tail)
    decreases |items|
  {
    hide ScanArgs, TokenEffect, Good, Left, SeeAll, MeantBy, Render;
    var line := Line(items) + tail;
    if items == [] {
      assert line == tail;
      TailParsed(cfg, gnu, tail);
      assert Plains([]) + TailArgs(tail) == TailArgs(tail);
    } else {
      var it, rest := items[0], Line(items[1..]) + tail;
      assert it in items;
      forall i | i in items[1..] ensures i in items {
      }
      assert line == Render(it) + rest;
      LineParsed(cfg, gnu, items[1..], tail);
      ItemParsed(cfg, gnu, it, rest);
      assert Plains(items) + TailArgs(tail) == (if it.Plain? then [it.text] else []) + (Plains(items[1..]) + TailArgs(tail));
    }
  }

  lemma TailParsed(cfg: Config, gnu: bool, tail: seq<string>)
    requires GoodTail(gnu, tail)
    ensures
      var s := ScanArgs(cfg, gnu, tail);
      !s.illegal && SeeAll(s.performed) == [] && Left(cfg, gnu, tail) == TailArgs(tail)
  {
    if tail != [] && tail[0] == "--" {
      Terminator(cfg, gnu, gnu, tail, []);
    } else {
      KeepSame(tail, false);
    }
  }

  /** One item in front of a line. */
  lemma ItemParsed(cfg: Config, gnu: bool, it: Item, rest: seq<string>)
    requires Good(cfg, it) && (gnu || !it.Plain?)
    ensures
      var s, r := ScanArgs(cfg, gnu, Render(it) + rest), ScanArgs(cfg, gnu, rest);
      && s.illegal == r.illegal && SeeAll(s.performed) == MeantBy(it) + SeeAll(r.performed)
      && Left(cfg, gnu, Render(it) + rest) == (if it.Plain? then [it.text] else []) + Left(cfg, gnu, rest)
  {
    hide ScanArgs, TokenEffect, Left, Consumed, SeeAll;
    var toks := Render(it) + rest;
    if it.Plain? {
      assert toks[1..] == rest;
      Skipped(cfg, gnu, toks);
      assert [] + SeeAll(ScanArgs(cfg, gnu, rest).performed) == SeeAll(ScanArgs(cfg, gnu, rest).performed);
    } else {
      OptionParsed(cfg, gnu, it, rest);
      assert [] + Left(cfg, gnu, rest) == Left(cfg, gnu, rest);
    }
  }

  lemma OptionParsed(cfg: Config, gnu: bool, it: Item, rest: seq<string>)
    requires Good(cfg, it) && !it.Plain?
    ensures
      var s, r := ScanArgs(cfg, gnu, Render(it) + rest), ScanArgs(cfg, gnu, rest);
      && s.illegal == r.illegal && SeeAll(s.performed) == MeantBy(it) + SeeAll(r.performed)
      && Left(cfg, gnu, Render(it) + rest) == Left(cfg, gnu, rest)
  {
    hide ScanArgs, TokenEffect, Left, Consumed, SeeAll, MeantBy, ShortMeans, LongMeans, Known, NameLen;
    var head := Render(it);
    var next := Next(head + rest);
    assert |head| == 2 ==> (head + rest)[1] == head[1];
    NotTerminator(cfg, it);
    if it.Long? || it.LongValue? || it.LongNext? { LongEffect(cfg, it, next); } else { ShortEffect(cfg, it, next); }
    var e := TokenEffect(cfg, head[0], next);
    HeadThenRest(cfg, gnu, head, rest, e);
    HeadConsumed(cfg, gnu, head, rest, e);
    SeeConcat(e.performed, ScanArgs(cfg, gnu, rest).performed);
  }

  lemma NotTerminator(cfg: Config, it: Item)
    requires Good(cfg, it) && !it.Plain?
    ensures Render(it)[0] != "--"
  {
    hide LongMeans, ShortMeans, Known;
    var t := Render(it)[0];
    if it.Long? || it.LongValue? || it.LongNext? {
      if it.dash == "-" { assert t[1] == it.name[0]; } else { assert |t| > 2; }
    } else {
      assert t[1] == (if it.flags != [] then it.flags[0].c else if it.Shorts? then it.last.c else it.c);
      if it.flags != [] { assert it.flags[0] in it.flags; }
    }
  }

  // ---------- the bundled checkers ----------

  /** What the bundled checkers make of the ways to write an option: None takes nothing; Required takes any
      argument, NonEmpty any but the empty one; Optional takes an attached one and nothing else. */
  lemma CheckersTake(dash: string, name: string, value: string, c: char)
    requires (dash == "-" || dash == "--") && '=' !in name && c != '-'
    ensures forall n, a :: Declines(CheckNone(n, a))
    ensures forall n :: CheckRequired(n, Just(value)) == ArgOk && CheckRequired(n, Nothing) == ArgIllegal
    ensures forall n :: CheckNonEmpty(n, Just(value)) == (if value != "" then ArgOk else ArgIllegal)
    ensures forall n :: CheckNonEmpty(n, Nothing) == ArgIllegal
    ensures CheckOptional(dash + name + "=" + value, Just(value)) == ArgOk
    ensures forall a :: Declines(CheckOptional(dash + name, a)) && Declines(CheckOptional([c], a))
    ensures value != "" ==> CheckOptional([c] + value, Just(value)) == ArgOk
  {
    LongName(dash, name, "=" + value);
    LongName(dash, name, "");
    assert dash + name + ("=" + value) == dash + name + "=" + value && dash + name + "" == dash + name;
    ShortName(c, value);
    ShortName(c, "");
    assert [c] + "" == [c];
  }

  /** An example: `--file=x` with a descriptor for `file` that requires an argument. */
  lemma FileExample()
    ensures
      var d := Descriptor(0, 0, "f", "file", CheckRequired);
      var it := LongValue("--", "file", "x", Just(d));
      && Good(Config([d], false, 0), it) && Render(it) == ["--file=x"]
      && MeantBy(it) == [Meant(d, "--file", Just("x"))]
  {
    hide FindEq;
    var d := Descriptor(0, 0, "f", "file", CheckRequired);
    assert "file" + "=" + "x" == "file=x" && "--" + "file" == "--file" && "--file" + "=" + "x" == "--file=x";
    assert Exact(d, "file=x");
    assert Finds(Config([d], false, 0), "file=x", 0);
  }
}
