/** Command-line tokens, option descriptors and how a token names a descriptor
    (src/C++/optionparser.h). C strings are modelled as strings without their
    terminating 0; a usage array is modelled without its all-zero last entry, so
    "index |usage|" stands for "the loop stopped at that entry". */
module Arguments {

  datatype Maybe<+T> = Nothing | Just(value: T)

  /** One entry of argv: the NULL that may end the array, or a string. */
  datatype Arg = Null | Text(text: string)

  datatype ArgStatus = ArgNone | ArgOk | ArgIgnore | ArgIllegal

  /** A checker sees the option's name pointer (the text from there to the end of
      the token) and its potential argument. */
  type CheckArg = (string, Maybe<string>) -> ArgStatus

  datatype Descriptor = Descriptor(index: nat, typ: int, shortopt: string, longopt: string, check: CheckArg)

  /** A performed option: what Action::perform receives. */
  datatype Opt = Opt(desc: Descriptor, name: string, arg: Maybe<string>)

  /** The potential argument of an option: none, the rest of its own token, or the next token. */
  datatype OptArg = NoArg | Attached(s: string) | Detached(s: string) {
    function ToMaybe(): Maybe<string> {
      if NoArg? then Nothing else Just(s)
    }
  }

  datatype Config = Config(usage: seq<Descriptor>, singleMinus: bool, minAbbr: int)

  // ---------- strings ----------

  /** Position of the first '=' of s, or |s|. */
  function FindEq(s: string): (k: nat)
    ensures k <= |s| && '=' !in s[..k] && (k < |s| ==> s[k] == '=')
  {
    if s == "" || s[0] == '=' then 0
    else
      var k := 1 + FindEq(s[1..]);
      assert s[..k] == [s[0]] + s[1..][..k - 1];
      k
  }

  /** Option::namelen as Option::init computes it. */
  function NameLen(name: string): nat {
    if name != "" && name[0] == '-' then 1 + FindEq(name[1..]) else 1
  }

  /** What streq promises: st1 is st2, or st2 is st1 followed by "=...". */
  predicate StrEq(st1: string, st2: string) {
    st1 <= st2 && (|st2| == |st1| || st2[|st1|] == '=')
  }

  function CommonPrefix(a: string, b: string): (k: nat)
    ensures k <= |a| && k <= |b| && a[..k] == b[..k]
    ensures k < |a| && k < |b| ==> a[k] != b[k]
  {
    if a == "" || b == "" || a[0] != b[0] then 0
    else
      var k := 1 + CommonPrefix(a[1..], b[1..]);
      assert a[..k] == [a[0]] + a[1..][..k - 1] && b[..k] == [b[0]] + b[1..][..k - 1];
      k
  }

  /** What streqabbr promises: st2, up to '=' or its end, is a prefix of st1 that is
      either all of st1 or at least min characters long. */
  predicate StrEqAbbr(st1: string, st2: string, min: int) {
    var k := CommonPrefix(st1, st2);
    (k == |st1| || (min > 0 && k >= min)) && (k == |st2| || st2[k] == '=')
  }

  method StreqLoop(st1: string, st2: string) returns (r: bool)
    ensures r == StrEq(st1, st2)
  {
    var i := 0;
    while i < |st1|
      invariant i <= |st1| && i <= |st2| && st1[..i] == st2[..i]
    {
      if i == |st2| || st1[i] != st2[i] { return false; }
      i := i + 1;
    }
    return i == |st2| || st2[i] == '=';
  }

  method StreqabbrLoop(st1: string, st2: string, min: int) returns (r: bool)
    ensures r == StrEqAbbr(st1, st2, min)
  {
    var i := 0;
    while i < |st1| && i < |st2| && st1[i] == st2[i]
      invariant i <= |st1| && i <= |st2| && st1[..i] == st2[..i]
    {
      i := i + 1;
    }
    CommonPrefixUnique(st1, st2, i);
    return (i == |st1| || (min > 0 && i >= min)) && (i == |st2| || st2[i] == '=');
  }

  lemma {:induction false} CommonPrefixUnique(a: string, b: string, i: nat)
    requires i <= |a| && i <= |b| && a[..i] == b[..i]
    requires i < |a| && i < |b| ==> a[i] != b[i]
    ensures CommonPrefix(a, b) == i
  {
  }

  // ---------- finding the descriptor of an option ----------

  /** Index of the first entry at or after `from` that satisfies p, or |usage|. */
  function First(usage: seq<Descriptor>, from: nat, p: Descriptor -> bool): (i: nat)
    requires from <= |usage|
    ensures from <= i <= |usage|
    ensures i < |usage| ==> p(usage[i])
    ensures forall j :: from <= j < i ==> !p(usage[j])
    decreases |usage| - from
  {
    if from == |usage| || p(usage[from]) then from else First(usage, from + 1, p)
  }

  predicate Exact(d: Descriptor, name: string) { StrEq(d.longopt, name) }

  predicate Abbr(d: Descriptor, name: string, min: int) { StrEqAbbr(d.longopt, name, min) }

  /** A long option name stands for the first exact match; failing that, with
      abbreviations enabled, for the only entry it abbreviates. */
  function LongIndex(usage: seq<Descriptor>, name: string, minAbbr: int): (i: nat)
    ensures i <= |usage|
  {
    var i := First(usage, 0, d => Exact(d, name));
    if i < |usage| || minAbbr <= 0 then i
    else
      var i1 := First(usage, 0, d => Abbr(d, name, minAbbr));
      if i1 == |usage| then |usage|
      else if First(usage, i1 + 1, d => Abbr(d, name, minAbbr)) == |usage| then i1 else |usage|
  }

  /** The abbreviation rule said without loops: an abbreviated name is accepted exactly
      when one entry, and no other, answers to it. */
  lemma LongIndexMeaning(usage: seq<Descriptor>, name: string, minAbbr: int, i: nat)
    requires i < |usage|
    ensures LongIndex(usage, name, minAbbr) == i <==>
      if exists j :: 0 <= j < |usage| && Exact(usage[j], name) then
        Exact(usage[i], name) && forall j :: 0 <= j < i ==> !Exact(usage[j], name)
      else
        minAbbr > 0 && Abbr(usage[i], name, minAbbr) &&
        forall j :: 0 <= j < |usage| && j != i ==> !Abbr(usage[j], name, minAbbr)
  {
  }

  /** The first dummy entry, used for unknown options. */
  function UnknownDescriptor(usage: seq<Descriptor>): Maybe<Descriptor> {
    var i := First(usage, 0, (d: Descriptor) => d.shortopt == "" && d.longopt == "");
    if i < |usage| then Just(usage[i]) else Nothing
  }

  function ShortDescriptor(usage: seq<Descriptor>, c: char): Maybe<Descriptor> {
    var i := First(usage, 0, (d: Descriptor) => c in d.shortopt);
    if i < |usage| then Just(usage[i]) else UnknownDescriptor(usage)
  }

  function LongDescriptor(cfg: Config, name: string): Maybe<Descriptor> {
    var i := LongIndex(cfg.usage, name, cfg.minAbbr);
    if i < |cfg.usage| then Just(cfg.usage[i]) else UnknownDescriptor(cfg.usage)
  }

  /** The three search loops of the parser. */
  method FindLong(usage: seq<Descriptor>, name: string, minAbbr: int) returns (idx: nat)
    ensures idx == LongIndex(usage, name, minAbbr)
  {
    idx := 0;
    while idx < |usage|
      invariant idx <= |usage| && forall j :: 0 <= j < idx ==> !Exact(usage[j], name)
    {
      var hit := StreqLoop(usage[idx].longopt, name);
      if hit { return; }
      idx := idx + 1;
    }
    if minAbbr > 0 {
      var i1 := FindAbbr(usage, 0, name, minAbbr);
      if i1 < |usage| {
        var i2 := FindAbbr(usage, i1 + 1, name, minAbbr);
        if i2 == |usage| { idx := i1; }
      }
    }
  }

  method FindAbbr(usage: seq<Descriptor>, from: nat, name: string, minAbbr: int) returns (i: nat)
    requires from <= |usage|
    ensures i == First(usage, from, d => Abbr(d, name, minAbbr))
  {
    i := from;
    while i < |usage|
      invariant from <= i <= |usage|
      invariant forall j :: from <= j < i ==> !Abbr(usage[j], name, minAbbr)
    {
      var hit := StreqabbrLoop(usage[i].longopt, name, minAbbr);
      if hit { break; }
      i := i + 1;
    }
    assert i < |usage| ==> Abbr(usage[i], name, minAbbr);
  }

  method FindShort(usage: seq<Descriptor>, c: char) returns (d: Maybe<Descriptor>)
    ensures d == ShortDescriptor(usage, c)
  {
    var idx := 0;
    while idx < |usage| && c !in usage[idx].shortopt
      invariant idx <= |usage| && forall j :: 0 <= j < idx ==> c !in usage[j].shortopt
    {
      idx := idx + 1;
    }
    if idx < |usage| { d := Just(usage[idx]); } else { d := FindUnknown(usage); }
  }

  method FindUnknown(usage: seq<Descriptor>) returns (d: Maybe<Descriptor>)
    ensures d == UnknownDescriptor(usage)
  {
    var idx := 0;
    while idx < |usage| && (usage[idx].shortopt != "" || usage[idx].longopt != "")
      invariant idx <= |usage|
      invariant forall j :: 0 <= j < idx ==> usage[j].shortopt != "" || usage[j].longopt != ""
    {
      idx := idx + 1;
    }
    d := if idx < |usage| then Just(usage[idx]) else Nothing;
  }

  // ---------- the bundled checkers ----------

  function CheckNone(name: string, arg: Maybe<string>): ArgStatus { ArgNone }

  function CheckOptional(name: string, arg: Maybe<string>): ArgStatus {
    if arg.Just? && NameLen(name) < |name| then ArgOk else ArgIgnore
  }

  function CheckNonEmpty(name: string, arg: Maybe<string>): ArgStatus {
    if arg.Just? && arg.value != "" then ArgOk else ArgIllegal
  }

  function CheckRequired(name: string, arg: Maybe<string>): ArgStatus {
    if arg.Just? then ArgOk else ArgIllegal
  }

  predicate Declines(s: ArgStatus) { s == ArgNone || s == ArgIgnore }

  /** A name after which the potential argument is the next token: the last character of a
      short group, or a long option without '='. */
  predicate MayDetach(name: string) {
    |name| == 1 || (name != "" && name[0] == '-' && '=' !in name)
  }

  /** A checker is stable when declining the next token does not depend on which token that
      is, and when it never accepts a missing argument. */
  ghost predicate Stable(check: CheckArg) {
    forall name: string | MayDetach(name) ::
      && check(name, Nothing) != ArgOk
      && forall a, b :: Declines(check(name, a)) ==> Declines(check(name, b))
  }

  ghost predicate StableUsage(usage: seq<Descriptor>) {
    forall d :: d in usage ==> Stable(d.check)
  }

  /** None, Optional, Required and NonEmpty are stable. */
  lemma BundledCheckersStable()
    ensures Stable(CheckNone) && Stable(CheckOptional) && Stable(CheckRequired) && Stable(CheckNonEmpty)
  {
  }
}
