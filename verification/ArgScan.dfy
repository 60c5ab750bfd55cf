/** What Parser::workhorse (src/C++/optionparser.h) does with a command line, said without
    moving anything: which tokens are consumed, which options are performed, and whether an
    argument was illegal. */
module ArgScan {
  import opened Arguments

  /** The outcome of one option token: the options it performs, whether it uses up the next
      token, and whether a checker rejected its argument. */
  datatype Effect = Effect(performed: seq<Opt>, took: bool, illegal: bool)

  predicate IsOption(tok: string) { |tok| >= 2 && tok[0] == '-' }

  /** One option with its potential argument, put before its checker. `stop` says that no
      further short option may follow in the same token. */
  datatype Offered = Offered(e: Effect, stop: bool)

  function Offer(desc: Maybe<Descriptor>, name: string, arg: OptArg): (o: Offered)
    ensures o.e.took ==> arg.Detached? && !o.e.illegal
  {
    match desc
    case Nothing => Offered(Effect([], false, false), false)
    case Just(d) =>
      match d.check(name, arg.ToMaybe())
      case ArgIllegal => Offered(Effect([], false, true), true)
      case ArgOk => Offered(Effect([Opt(d, name, arg.ToMaybe())], arg.Detached?, false), true)
      case _ => Offered(Effect([Opt(d, name, Nothing)], false, false), false)
  }

  function LongArg(name: string, next: OptArg): (arg: OptArg)
    ensures arg.Detached? ==> arg == next
  {
    var k := FindEq(name);
    if k < |name| then Attached(name[k + 1..]) else next
  }

  function ShortArg(tok: string, p: nat, next: OptArg): OptArg
    requires p < |tok|
  {
    if p + 1 == |tok| then next else Attached(tok[p + 1..])
  }

  /** The short options of tok from position p on. */
  function ShortGroup(cfg: Config, tok: string, p: nat, next: OptArg): (e: Effect)
    requires p <= |tok|
    ensures e.took ==> next.Detached? && !e.illegal
    decreases |tok| - p
  {
    if p == |tok| then Effect([], false, false)
    else
      var o := Offer(ShortDescriptor(cfg.usage, tok[p]), tok[p..], ShortArg(tok, p, next));
      if o.stop then o.e
      else
        var r := ShortGroup(cfg, tok, p + 1, next);
        r.(performed := o.e.performed + r.performed)
  }

  predicate SingleMinusLong(cfg: Config, tok: string)
    requires IsOption(tok)
  {
    cfg.singleMinus && LongIndex(cfg.usage, tok[1..], cfg.minAbbr) < |cfg.usage|
  }

  function TokenEffect(cfg: Config, tok: string, next: OptArg): (e: Effect)
    requires IsOption(tok)
    ensures e.took ==> next.Detached? && !e.illegal
  {
    if tok[1] == '-' then Offer(LongDescriptor(cfg, tok[2..]), tok, LongArg(tok[2..], next)).e
    else if SingleMinusLong(cfg, tok) then
      Offer(LongDescriptor(cfg, tok[1..]), tok, LongArg(tok[1..], next)).e
    else ShortGroup(cfg, tok, 1, next)
  }

  /** The token after the first one, as a potential argument. */
  function Next(toks: seq<string>): OptArg {
    if |toks| >= 2 then Detached(toks[1]) else NoArg
  }

  /** marks[i] says that token i is consumed (an option, its detached argument, or the first
      "--"); atEnd that it looked at all of them. */
  datatype Scan = Scan(marks: seq<bool>, performed: seq<Opt>, illegal: bool, atEnd: bool) {
    function After(consumed: seq<bool>, done: seq<Opt>): Scan {
      Scan(consumed + marks, done + performed, illegal, atEnd)
    }
  }

  function Same(b: bool, n: nat): (s: seq<bool>)
    ensures |s| == n && forall i :: 0 <= i < n ==> s[i] == b
  {
    seq(n, _ => b)
  }

  function ScanArgs(cfg: Config, gnu: bool, toks: seq<string>): (r: Scan)
    ensures |r.marks| == |toks|
    ensures r.illegal ==> !r.atEnd
  {
    if toks == [] then Scan([], [], false, true)
    else if !IsOption(toks[0]) then
      if gnu then ScanArgs(cfg, gnu, toks[1..]).After([false], [])
      else Scan(Same(false, |toks|), [], false, false)
    else if toks[0] == "--" then Scan([true] + Same(false, |toks| - 1), [], false, |toks| == 1)
    else
      var e := TokenEffect(cfg, toks[0], Next(toks));
      if e.illegal then Scan(Same(false, |toks|), e.performed, true, false)
      else if e.took then
        ScanArgs(cfg, gnu, toks[2..]).After([true, true], e.performed)
      else ScanArgs(cfg, gnu, toks[1..]).After([true], e.performed)
  }

  /** The elements of s whose mark is b, in order. */
  function Keep<T>(s: seq<T>, marks: seq<bool>, b: bool): (r: seq<T>)
    requires |s| == |marks|
    ensures |r| <= |s|
  {
    if s == [] then []
    else (if marks[0] == b then [s[0]] else []) + Keep(s[1..], marks[1..], b)
  }

  /** Stable partition: the marked elements in order, then the others in order. */
  function Partition<T>(s: seq<T>, marks: seq<bool>): seq<T>
    requires |s| == |marks|
  {
    Keep(s, marks, true) + Keep(s, marks, false)
  }

  lemma {:induction false} KeepSplit<T>(s1: seq<T>, m1: seq<bool>, s2: seq<T>, m2: seq<bool>, b: bool)
    requires |s1| == |m1| && |s2| == |m2|
    ensures Keep(s1 + s2, m1 + m2, b) == Keep(s1, m1, b) + Keep(s2, m2, b)
  {
    if s1 == [] {
      assert s1 + s2 == s2 && m1 + m2 == m2;
    } else {
      var s, m := s1 + s2, m1 + m2;
      KeepSplit(s1[1..], m1[1..], s2, m2, b);
      assert s[0] == s1[0] && m[0] == m1[0] && s[1..] == s1[1..] + s2 && m[1..] == m1[1..] + m2;
      var head := if m1[0] == b then [s1[0]] else [];
      assert Keep(s, m, b) == head + Keep(s[1..], m[1..], b);
      assert Keep(s1, m1, b) == head + Keep(s1[1..], m1[1..], b);
    }
  }

  lemma {:induction false} KeepSame<T>(s: seq<T>, b: bool)
    ensures Keep(s, Same(b, |s|), b) == s && Keep(s, Same(b, |s|), !b) == []
  {
    if s != [] {
      KeepSame(s[1..], b);
      assert Same(b, |s|)[1..] == Same(b, |s| - 1);
    }
  }

  /** A partition only reorders. */
  lemma {:induction false} PartitionPermutes<T>(s: seq<T>, marks: seq<bool>)
    requires |s| == |marks|
    ensures multiset(Partition(s, marks)) == multiset(s)
    ensures |Partition(s, marks)| == |s|
  {
    if s != [] {
      var k, l := Keep(s[1..], marks[1..], true), Keep(s[1..], marks[1..], false);
      PartitionPermutes(s[1..], marks[1..]);
      Insertion(s[0], s[1..], k, l);
      assert s == [s[0]] + s[1..];
      assert marks[0] ==> Partition(s, marks) == [s[0]] + k + l;
      assert !marks[0] ==> Partition(s, marks) == k + [s[0]] + l;
    }
  }

  lemma Insertion<T>(x: T, s: seq<T>, k: seq<T>, l: seq<T>)
    requires multiset(k + l) == multiset(s) && |k + l| == |s|
    ensures multiset([x] + k + l) == multiset(k + [x] + l) == multiset([x] + s)
  {
  }

  // ---------- the effect of a token whose next token changes ----------

  lemma OfferStable(desc: Maybe<Descriptor>, name: string, a: OptArg, b: OptArg)
    requires desc.Just? ==> Stable(desc.value.check)
    requires !a.Attached? && !b.Attached? && MayDetach(name)
    requires !Offer(desc, name, a).e.illegal && !Offer(desc, name, a).e.took
    ensures Offer(desc, name, b) == Offer(desc, name, a)
  {
  }

  lemma ShortDescriptorStable(usage: seq<Descriptor>, c: char)
    requires StableUsage(usage)
    ensures ShortDescriptor(usage, c).Just? ==> Stable(ShortDescriptor(usage, c).value.check)
  {
  }

  lemma {:induction false} ShortGroupStable(cfg: Config, tok: string, p: nat, a: OptArg, b: OptArg)
    requires StableUsage(cfg.usage) && p <= |tok|
    requires !a.Attached? && !b.Attached?
    requires !ShortGroup(cfg, tok, p, a).illegal && !ShortGroup(cfg, tok, p, a).took
    ensures ShortGroup(cfg, tok, p, b) == ShortGroup(cfg, tok, p, a)
    decreases |tok| - p
  {
    if p < |tok| {
      var desc := ShortDescriptor(cfg.usage, tok[p]);
      ShortDescriptorStable(cfg.usage, tok[p]);
      if p + 1 == |tok| {
        OfferStable(desc, tok[p..], a, b);
      }
      if !Offer(desc, tok[p..], ShortArg(tok, p, a)).stop {
        ShortGroupStable(cfg, tok, p + 1, a, b);
      }
    }
  }

  lemma LongDetaches(tok: string, name: string)
    requires IsOption(tok) && FindEq(name) == |name|
    requires name == tok[1..] || (tok[1] == '-' && name == tok[2..])
    ensures MayDetach(tok)
  {
    assert name[..|name|] == name;
    assert tok == [tok[0]] + tok[1..];
    if name != tok[1..] {
      assert tok == [tok[0], tok[1]] + name;
    }
  }

  /** With stable checkers, a token that leaves the next token alone does the same whatever
      that next token is. */
  lemma TokenEffectStable(cfg: Config, tok: string, a: OptArg, b: OptArg)
    requires StableUsage(cfg.usage) && IsOption(tok)
    requires !a.Attached? && !b.Attached?
    requires !TokenEffect(cfg, tok, a).illegal && !TokenEffect(cfg, tok, a).took
    ensures TokenEffect(cfg, tok, b) == TokenEffect(cfg, tok, a)
  {
    if tok[1] == '-' {
      if FindEq(tok[2..]) == |tok[2..]| {
        LongDetaches(tok, tok[2..]);
        OfferStable(LongDescriptor(cfg, tok[2..]), tok, a, b);
      }
    } else if SingleMinusLong(cfg, tok) {
      if FindEq(tok[1..]) == |tok[1..]| {
        LongDetaches(tok, tok[1..]);
        OfferStable(LongDescriptor(cfg, tok[1..]), tok, a, b);
      }
    } else {
      ShortGroupStable(cfg, tok, 1, a, b);
    }
  }
}
