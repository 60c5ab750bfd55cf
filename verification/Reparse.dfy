/** Parsing a command line a second time, after a first pass has reordered it. */
module Reparse {
  import opened Arguments
  import opened ArgScan

  ghost predicate NonOptions(toks: seq<string>) {
    forall t :: t in toks ==> !IsOption(t)
  }

  function Consumed(cfg: Config, gnu: bool, toks: seq<string>): seq<string> {
    Keep(toks, ScanArgs(cfg, gnu, toks).marks, true)
  }

  function Left(cfg: Config, gnu: bool, toks: seq<string>): seq<string> {
    Keep(toks, ScanArgs(cfg, gnu, toks).marks, false)
  }

  /** The command line as a pass leaves it. */
  function Reordered(cfg: Config, gnu: bool, toks: seq<string>): seq<string> {
    Partition(toks, ScanArgs(cfg, gnu, toks).marks)
  }

  function Marks(c: nat, l: nat): seq<bool> { Same(true, c) + Same(false, l) }

  /** The options that the rejected token performs before it is rejected, if there is one. */
  function Rejected(cfg: Config, gnu: bool, toks: seq<string>): seq<Opt> {
    if toks == [] || toks[0] == "--" || (!IsOption(toks[0]) && !gnu) then []
    else if !IsOption(toks[0]) then Rejected(cfg, gnu, toks[1..])
    else
      var e := TokenEffect(cfg, toks[0], Next(toks));
      if e.illegal then e.performed else Rejected(cfg, gnu, toks[if e.took then 2 else 1..])
  }

  /** A second scan does not get as far as the token that the first one, s, rejected: it is a POSIX
      one, and of the tokens that were not consumed a non-option comes first. */
  predicate FallsShort(s: Scan, again: bool, left: seq<string>) {
    s.illegal && !again && left != [] && !IsOption(left[0])
  }

  /** s2, the scan of a line with c consumed tokens in front of l others, repeats s, except that it
      may fall short of the rejected token. A POSIX scan has looked at all tokens exactly if it
      consumed them all. */
  ghost predicate Repeats(s: Scan, s2: Scan, again: bool, c: nat, l: nat, short: bool, rejected: seq<Opt>) {
    && s2.marks == Marks(c, l)
    && s.performed == s2.performed + (if short then rejected else [])
    && (s2.illegal <==> s.illegal && !short)
    && (!again && !s2.illegal ==> (s2.atEnd <==> l == 0))
  }

  lemma {:induction false} SkipNonOptions(cfg: Config, gnu: bool, pre: seq<string>, rest: seq<string>)
    requires NonOptions(pre)
    ensures gnu ==> ScanArgs(cfg, gnu, pre + rest) == ScanArgs(cfg, gnu, rest).After(Same(false, |pre|), [])
    ensures !gnu && pre != [] ==>
      ScanArgs(cfg, gnu, pre + rest) == Scan(Same(false, |pre| + |rest|), [], false, false)
  {
    var s := ScanArgs(cfg, gnu, rest);
    if pre == [] {
      assert pre + rest == rest;
      assert Same(false, 0) + s.marks == s.marks && [] + s.performed == s.performed;
    } else {
      assert (pre + rest)[1..] == pre[1..] + rest;
      assert !IsOption(pre[0]);
      if gnu {
        SkipNonOptions(cfg, gnu, pre[1..], rest);
        assert [false] + (Same(false, |pre| - 1) + s.marks) == Same(false, |pre|) + s.marks;
      }
    }
  }

  lemma ConsumedCons(t: string, rest: seq<string>, m: seq<bool>, marks: seq<bool>, b: bool)
    requires |rest| == |marks| && |m| == 1
    ensures Keep([t] + rest, m + marks, b) == (if m[0] == b then [t] else []) + Keep(rest, marks, b)
  {
  }

  /** The heart of the matter, for a first pass that has already moved the non-options
      `pre` in front of what it has not looked at yet. */
  lemma {:induction false} Rescan(cfg: Config, gnu: bool, again: bool, toks: seq<string>, pre: seq<string>)
    requires StableUsage(cfg.usage) && NonOptions(pre)
    requires gnu || (!again && pre == [])
    ensures
      var s := ScanArgs(cfg, gnu, toks);
      var l := pre + Left(cfg, gnu, toks);
      var s2 := ScanArgs(cfg, again, Consumed(cfg, gnu, toks) + l);
      Repeats(s, s2, again, |Consumed(cfg, gnu, toks)|, |l|, FallsShort(s, again, l), Rejected(cfg, gnu, toks))
    decreases |toks|
  {
    hide ScanArgs, TokenEffect;
    if toks != [] && IsOption(toks[0]) && toks[0] == "--" {
      Terminator(cfg, gnu, again, toks, pre);
    } else if toks != [] && !IsOption(toks[0]) && gnu {
      Rescan(cfg, gnu, again, toks[1..], pre + [toks[0]]);
      Skipped(cfg, gnu, toks);
      assert pre + Left(cfg, gnu, toks) == pre + [toks[0]] + Left(cfg, gnu, toks[1..]);
    } else if toks == [] || !IsOption(toks[0]) || TokenEffect(cfg, toks[0], Next(toks)).illegal {
      StopsHere(cfg, gnu, again, toks, pre);
    } else {
      RescanOption(cfg, gnu, again, toks, pre);
    }
  }

  lemma Skipped(cfg: Config, gnu: bool, toks: seq<string>)
    requires gnu && toks != [] && !IsOption(toks[0])
    ensures Consumed(cfg, gnu, toks) == Consumed(cfg, gnu, toks[1..])
    ensures Left(cfg, gnu, toks) == [toks[0]] + Left(cfg, gnu, toks[1..])
    ensures ScanArgs(cfg, gnu, toks).performed == ScanArgs(cfg, gnu, toks[1..]).performed
    ensures ScanArgs(cfg, gnu, toks).illegal == ScanArgs(cfg, gnu, toks[1..]).illegal
    ensures Rejected(cfg, gnu, toks) == Rejected(cfg, gnu, toks[1..])
  {
  }

  lemma StopsHere(cfg: Config, gnu: bool, again: bool, toks: seq<string>, pre: seq<string>)
    requires NonOptions(pre) && (gnu || (!again && pre == []))
    requires toks == [] || (!IsOption(toks[0]) && !gnu) ||
      (IsOption(toks[0]) && toks[0] != "--" && TokenEffect(cfg, toks[0], Next(toks)).illegal)
    ensures Consumed(cfg, gnu, toks) == [] && Left(cfg, gnu, toks) == toks
    ensures
      var s := ScanArgs(cfg, gnu, toks);
      var s2 := ScanArgs(cfg, again, [] + (pre + toks));
      Repeats(s, s2, again, 0, |pre + toks|, FallsShort(s, again, pre + toks), Rejected(cfg, gnu, toks))
  {
    KeepSame(toks, false);
    assert [] + (pre + toks) == pre + toks;
    SkipNonOptions(cfg, again, pre, toks);
    assert Marks(0, |pre| + |toks|) == Same(false, |pre| + |toks|) == Same(false, |pre|) + Same(false, |toks|);
    if pre == [] {
      assert pre + toks == toks;
    }
    var s3 := ScanArgs(cfg, again, toks);
    assert [] + s3.performed == s3.performed;
  }

  lemma Terminator(cfg: Config, gnu: bool, again: bool, toks: seq<string>, pre: seq<string>)
    requires toks != [] && toks[0] == "--"
    ensures Consumed(cfg, gnu, toks) == ["--"] && Left(cfg, gnu, toks) == toks[1..]
    ensures
      var s := ScanArgs(cfg, gnu, toks);
      var s2 := ScanArgs(cfg, again, ["--"] + (pre + toks[1..]));
      !s.illegal && Repeats(s, s2, again, 1, |pre + toks[1..]|, false, [])
  {
    var n := |toks| - 1;
    ConsumedCons(toks[0], toks[1..], [true], Same(false, n), true);
    ConsumedCons(toks[0], toks[1..], [true], Same(false, n), false);
    KeepSame(toks[1..], false);
    assert [toks[0]] + toks[1..] == toks;
  }

  /** The next token of the second pass, and what the first token then does. */
  lemma FirstToken(cfg: Config, tok: string, a: OptArg, b: OptArg)
    requires StableUsage(cfg.usage) && IsOption(tok) && !a.Attached? && !b.Attached?
    requires !TokenEffect(cfg, tok, a).illegal
    requires TokenEffect(cfg, tok, a).took ==> a == b
    ensures TokenEffect(cfg, tok, b) == TokenEffect(cfg, tok, a)
  {
    if !TokenEffect(cfg, tok, a).took {
      TokenEffectStable(cfg, tok, a, b);
    }
  }

  lemma {:induction false} RescanOption(cfg: Config, gnu: bool, again: bool, toks: seq<string>, pre: seq<string>)
    requires StableUsage(cfg.usage) && NonOptions(pre) && (gnu || (!again && pre == []))
    requires toks != [] && IsOption(toks[0]) && toks[0] != "--"
    requires !TokenEffect(cfg, toks[0], Next(toks)).illegal
    ensures
      var s := ScanArgs(cfg, gnu, toks);
      var l := pre + Left(cfg, gnu, toks);
      var s2 := ScanArgs(cfg, again, Consumed(cfg, gnu, toks) + l);
      Repeats(s, s2, again, |Consumed(cfg, gnu, toks)|, |l|, FallsShort(s, again, l), Rejected(cfg, gnu, toks))
    decreases |toks|, 0
  {
    hide ScanArgs, TokenEffect, Keep, Consumed, Left;
    var head, rest := SplitHead(cfg, toks);
    var e := TokenEffect(cfg, toks[0], Next(toks));
    var c, l := Consumed(cfg, gnu, rest), Left(cfg, gnu, rest);
    var line := c + (pre + l);
    HeadThenRest(cfg, gnu, head, rest, e);
    HeadConsumed(cfg, gnu, head, rest, e);
    Rescan(cfg, gnu, again, rest, pre);
    FirstToken(cfg, toks[0], Next(toks), Next(head + line));
    HeadThenRest(cfg, again, head, line, e);
    assert (head + c) + (pre + l) == head + line;
    RejectedRest(cfg, gnu, toks, rest);
    Compose(ScanArgs(cfg, gnu, rest), ScanArgs(cfg, again, line), again, |head|, e.performed, |c|, |pre + l|,
            FallsShort(ScanArgs(cfg, gnu, rest), again, pre + l), Rejected(cfg, gnu, rest));
  }

  lemma SplitHead(cfg: Config, toks: seq<string>) returns (head: seq<string>, rest: seq<string>)
    requires toks != [] && IsOption(toks[0])
    ensures toks == head + rest && head != [] && head[0] == toks[0]
    ensures rest == toks[if TokenEffect(cfg, toks[0], Next(toks)).took then 2 else 1..]
    ensures |head| == if TokenEffect(cfg, toks[0], Next(toks)).took then 2 else 1
  {
    var n := if TokenEffect(cfg, toks[0], Next(toks)).took then 2 else 1;
    head, rest := toks[..n], toks[n..];
  }

  lemma HeadConsumed(cfg: Config, gnu: bool, head: seq<string>, rest: seq<string>, e: Effect)
    requires ScanArgs(cfg, gnu, head + rest) ==
             ScanArgs(cfg, gnu, rest).After(Same(true, |head|), e.performed)
    ensures Consumed(cfg, gnu, head + rest) == head + Consumed(cfg, gnu, rest)
    ensures Left(cfg, gnu, head + rest) == Left(cfg, gnu, rest)
  {
    var marks := ScanArgs(cfg, gnu, rest).marks;
    KeepSplit(head, Same(true, |head|), rest, marks, true);
    KeepSplit(head, Same(true, |head|), rest, marks, false);
    KeepSame(head, true);
    assert [] + Keep(rest, marks, false) == Keep(rest, marks, false);
  }

  lemma RejectedRest(cfg: Config, gnu: bool, toks: seq<string>, rest: seq<string>)
    requires toks != [] && IsOption(toks[0]) && toks[0] != "--" && !TokenEffect(cfg, toks[0], Next(toks)).illegal
    requires rest == toks[if TokenEffect(cfg, toks[0], Next(toks)).took then 2 else 1..]
    ensures Rejected(cfg, gnu, toks) == Rejected(cfg, gnu, rest)
  {
    hide TokenEffect;
  }

  lemma Compose(r: Scan, r2: Scan, again: bool, n: nat, p: seq<Opt>, c: nat, l: nat, short: bool, rejected: seq<Opt>)
    requires Repeats(r, r2, again, c, l, short, rejected)
    ensures Repeats(r.After(Same(true, n), p), r2.After(Same(true, n), p), again, n + c, l, short, rejected)
  {
  }

  /** One option token at the front of a line. */
  lemma HeadThenRest(cfg: Config, gnu: bool, head: seq<string>, line: seq<string>, e: Effect)
    requires |head| == (if e.took then 2 else 1)
    requires IsOption(head[0]) && head[0] != "--"
    requires TokenEffect(cfg, head[0], Next(head + line)) == e && !e.illegal
    ensures ScanArgs(cfg, gnu, head + line) ==
            ScanArgs(cfg, gnu, line).After(Same(true, |head|), e.performed)
  {
    var toks := head + line;
    assert toks[|head|..] == line;
    assert Same(true, 2) == [true, true] && Same(true, 1) == [true];
  }

  lemma SplitOfSorted<T>(c: seq<T>, l: seq<T>)
    ensures Keep(c + l, Marks(|c|, |l|), true) == c
    ensures Keep(c + l, Marks(|c|, |l|), false) == l
    ensures Partition(c + l, Marks(|c|, |l|)) == c + l
  {
    KeepSplit(c, Same(true, |c|), l, Same(false, |l|), true);
    KeepSplit(c, Same(true, |c|), l, Same(false, |l|), false);
    KeepSame(c, true);
    KeepSame(l, false);
    assert c + [] == c && [] + l == l;
  }

  /** Parsing again after a successful gnu pass, with either flag: the same options with the
      same arguments are performed, the same non-options are left, in the same place, and
      nothing moves. */
  lemma ReparseChangesNothing(cfg: Config, again: bool, toks: seq<string>)
    requires StableUsage(cfg.usage)
    requires !ScanArgs(cfg, true, toks).illegal
    ensures
      var line := Reordered(cfg, true, toks);
      var s2 := ScanArgs(cfg, again, line);
      && s2.performed == ScanArgs(cfg, true, toks).performed
      && !s2.illegal
      && Consumed(cfg, again, line) == Consumed(cfg, true, toks)
      && Left(cfg, again, line) == Left(cfg, true, toks)
      && Reordered(cfg, again, line) == line
      && (!again ==> (s2.atEnd <==> Left(cfg, true, toks) == []))
  {
    hide ScanArgs;
    var c, l := Consumed(cfg, true, toks), Left(cfg, true, toks);
    Rescan(cfg, true, again, toks, []);
    assert c + ([] + l) == Reordered(cfg, true, toks);
    SplitOfSorted(c, l);
  }

  /** The number of tokens a POSIX pass consumes: all of them in front. */
  lemma {:induction false} PosixMarks(cfg: Config, toks: seq<string>) returns (c: nat)
    ensures c <= |toks| && ScanArgs(cfg, false, toks).marks == Marks(c, |toks| - c)
    decreases |toks|
  {
    hide TokenEffect;
    if toks == [] || !IsOption(toks[0]) {
      c := 0;
    } else if toks[0] == "--" {
      c := 1;
    } else if TokenEffect(cfg, toks[0], Next(toks)).illegal {
      c := 0;
    } else {
      var head, rest := SplitHead(cfg, toks);
      HeadThenRest(cfg, false, head, rest, TokenEffect(cfg, toks[0], Next(toks)));
      var c' := PosixMarks(cfg, rest);
      c := |head| + c';
      assert Same(true, |head|) + Marks(c', |rest| - c') == Marks(c, |rest| - c');
    }
  }

  /** A POSIX pass stops at the first non-option and so never moves anything. */
  lemma PosixKeepsOrder(cfg: Config, toks: seq<string>)
    ensures Reordered(cfg, false, toks) == toks
  {
    var c := PosixMarks(cfg, toks);
    SplitOfSorted(toks[..c], toks[c..]);
    assert toks[..c] + toks[c..] == toks;
  }

  /** The options that a gnu pass finds behind the non-option at which a POSIX pass stops. */
  function Beyond(cfg: Config, toks: seq<string>): seq<Opt> {
    if toks == [] || toks[0] == "--" then []
    else if !IsOption(toks[0]) then ScanArgs(cfg, true, toks).performed
    else
      var e := TokenEffect(cfg, toks[0], Next(toks));
      if e.illegal then [] else Beyond(cfg, toks[if e.took then 2 else 1..])
  }

  lemma {:induction false} GnuGoesOn(cfg: Config, toks: seq<string>)
    ensures ScanArgs(cfg, true, toks).performed == ScanArgs(cfg, false, toks).performed + Beyond(cfg, toks)
    decreases |toks|
  {
    hide TokenEffect;
    if toks != [] && IsOption(toks[0]) && toks[0] != "--" && !TokenEffect(cfg, toks[0], Next(toks)).illegal {
      var e := TokenEffect(cfg, toks[0], Next(toks));
      GnuGoesOn(cfg, toks[if e.took then 2 else 1..]);
    }
  }

  /** Only a gnu pass leaves anything in front of a rejected token. */
  lemma {:induction false} PosixRejects(cfg: Config, toks: seq<string>)
    ensures ScanArgs(cfg, false, toks).illegal ==> Left(cfg, false, toks) != [] && IsOption(Left(cfg, false, toks)[0])
    decreases |toks|
  {
    hide TokenEffect;
    if toks != [] && IsOption(toks[0]) && toks[0] != "--" {
      var e := TokenEffect(cfg, toks[0], Next(toks));
      if e.illegal {
        KeepSame(toks, false);
      } else {
        var head, rest := SplitHead(cfg, toks);
        HeadThenRest(cfg, false, head, rest, e);
        HeadConsumed(cfg, false, head, rest, e);
        PosixRejects(cfg, rest);
      }
    }
  }

  /** The sizing pass (flag `counting`) and the pass that follows it on the line it left (flag
      `storing`). What the two perform differs by the options of a rejected token that the second
      one does not get to, and by those that it finds behind where the first one stopped. */
  lemma CountsAgree(cfg: Config, counting: bool, storing: bool, toks: seq<string>)
    requires StableUsage(cfg.usage)
    ensures
      var s := ScanArgs(cfg, counting, toks);
      var s2 := ScanArgs(cfg, storing, Reordered(cfg, counting, toks));
      var short := FallsShort(s, storing, Left(cfg, counting, toks));
      var more := if storing && !counting then Beyond(cfg, toks) else [];
      && s.performed + more == s2.performed + (if short then Rejected(cfg, counting, toks) else [])
      && (|s.performed| == |s2.performed| <==> (short ==> Rejected(cfg, counting, toks) == []) && more == [])
      && (short ==> counting && !storing)
      && ((storing ==> counting) ==> (s2.illegal <==> s.illegal && !short))
  {
    hide ScanArgs;
    if storing && !counting {
      PosixKeepsOrder(cfg, toks);
      GnuGoesOn(cfg, toks);
    } else {
      var c, l := Consumed(cfg, counting, toks), Left(cfg, counting, toks);
      Rescan(cfg, counting, storing, toks, []);
      assert c + ([] + l) == Reordered(cfg, counting, toks) && [] + l == l;
      PosixRejects(cfg, toks);
    }
  }

  /** Falling short is real: "x -ab", where -a takes nothing and -b needs an argument. The
      gnu sizing pass performs -a before it fails, the POSIX pass stops at "x". */
  lemma FailedGnuThenPosix()
    ensures
      var usage := [Descriptor(0, 0, "a", "a", CheckNone), Descriptor(1, 0, "b", "b", CheckRequired)];
      var cfg := Config(usage, false, 0);
      var toks := ["x", "-ab"];
      && |ScanArgs(cfg, true, toks).performed| == 1
      && ScanArgs(cfg, true, toks).illegal
      && Reordered(cfg, true, toks) == toks
      && ScanArgs(cfg, false, toks).performed == []
  {
    var usage := [Descriptor(0, 0, "a", "a", CheckNone), Descriptor(1, 0, "b", "b", CheckRequired)];
    var cfg := Config(usage, false, 0);
    var toks := ["x", "-ab"];
    assert ShortDescriptor(usage, 'a') == Just(usage[0]);
    assert ShortDescriptor(usage, 'b') == Just(usage[1]);
    assert ShortGroup(cfg, "-ab", 2, NoArg) == Effect([], false, true);
    assert ShortGroup(cfg, "-ab", 1, NoArg) == Effect([Opt(usage[0], "ab", Nothing)], false, true);
    assert toks[1..] == ["-ab"];
    assert ScanArgs(cfg, true, ["-ab"]) == Scan([false], [Opt(usage[0], "ab", Nothing)], true, false);
    assert ScanArgs(cfg, true, toks).marks == [false, false] == Same(false, 2);
    KeepSame(toks, false);
  }
}
