/** Parser::StoreOptionAction of src/C++/optionparser.h: parsed options are copied into
    buffer[] and chained, by descriptor index, behind the elements of options[]. */
module OptionStore {
  import opened Arguments
  import opened OptionChain

  const MAX_OPTIONS := 0x7fffffff

  /** The options with the given index, in order. */
  function ByIndex(log: seq<Opt>, idx: nat): seq<Opt> {
    if log == [] then []
    else
      var n := |log| - 1;
      ByIndex(log[..n], idx) + if log[n].desc.index == idx then [log[n]] else []
  }

  lemma ByIndexAppend(log: seq<Opt>, opt: Opt, idx: nat)
    ensures ByIndex(log + [opt], idx) ==
            if opt.desc.index == idx then ByIndex(log, idx) + [opt] else ByIndex(log, idx)
  {
  }

  /** An Option slot that holds the given option. */
  ghost predicate Holds(o: Option, opt: Opt)
    reads o`desc, o`name, o`arg, o`namelen
  {
    && o.desc == Just(opt.desc) && o.name == Just(opt.name) && o.arg == opt.arg
    && o.namelen == NameLen(opt.name)
  }

  /** xs is the list of exactly the options opts, in order; or an unused option on its own. */
  ghost predicate Lists(xs: seq<Option>, opts: seq<Opt>)
    reads xs
  {
    && Chain(xs)
    && (opts == [] ==> |xs| == 1 && xs[0].desc == Nothing)
    && (opts != [] ==> |xs| == |opts| && forall k :: 0 <= k < |xs| ==> Holds(xs[k], opts[k]))
  }

  lemma ListsGrow(xs: seq<Option>, opts: seq<Opt>, o: Option, opt: Opt)
    requires opts != [] && |xs| == |opts| && forall k :: 0 <= k < |xs| ==> Holds(xs[k], opts[k])
    requires Chain(xs + [o]) && Holds(o, opt)
    ensures Lists(xs + [o], opts + [opt])
  {
  }

  /** What a used list gives to Append. */
  lemma ListsUsed(xs: seq<Option>, opts: seq<Opt>)
    requires Lists(xs, opts) && xs != [] && xs[0].desc.Just?
    ensures Chain(xs) && opts != [] && |xs| == |opts| && forall k :: 0 <= k < |xs| ==> Holds(xs[k], opts[k])
  {
  }

  lemma ListsUnused(xs: seq<Option>, opts: seq<Opt>)
    requires Lists(xs, opts) && xs != [] && xs[0].desc.Nothing?
    ensures opts == [] && xs == [xs[0]]
  {
  }

  lemma ListsNew(o: Option, opt: Opt)
    requires Chain([o]) && Holds(o, opt)
    ensures Lists([o], [opt])
  {
  }

  /** Each option is the head of its own list. */
  ghost function Owners(options: seq<Option>): map<Option, nat>
    requires Distinct(options)
  {
    map i | 0 <= i < |options| :: options[i] := i
  }

  class Store {
    const options: seq<Option>
    const buffer: seq<Option>
    const bufmax: int
    ghost const Repr: set<Option>
    var opCount: nat
    ghost var log: seq<Opt>              // what has been stored, in order
    ghost var lists: seq<seq<Option>>    // lists[idx] is the list that starts at options[idx]
    ghost var owner: map<Option, nat>    // the list that a chained element belongs to

    /** The two arrays hold distinct objects, and nothing else is ever touched. */
    ghost predicate Slots() {
      && Distinct(options) && Distinct(buffer)
      && (forall i, j :: 0 <= i < |options| && 0 <= j < |buffer| ==> options[i] != buffer[j])
      && (forall i :: 0 <= i < |options| ==> options[i] in Repr)
      && (forall j :: 0 <= j < |buffer| ==> buffer[j] in Repr)
    }

    /** Lists share nothing and contain no free buffer slot. */
    ghost predicate Apart()
      reads this
    {
      && |lists| == |options|
      && (forall i, o :: 0 <= i < |lists| && o in lists[i] ==> o in owner && owner[o] == i && o in Repr)
      && (forall j :: opCount <= j < |buffer| ==> buffer[j] !in owner)
    }

    ghost predicate ListOk(idx: nat)
      requires idx < |lists| && |lists| == |options|
      reads this, lists[idx]
    {
      lists[idx] != [] && lists[idx][0] == options[idx] && Lists(lists[idx], ByIndex(log, idx))
    }

    ghost predicate Filled()
      reads this, Repr
    {
      && Slots() && bufmax <= |buffer| && bufmax <= MAX_OPTIONS
      && opCount == |log| <= |buffer| && opCount <= MAX_OPTIONS
      && (bufmax >= 0 ==> opCount <= bufmax)
      && (forall j :: 0 <= j < |log| ==> Holds(buffer[j], log[j]))
      && (forall j :: |log| <= j < |buffer| ==> buffer[j].desc == Nothing)
    }

    ghost predicate Chained()
      reads this, Repr
    {
      Apart() && forall idx :: 0 <= idx < |lists| ==> ListOk(idx)
    }

    ghost predicate Valid()
      reads this, Repr
    {
      Filled() && Chained()
    }

    constructor (options: seq<Option>, buffer: seq<Option>, bufmax: int)
      requires Distinct(options) && Distinct(buffer)
      requires forall i, j :: 0 <= i < |options| && 0 <= j < |buffer| ==> options[i] != buffer[j]
      requires forall i :: 0 <= i < |options| ==> options[i].desc == Nothing && Chain([options[i]])
      requires forall j :: 0 <= j < |buffer| ==> buffer[j].desc == Nothing
      requires bufmax <= |buffer| && bufmax <= MAX_OPTIONS
      ensures Valid() && log == []
      ensures this.options == options && this.buffer == buffer && this.bufmax == bufmax
      ensures Repr == set o | o in options + buffer
    {
      this.options, this.buffer, this.bufmax := options, buffer, bufmax;
      Repr := set o | o in options + buffer;
      opCount := 0;
      log := [];
      lists := seq(|options|, i requires 0 <= i < |options| => [options[i]]);
      owner := Owners(options);
      new;
      hide Chain, Holds, Distinct, ByIndex, Owners, Filled, Chained;
      NothingYet();
    }

    /** An empty store: every list is an unused option on its own. */
    lemma NothingYet()
      requires Slots() && bufmax <= |buffer| && bufmax <= MAX_OPTIONS && opCount == 0 && log == []
      requires forall i :: 0 <= i < |options| ==> options[i].desc == Nothing && Chain([options[i]])
      requires forall j :: 0 <= j < |buffer| ==> buffer[j].desc == Nothing
      requires |lists| == |options| && forall i :: 0 <= i < |lists| ==> lists[i] == [options[i]]
      requires Distinct(options) && owner == Owners(options)
      ensures Valid()
    {
      hide Chain, Holds;
    }

    lemma Counted()
      requires Valid()
      ensures opCount == |log| <= |buffer| && opCount <= MAX_OPTIONS
    {
    }

    /** The constructor's search for the first unused buffer entry; an array of unstated size
        must have one. */
    method FindFree() returns (i: nat)
      requires Valid() && (bufmax < 0 ==> opCount < |buffer|)
      ensures i == opCount
    {
      i := 0;
      while (bufmax < 0 || i < bufmax) && buffer[i].desc.Just?
        invariant i <= opCount
        decreases opCount - i
      {
        i := i + 1;
      }
    }

    /** Whether the next option will be refused: the count of stored options would not fit an int. */
    predicate Refuses() reads this {
      bufmax < 0 && opCount == MAX_OPTIONS
    }

    /** An option that finds the buffer full is dropped, which is not an error. */
    predicate Drops() reads this {
      bufmax >= 0 && opCount >= bufmax
    }

    /** What chaining the next free slot b demands and delivers. */
    ghost predicate Linkable(b: Option, opt: Opt)
      reads this, Repr, b
    {
      && Slots() && Chained()
      && opCount == |log| < |buffer| && b == buffer[opCount] && Holds(b, opt)
      && opt.desc.index < |options|
    }

    /** The option is the first one with its index: options[idx] becomes a copy of it. */
    method CopyTo(b: Option, ghost opt: Opt, idx: nat)
      requires Linkable(b, opt) && idx == opt.desc.index && options[idx].desc.Nothing?
      modifies options[idx]
      ensures Lists(lists[idx], ByIndex(log, idx) + [opt])
      ensures forall i :: 0 <= i < |lists| && i != idx ==> Lists(lists[i], ByIndex(log, i))
    {
      hide Lists, Chain, Slots;
      assert ListOk(idx);
      ListsUnused(lists[idx], ByIndex(log, idx));
      options[idx].Init(b.desc, b.name, b.arg);
      ListsNew(options[idx], opt);
      assert lists[idx] == [options[idx]] && [] + [opt] == [opt];
      forall i | 0 <= i < |lists| && i != idx ensures Lists(lists[i], ByIndex(log, i)) {
        assert old(ListOk(i));
        assert options[idx] in lists[idx];
        forall k | 0 <= k < |lists[i]| ensures unchanged(lists[i][k]) {
          var o := lists[i][k];
          assert o in lists[i] && o in owner && owner[o] == i;
        }
      }
    }

    method LinkFirst(b: Option, ghost opt: Opt, idx: nat)
      requires Linkable(b, opt) && idx == opt.desc.index && options[idx].desc.Nothing?
      modifies this, options[idx]
      ensures log == old(log) + [opt] && opCount == old(opCount) + 1 && lists == old(lists)
      ensures Chained()
    {
      hide Lists, Holds;
      ghost var log0 := log;
      assert forall i :: 0 <= i < |lists| ==> ListOk(i);
      CopyTo(b, opt, idx);
      label Copied:
      opCount := opCount + 1;
      log := log + [opt];
      forall i | 0 <= i < |lists| ensures ListOk(i) {
        ByIndexAppend(log0, opt, i);
        assert old(ListOk(i));
        assert old@Copied(Lists(lists[i], ByIndex(log0 + [opt], i)));
        forall k | 0 <= k < |lists[i]| ensures unchanged@Copied(lists[i][k]) {
        }
      }
    }

    /** A later one: the slot itself goes to the end of the list, and no other list notices. */
    method AppendTo(b: Option, ghost opt: Opt, idx: nat)
      requires Linkable(b, opt) && idx == opt.desc.index && options[idx].desc.Just?
      modifies Repr`next, Repr`nextWraps, Repr`prev, Repr`prevWraps
      ensures Lists(lists[idx] + [b], ByIndex(log, idx) + [opt])
      ensures forall i :: 0 <= i < |lists| && i != idx ==> Lists(lists[i], ByIndex(log, i))
    {
      hide Lists, Chain, Holds;
      ghost var xs := lists[idx];
      assert ListOk(idx);
      ListsUsed(xs, ByIndex(log, idx));
      options[idx].Append(b, xs);
      ListsGrow(xs, ByIndex(log, idx), b, opt);
      forall i | 0 <= i < |lists| && i != idx ensures Lists(lists[i], ByIndex(log, i)) {
        assert old(ListOk(i));
        forall k | 0 <= k < |lists[i]| ensures unchanged(lists[i][k]) {
          var o := lists[i][k];
          assert o in lists[i] && o in owner && owner[o] == i;
          assert o !in xs;
        }
      }
    }

    method LinkNext(b: Option, ghost opt: Opt, idx: nat)
      requires Linkable(b, opt) && idx == opt.desc.index && options[idx].desc.Just?
      modifies this, Repr`next, Repr`nextWraps, Repr`prev, Repr`prevWraps
      ensures log == old(log) + [opt] && opCount == old(opCount) + 1
      ensures lists == old(lists)[idx := old(lists)[idx] + [b]]
      ensures Chained()
    {
      hide Lists, Holds;
      ghost var log0, lists0 := log, lists;
      assert forall i :: 0 <= i < |lists| ==> ListOk(i);
      AppendTo(b, opt, idx);
      label Appended:
      opCount := opCount + 1;
      log := log + [opt];
      lists := lists[idx := lists[idx] + [b]];
      owner := owner[b := idx];
      forall i | 0 <= i < |lists| ensures ListOk(i) {
        ByIndexAppend(log0, opt, i);
        assert old(ListOk(i));
        assert old@Appended(Lists(if i == idx then lists0[idx] + [b] else lists0[i], ByIndex(log0 + [opt], i)));
        forall k | 0 <= k < |lists[i]| ensures unchanged@Appended(lists[i][k]) {
        }
      }
    }

    method Perform(opt: Opt) returns (ok: bool)
      requires Valid() && opt.desc.index < |options|
      requires bufmax < 0 ==> opCount < |buffer| || opCount == MAX_OPTIONS
      modifies this, Repr
      ensures Valid()
      ensures ok == !old(Refuses())
      ensures log == if old(Refuses() || Drops()) then old(log) else old(log) + [opt]
    {
      if bufmax < 0 || opCount < bufmax {
        if opCount == MAX_OPTIONS { return false; }
        var b := buffer[opCount];
        b.Init(Just(opt.desc), Just(opt.name), opt.arg);
        assert Linkable(b, opt);
        var idx := b.desc.value.index;
        if options[idx].desc.Just? {
          LinkNext(b, opt, idx);
        } else {
          LinkFirst(b, opt, idx);
        }
      }
      return true;
    }

    /** The documented loop `for (opt = options[idx]; opt; opt = opt->next())`. It visits exactly
        the stored options with index idx, in command-line order. */
    method Walk(idx: nat) returns (opts: seq<Opt>)
      requires Valid() && idx < |options|
      ensures opts == ByIndex(log, idx)
    {
      hide Slots, Distinct, Forward, Backward, ByIndex;
      opts := [];
      ghost var xs, all := lists[idx], ByIndex(log, idx);
      assert ListOk(idx);
      var opt: Option? := if options[idx].desc.Just? then options[idx] else null;
      ghost var k: nat := 0;
      while opt != null
        invariant k <= |all| && opts == all[..k]
        invariant opt == if k < |all| then xs[k] else null
        decreases |all| - k
      {
        assert Holds(opt, all[k]);
        opts := opts + [Opt(opt.desc.value, opt.name.value, opt.arg)];
        opt := opt.Next(xs, k);
        k := k + 1;
      }
    }

    /** Following prev() from last() visits the same options backwards. */
    method WalkBack(idx: nat) returns (opts: seq<Opt>)
      requires Valid() && idx < |options| && options[idx].desc.Just?
      ensures |opts| == |ByIndex(log, idx)|
      ensures forall i :: 0 <= i < |opts| ==> opts[i] == ByIndex(log, idx)[|opts| - 1 - i]
    {
      hide Slots, Distinct, Forward, Backward, ByIndex;
      opts := [];
      ghost var xs, all := lists[idx], ByIndex(log, idx);
      assert ListOk(idx);
      var last := options[idx].Last(xs);
      var opt: Option? := last;
      ghost var k: nat := |all|;
      while opt != null
        invariant k <= |all| && |opts| == |all| - k
        invariant forall i :: 0 <= i < |opts| ==> opts[i] == all[|all| - 1 - i]
        invariant opt == if k > 0 then xs[k - 1] else null
        decreases k
      {
        assert Holds(opt, all[k - 1]);
        assert Opt(opt.desc.value, opt.name.value, opt.arg) == all[k - 1];
        opts := opts + [Opt(opt.desc.value, opt.name.value, opt.arg)];
        opt := opt.Prev(xs, k - 1);
        k := k - 1;
      }
    }
  }
}
