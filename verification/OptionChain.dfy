/** The circular doubly linked lists of parsed options (class Option of
    src/C++/optionparser.h). A link is a reference with an explicit wrap mark, where the
    source keeps the mark in the lowest address bit. */
module OptionChain {
  import opened Arguments

  class Option {
    var desc: Maybe<Descriptor>
    var name: Maybe<string>
    var arg: Maybe<string>
    var namelen: nat
    var next: Option
    var nextWraps: bool
    var prev: Option
    var prevWraps: bool

    /** An unused option: a one-element list. */
    constructor ()
      ensures desc == Nothing && Chain([this])
    {
      desc, name, arg, namelen := Nothing, Nothing, Nothing, 0;
      next, nextWraps, prev, prevWraps := this, true, this, true;
    }

    /** operator=: a copy of the payload, unchained. */
    method Init(desc: Maybe<Descriptor>, name: Maybe<string>, arg: Maybe<string>)
      modifies this
      ensures this.desc == desc && this.name == name && this.arg == arg
      ensures namelen == if name.Just? then NameLen(name.value) else 0
      ensures Chain([this])
    {
      this.desc, this.name, this.arg := desc, name, arg;
      prev, prevWraps, next, nextWraps := this, true, this, true;
      namelen := 0;
      if name.Just? {
        namelen := 1;
        if name.value != "" && name.value[0] == '-' {
          while namelen < |name.value| && name.value[namelen] != '='
            invariant 1 <= namelen <= |name.value|
            invariant '=' !in name.value[1..namelen]
            invariant this.desc == desc && this.name == name && this.arg == arg
            invariant next == prev == this && nextWraps && prevWraps
          {
            namelen := namelen + 1;
          }
          assert name.value[1..][..namelen - 1] == name.value[1..namelen];
          FindEqIs(name.value[1..], namelen - 1);
        }
      }
    }

    predicate IsFirst() reads this { prevWraps }
    predicate IsLast() reads this { nextWraps }

    method First(ghost xs: seq<Option>) returns (p: Option)
      requires Chain(xs) && this in xs
      ensures p == xs[0]
    {
      p := this;
      ghost var i :| 0 <= i < |xs| && xs[i] == this;
      while !p.IsFirst()
        invariant 0 <= i < |xs| && p == xs[i]
        decreases i
      {
        p := p.prev;
        i := i - 1;
      }
    }

    method Last(ghost xs: seq<Option>) returns (p: Option)
      requires Chain(xs) && this in xs
      ensures p == xs[|xs| - 1]
    {
      p := First(xs);
      p := p.prev;
    }

    /** The element after this one, or null on the last one. */
    method Next(ghost xs: seq<Option>, ghost i: nat) returns (p: Option?)
      requires Chain(xs) && i < |xs| && xs[i] == this
      ensures p == if i + 1 < |xs| then xs[i + 1] else null
    {
      p := if IsLast() then null else next;
    }

    method Prev(ghost xs: seq<Option>, ghost i: nat) returns (p: Option?)
      requires Chain(xs) && i < |xs| && xs[i] == this
      ensures p == if i > 0 then xs[i - 1] else null
    {
      p := if IsFirst() then null else prev;
    }

    /** The same number from every element: the length of the list, or 0 for an unused option. */
    method Count(ghost xs: seq<Option>) returns (c: nat)
      requires Chain(xs) && this in xs
      ensures c == if desc.Nothing? then |xs| - 1 else |xs|
    {
      c := if desc.Nothing? then 0 else 1;
      var p := First(xs);
      ghost var i := 0;
      while !p.IsLast()
        invariant 0 <= i < |xs| && p == xs[i]
        invariant c == i + if desc.Nothing? then 0 else 1
        decreases |xs| - i
      {
        c := c + 1;
        p := p.next;
        i := i + 1;
      }
    }

    /** Called on any element; newLast becomes the last one. Only links change. */
    method Append(newLast: Option, ghost xs: seq<Option>)
      requires Chain(xs) && this in xs && newLast !in xs
      modifies xs`next, xs`nextWraps, xs`prev, xs`prevWraps
      modifies newLast`next, newLast`nextWraps, newLast`prev, newLast`prevWraps
      ensures Chain(xs + [newLast])
    {
      var p := Last(xs);
      var f := First(xs);
      p.next, p.nextWraps := newLast, false;
      newLast.prev, newLast.prevWraps := p, false;
      newLast.next, newLast.nextWraps := f, true;
      f.prev, f.prevWraps := newLast, true;
      assert forall i :: 0 <= i < |xs| ==> (xs + [newLast])[i] == xs[i];
    }
  }

  lemma {:induction false} FindEqIs(s: string, k: nat)
    requires k <= |s| && '=' !in s[..k] && (k < |s| ==> s[k] == '=')
    ensures FindEq(s) == k
  {
  }

  /** xs is a whole list, first element first: next and prev are inverse walks along it and
      the wrap marks stand exactly at its ends. */
  ghost predicate Chain(xs: seq<Option>)
    reads xs
  {
    xs != [] && Distinct(xs) && Forward(xs) && Backward(xs)
  }

  ghost predicate Distinct(xs: seq<Option>) {
    forall i, j :: 0 <= i < j < |xs| ==> xs[i] != xs[j]
  }

  ghost predicate Forward(xs: seq<Option>)
    requires xs != []
    reads xs
  {
    var n := |xs| - 1;
    && xs[n].next == xs[0] && xs[n].nextWraps
    && forall i {:trigger xs[i].next} {:trigger xs[i].nextWraps} ::
         0 <= i < n ==> xs[i].next == xs[i + 1] && !xs[i].nextWraps
  }

  ghost predicate Backward(xs: seq<Option>)
    requires xs != []
    reads xs
  {
    && xs[0].prev == xs[|xs| - 1] && xs[0].prevWraps
    && forall i {:trigger xs[i].prev} {:trigger xs[i].prevWraps} ::
         0 < i < |xs| ==> xs[i].prev == xs[i - 1] && !xs[i].prevWraps
  }
}
