/** The expected signature of the DAC self-test (calc_bist in APS2::run_DAC_BIST,
    src/lib/APS2.cpp).  */
module SelfTest {

  /** A signed 16-bit sample, as integer promotion extends it. */
  predicate IsInt16(v: bv32) { v & 0xffff8000 == 0 || v & 0xffff8000 == 0xffff8000 }

  type Sample = v: bv32 | IsInt16(v)

  predicate Skipped(v: bv32) { v == 0 || v == 1 }

  /** A value that fits into 14 signed bits. */
  predicate Fits14(v: bv32) { v & 0xffffe000 == 0 || v & 0xffffe000 == 0xffffe000 }

  function Low14(v: bv32): bv32 { v & 0x3fff }

  /** The modulator shifts positive values down by 1. */
  function Shifted(v: bv32): bv32 {
    if v != 0 && v & 0x80000000 == 0 then v - 1 else v
  }

  function Rotate(lfsr: bv32): bv32 { (lfsr << 1) | (lfsr >> 31) }

  /** Not-xor of the bottom 14 bits with the sample. */
  function Mix(r: bv32, x: bv32): bv32 { (r & 0xffffc000) | (!(r ^ x) & 0x3fff) }

  function Step(lfsr: bv32, v: bv32): bv32 { Mix(Rotate(lfsr), Shifted(v)) }

  function Signature(vs: seq<Sample>, lfsr: bv32): bv32 {
    if vs == [] then lfsr
    else Signature(vs[1..], if Skipped(vs[0]) then lfsr else Step(lfsr, vs[0]))
  }

  method CalcBist(vs: seq<Sample>) returns (lfsr: bv32)
    ensures lfsr == Signature(vs, 0)
  {
    hide Step;
    lfsr := 0;
    var i := 0;
    assert vs[0..] == vs;
    while i < |vs|
      invariant i <= |vs| && Signature(vs[i..], lfsr) == Signature(vs, 0)
    {
      var v := vs[i];
      if v != 0 && v != 1 {
        lfsr := Step(lfsr, v);
      }
      assert vs[i..][1..] == vs[i + 1..];
      i := i + 1;
    }
  }

  // ---------- bit by bit ----------

  predicate Bit(x: bv32, i: bv6)
    requires i < 32
  {
    (x >> i) & 1 == 1
  }

  /** The place below i, around the end. */
  function Below(i: bv6): (j: bv6)
    requires i < 32
    ensures j < 32
  {
    if i == 0 then 31 else i - 1
  }

  /** What one more sample does to the signature. Nothing if it is skipped. Otherwise every bit moves up
      by one place, and the low 14 bits then say whether the old bit equals the bit of the sample,
      less one if it is positive. */
  lemma SignatureBits(vs: seq<Sample>, v: Sample, i: bv6)
    requires i < 32
    ensures
      var old_, new_ := Signature(vs, 0), Signature(vs + [v], 0);
      var x: bv32 := if v < 0x8000 then v - 1 else v;
      if v == 0 || v == 1 then new_ == old_
      else if i < 14 then Bit(new_, i) <==> (Bit(old_, Below(i)) <==> Bit(x, i))
      else Bit(new_, i) <==> Bit(old_, Below(i))
    ensures Signature([], 0) == 0
  {
    hide Step, Bit;
    SignatureLast(vs, v, 0);
    if v != 0 { StepBits(Signature(vs, 0), v, i); }
  }

  lemma {:induction false} SignatureLast(vs: seq<Sample>, v: Sample, s: bv32)
    ensures Signature(vs + [v], s) == if Skipped(v) then Signature(vs, s) else Step(Signature(vs, s), v)
    decreases |vs|
  {
    hide Step, IsInt16;
    if vs == [] {
      assert [] + [v] == [v] && [v][1..] == [];
    } else {
      assert (vs + [v])[1..] == vs[1..] + [v] && (vs + [v])[0] == vs[0];
      SignatureLast(vs[1..], v, if Skipped(vs[0]) then s else Step(s, vs[0]));
    }
  }

  lemma StepBits(s: bv32, v: Sample, i: bv6)
    requires i < 32 && v != 0
    ensures
      var x: bv32 := if v < 0x8000 then v - 1 else v;
      if i < 14 then Bit(Step(s, v), i) <==> (Bit(s, Below(i)) <==> Bit(x, i))
      else Bit(Step(s, v), i) <==> Bit(s, Below(i))
  {
    hide Rotate, Mix, Bit, Shifted, IsInt16;
    PositiveSample(v);
    MixBits(Rotate(s), Shifted(v), i);
    RotateBits(s, i);
  }

  lemma PositiveSample(v: bv32)
    requires IsInt16(v)
    ensures v != 0 ==> Shifted(v) == if v < 0x8000 then v - 1 else v
  {
  }

  lemma RotateBits(s: bv32, i: bv6)
    requires i < 32
    ensures Bit(Rotate(s), i) <==> Bit(s, Below(i))
  {
  }

  lemma MixBits(r: bv32, x: bv32, i: bv6)
    requires i < 32
    ensures Bit(Mix(r, x), i) <==> if i < 14 then Bit(r, i) == Bit(x, i) else Bit(r, i)
  {
  }

  // ---------- one step ----------

  lemma MixInjective(r: bv32, s: bv32, x: bv32)
    ensures Mix(r, x) == Mix(s, x) ==> r == s
  {
  }

  lemma MixUndo(r: bv32, x: bv32)
    ensures Mix(Mix(r, x), x) == r
  {
  }

  lemma RotateUndo(s: bv32)
    ensures Rotate((s >> 1) | (s << 31)) == s && (Rotate(s) >> 1) | (Rotate(s) << 31) == s
  {
  }

  lemma MixSample(r: bv32, x: bv32, y: bv32)
    ensures Mix(r, x) == Mix(r, y) ==> Low14(x) == Low14(y)
  {
  }

  /** Different samples that are not skipped differ in what they mix in. */
  lemma SampleInjective(v: bv32, w: bv32)
    requires Fits14(v) && Fits14(w) && !Skipped(v) && !Skipped(w)
    requires Low14(Shifted(v)) == Low14(Shifted(w))
    ensures v == w
  {
    hide Skipped, Fits14, Shifted, Low14;
    ShiftedFits(v);
    ShiftedFits(w);
    LowInjective(Shifted(v), Shifted(w));
    ShiftedInjective(v, w);
  }

  lemma ShiftedFits(v: bv32)
    requires Fits14(v)
    ensures Fits14(Shifted(v))
  {
    if v & 0xffffe000 == 0 { LessOne(v); } else { Negative(v); }
  }

  lemma LessOne(v: bv32)
    requires v & 0xffffe000 == 0
    ensures v != 0 ==> (v - 1) & 0xffffe000 == 0
  {
  }

  lemma Negative(v: bv32)
    requires v & 0xffffe000 == 0xffffe000
    ensures v & 0x80000000 != 0
  {
  }

  lemma ShiftedInjective(v: bv32, w: bv32)
    requires !Skipped(v) && !Skipped(w) && Shifted(v) == Shifted(w)
    ensures v == w
  {
    Decrement(v, w);
    Decrement(w, v);
  }

  lemma Decrement(a: bv32, b: bv32)
    ensures a - 1 == b - 1 ==> a == b
    ensures a != 0 && a & 0x80000000 == 0 ==> (a - 1) & 0x80000000 == 0
    ensures a - 1 == 0 ==> a == 1
  {
  }

  lemma LowInjective(a: bv32, b: bv32)
    requires Fits14(a) && Fits14(b) && Low14(a) == Low14(b)
    ensures a == b
  {
  }

  /** For a fixed sample the step is a bijection on the states of the register. */
  lemma StepBijective(s: bv32, t: bv32, v: bv32)
    ensures Step(s, v) == Step(t, v) ==> s == t
    ensures exists u :: Step(u, v) == s
  {
    hide Rotate, Mix, Shifted;
    MixInjective(Rotate(s), Rotate(t), Shifted(v));
    RotateUndo(s);
    RotateUndo(t);
    var m := Mix(s, Shifted(v));
    MixUndo(s, Shifted(v));
    RotateUndo(m);
    assert Step((m >> 1) | (m << 31), v) == s;
  }

  lemma StepSample(s: bv32, v: bv32, w: bv32)
    requires Fits14(v) && Fits14(w) && !Skipped(v) && !Skipped(w) && v != w
    ensures Step(s, v) != Step(s, w)
  {
    hide Rotate, Mix, Shifted;
    MixSample(Rotate(s), Shifted(v), Shifted(w));
    if Low14(Shifted(v)) == Low14(Shifted(w)) {
      SampleInjective(v, w);
    }
  }

  // ---------- whole vectors ----------

  /** Different states stay different under the same samples. */
  lemma {:induction false} StatesStayApart(vs: seq<Sample>, s: bv32, t: bv32)
    requires s != t
    ensures Signature(vs, s) != Signature(vs, t)
    decreases |vs|
  {
    hide Step;
    if vs != [] {
      if Skipped(vs[0]) {
        StatesStayApart(vs[1..], s, t);
      } else {
        StepBijective(s, t, vs[0]);
        StatesStayApart(vs[1..], Step(s, vs[0]), Step(t, vs[0]));
      }
    }
  }

  /** Two vectors that differ in one 14-bit sample, skipped in neither, have different
      signatures, from any state. */
  lemma {:induction false} SingleErrorDetected(vs: seq<Sample>, k: nat, w: Sample, s: bv32)
    requires k < |vs| && w != vs[k] && Fits14(w) && Fits14(vs[k]) && !Skipped(w) && !Skipped(vs[k])
    ensures Signature(vs[k := w], s) != Signature(vs, s)
    decreases k
  {
    hide Step, Skipped, Fits14, IsInt16;
    var ws := vs[k := w];
    if k == 0 {
      assert ws[1..] == vs[1..];
      StepSample(s, vs[0], w);
      StatesStayApart(vs[1..], Step(s, vs[0]), Step(s, w));
    } else {
      assert ws[1..] == vs[1..][k - 1 := w] && ws[0] == vs[0];
      SingleErrorDetected(vs[1..], k - 1, w, if Skipped(vs[0]) then s else Step(s, vs[0]));
    }
  }

  /** The samples that one of the two clock phases sees: every other one. */
  function Phase(vs: seq<Sample>, first: bool): seq<Sample> {
    if vs == [] then [] else (if first then [vs[0]] else []) + Phase(vs[1..], !first)
  }

  /** The phases are the samples at even and at odd positions. */
  lemma {:induction false} PhaseAt(vs: seq<Sample>, first: bool, j: nat)
    ensures |Phase(vs, first)| == (if first then |vs| + 1 else |vs|) / 2
    ensures j < |Phase(vs, first)| ==>
      var k := if first then 2 * j else 2 * j + 1;
      k < |vs| && Phase(vs, first)[j] == vs[k]
    decreases |vs|, j
  {
    hide IsInt16;
    if vs != [] {
      PhaseAt(vs[1..], !first, if first && j > 0 then j - 1 else j);
    }
  }

  /** std::partition_copy with a toggling predicate. */
  method SplitPhases(vs: seq<Sample>) returns (odd: seq<Sample>, even: seq<Sample>)
    ensures odd == Phase(vs, true) && even == Phase(vs, false)
  {
    odd, even := [], [];
    var toggle := false;
    var i := 0;
    assert vs[0..] == vs;
    while i < |vs|
      invariant i <= |vs|
      invariant odd + Phase(vs[i..], !toggle) == Phase(vs, true)
      invariant even + Phase(vs[i..], toggle) == Phase(vs, false)
    {
      assert vs[i..][1..] == vs[i + 1..];
      toggle := !toggle;
      if toggle { odd := odd + [vs[i]]; } else { even := even + [vs[i]]; }
      i := i + 1;
    }
  }

  predicate Even(k: nat) { k % 2 == 0 }

  /** Sample k is in one phase, and changing it changes nothing else. */
  lemma {:induction false} PhaseUpdate(vs: seq<Sample>, k: nat, w: Sample, first: bool) returns (j: nat)
    requires k < |vs|
    ensures first == Even(k) ==>
      j < |Phase(vs, first)| && Phase(vs, first)[j] == vs[k] && Phase(vs[k := w], first) == Phase(vs, first)[j := w]
    ensures first != Even(k) ==> Phase(vs[k := w], first) == Phase(vs, first)
    decreases k
  {
    hide IsInt16;
    var ws := vs[k := w];
    j := 0;
    if k == 0 {
      assert ws[1..] == vs[1..];
    } else {
      assert ws[1..] == vs[1..][k - 1 := w] && ws[0] == vs[0];
      var i := PhaseUpdate(vs[1..], k - 1, w, !first);
      j := if first then i + 1 else i;
    }
  }

  /** A single wrong sample of the test vector changes the signature of its own phase and leaves
      the other one alone. */
  lemma TestDetectsSingleError(vs: seq<Sample>, k: nat, w: Sample)
    requires k < |vs| && w != vs[k] && Fits14(w) && Fits14(vs[k]) && !Skipped(w) && !Skipped(vs[k])
    ensures Signature(Phase(vs[k := w], Even(k)), 0) != Signature(Phase(vs, Even(k)), 0)
    ensures Signature(Phase(vs[k := w], !Even(k)), 0) == Signature(Phase(vs, !Even(k)), 0)
  {
    hide Skipped, Fits14, IsInt16, Signature, Phase, Even;
    var j := PhaseUpdate(vs, k, w, Even(k));
    var i := PhaseUpdate(vs, k, w, !Even(k));
    SingleErrorDetected(Phase(vs, Even(k)), j, w, 0);
  }
}
