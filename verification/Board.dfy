/** Waveform and instruction memory behind a cache, and the operations that upload and play
    (src/lib/APS2.cpp). The device keeps one memory for SDRAM and registers, and loads its cache
    from SDRAM when the cache is enabled. */
module Board {
  import opened Words
  import opened Datagrams
  import opened WaveformProgram

  const REGISTERS := 0x44a0_0000
  const CACHE_CONTROL: u32 := REGISTERS + 4 * 4
  const CONTROL: u32 := REGISTERS + 9 * 4
  const LENGTH_A: u32 := REGISTERS + 32 * 4
  const LENGTH_B: u32 := REGISTERS + 33 * 4
  const FREQUENCY: u32 := REGISTERS + 34 * 4

  const REGION_A: u32 := 0
  const REGION_B: u32 := 0x1000_0000
  const REGION_CODE: u32 := 0x2000_0000

  const CACHE_ENABLE := 0
  const SM_ENABLE := 0
  const TRIGGER_ENABLE := 4

  // ---------- register bits ----------

  predicate HasBit(x: nat, k: nat) decreases k { if k == 0 then x % 2 == 1 else HasBit(x / 2, k - 1) }

  function PutBit(x: nat, k: nat, on: bool): nat
    decreases k
  {
    if k == 0 then x / 2 * 2 + (if on then 1 else 0) else 2 * PutBit(x / 2, k - 1, on) + x % 2
  }

  lemma {:induction false} PutBitChanges(x: nat, k: nat, on: bool, j: nat)
    ensures HasBit(PutBit(x, k, on), j) == if j == k then on else HasBit(x, j)
    decreases k
  {
    var y := PutBit(x, k, on);
    if k == 0 {
      assert y / 2 == x / 2;
    } else {
      assert y / 2 == PutBit(x / 2, k - 1, on) && y % 2 == x % 2;
      if j > 0 { PutBitChanges(x / 2, k - 1, on, j - 1); }
    }
  }

  lemma {:induction false} PutBitBelow(x: nat, k: nat, on: bool, n: nat)
    requires k < n && x < Pow2(n)
    ensures PutBit(x, k, on) < Pow2(n)
    decreases k
  {
    assert x / 2 < Pow2(n - 1);
    if k > 0 { PutBitBelow(x / 2, k - 1, on, n - 1); }
  }

  type bit = k: int | 0 <= k < 32

  function Put(x: u32, k: bit, on: bool): u32 {
    Pow2Values();
    PutBitBelow(x, k, on, 32);
    PutBit(x, k, on)
  }

  function PutAll(x: u32, bits: seq<bit>, on: bool): u32
    decreases |bits|
  {
    if bits == [] then x else PutAll(Put(x, bits[0], on), bits[1..], on)
  }

  /** The bits named, and no others. */
  lemma {:induction false} PutAllChanges(x: u32, bits: seq<bit>, on: bool, j: nat)
    ensures HasBit(PutAll(x, bits, on), j) == if j in bits then on else HasBit(x, j)
    decreases |bits|
  {
    hide HasBit, PutBit;
    if bits != [] {
      PutBitChanges(x, bits[0], on, j);
      PutAllChanges(Put(x, bits[0], on), bits[1..], on, j);
    }
  }

  // ---------- the device ----------

  /** What the cache preloads: the first 128k samples of each channel and the first line of
      128 instructions. */
  predicate Cached(a: u32) {
    || a < 0x4_0000
    || 0x1000_0000 <= a < 0x1004_0000
    || 0x2000_0000 <= a < 0x2000_0400
  }

  function Preload(mem: Memory): Memory { map a | a in mem && Cached(a) :: mem[a] }

  /** Bit 0 of the cache control register. */
  predicate On(mem: Memory) { HasBit(Word(mem, 0x44a0_0010), 0) }

  /** clean: SDRAM was never written while the cache was enabled. */
  datatype Device = Device(mem: Memory, cache: Memory, clean: bool)

  function Store(dev: Device, addr: u32, data: seq<u32>): Device {
    var mem := Datagrams.Write(dev.mem, addr, data);
    Device(mem,
           if On(mem) && !On(dev.mem) then Preload(mem) else dev.cache,
           dev.clean && !(On(dev.mem) && addr < SDRAM_END && data != []))
  }

  function StoreAll(dev: Device, dgs: seq<Datagram>): Device
    decreases |dgs|
  {
    if dgs == [] then dev else StoreAll(Store(dev, dgs[0].addr, dgs[0].payload), dgs[1..])
  }

  /** An enabled cache agrees with SDRAM. */
  predicate Coherent(dev: Device) { dev.clean && (On(dev.mem) ==> dev.cache == Preload(dev.mem)) }

  /** One SDRAM block, or one register. */
  predicate OneTarget(addr: u32, data: seq<u32>) { addr + 4 * |data| <= SDRAM_END || (addr >= SDRAM_END && |data| == 1) }

  lemma SdramKeepsSwitch(mem: Memory, addr: u32, data: seq<u32>)
    requires addr + 4 * |data| <= SDRAM_END
    ensures On(Datagrams.Write(mem, addr, data)) == On(mem)
  {
    hide Datagrams.Write, HasBit;
    WriteStores(mem, addr, data, CACHE_CONTROL);
  }

  lemma StoreSdram(dev: Device, addr: u32, data: seq<u32>)
    requires addr + 4 * |data| <= SDRAM_END
    ensures Store(dev, addr, data) ==
      Device(Datagrams.Write(dev.mem, addr, data), dev.cache, dev.clean && !(On(dev.mem) && data != []))
    ensures On(Datagrams.Write(dev.mem, addr, data)) == On(dev.mem)
  {
    hide Datagrams.Write, On;
    SdramKeepsSwitch(dev.mem, addr, data);
    if addr == SDRAM_END { assert data == []; }
  }

  /** Splitting does not matter to the device either. */
  lemma {:induction false} StoreChunks(dev: Device, addr: u32, data: seq<u32>)
    requires OneTarget(addr, data)
    ensures StoreAll(dev, DatagramsOf(WRITE_COMMAND, addr, data, MEMORY_CHUNK)) == Store(dev, addr, data)
    decreases |data|
  {
    hide Datagrams.Write, On;
    var dgs := DatagramsOf(WRITE_COMMAND, addr, data, MEMORY_CHUNK);
    if data == [] {
      StoreNothing(dev, addr);
    } else if |data| <= MEMORY_CHUNK {
      assert data[..|data|] == data && data[|data|..] == [];
      DatagramsEnd(WRITE_COMMAND, Wrap(addr + 4 * |data|), MEMORY_CHUNK);
      assert dgs[1..] == [];
    } else {
      var n := MEMORY_CHUNK;
      var p, q, at := data[..n], data[n..], Wrap(addr + 4 * n);
      assert at == addr + 4 * n;
      assert dgs[1..] == DatagramsOf(WRITE_COMMAND, at, q, MEMORY_CHUNK);
      StoreChunks(Store(dev, addr, p), at, q);
      StoreSdram(dev, addr, p);
      StoreSdram(Store(dev, addr, p), at, q);
      StoreSdram(dev, addr, data);
      WriteSplit(dev.mem, addr, data, n);
    }
  }

  lemma StoreNothing(dev: Device, addr: u32)
    ensures Store(dev, addr, []) == dev
  {
  }

  /** A register write: nothing else in memory changes, and nothing that is cached. */
  lemma StoreRegister(dev: Device, addr: u32, x: u32)
    requires addr >= SDRAM_END
    ensures
      var r := Store(dev, addr, [x]);
      && r.mem == dev.mem[addr := x]
      && r.clean == dev.clean
      && Preload(r.mem) == Preload(dev.mem)
      && r.cache == (if On(r.mem) && !On(dev.mem) then Preload(dev.mem) else dev.cache)
      && (addr != CACHE_CONTROL ==> On(r.mem) == On(dev.mem))
  {
    hide HasBit;
    assert [x][1..] == [];
    assert Datagrams.Write(dev.mem, addr, [x]) == dev.mem[addr := x];
    assert !Cached(addr);
  }

  // ---------- packed data ----------

  type i16 = x: int | -0x8000 <= x < 0x8000

  /** Two samples in a word, the earlier one in the low half. */
  function Pair(lo: i16, hi: i16): u32 { hi % TWO16 * TWO16 + lo % TWO16 }

  function Sample(half: u16): i16 { if half < 0x8000 then half else half - TWO16 }

  lemma PairHolds(lo: i16, hi: i16)
    ensures Sample(Pair(lo, hi) % TWO16) == lo && Sample(Pair(lo, hi) / TWO16) == hi
  {
  }

  /** Padded to whole units of 16 bytes. */
  predicate PaddedTo4(words: seq<u32>, padded: seq<u32>) {
    && words <= padded
    && |padded| == (|words| + 3) / 4 * 4
    && forall i :: |words| <= i < |padded| ==> padded[i] == ALL_ONES
  }

  function Pad4(words: seq<u32>): (padded: seq<u32>)
    ensures PaddedTo4(words, padded)
  {
    words + seq((4 - |words| % 4) % 4, _ => ALL_ONES)
  }

  /** The samples of a waveform stand in these words. */
  ghost predicate HoldsSamples(words: seq<u32>, wf: seq<i16>) {
    && |wf| <= 2 * |words|
    && forall i :: 0 <= i < |wf| ==> Half(words[i / 2], i % 2 == 0) == wf[i]
  }

  function Half(word: u32, low: bool): i16 { Sample(if low then word % TWO16 else word / TWO16) }

  function WaveformWords(wf: seq<i16>): seq<u32>
    requires |wf| % 2 == 0
  {
    Pad4(seq(|wf| / 2, i requires 0 <= i < |wf| / 2 => Pair(wf[2 * i], wf[2 * i + 1])))
  }

  lemma WordKept(wf: seq<i16>, k: nat)
    requires |wf| % 2 == 0 && 2 * k + 1 < |wf|
    ensures |wf| <= 2 * |WaveformWords(wf)|
    ensures Half(WaveformWords(wf)[k], true) == wf[2 * k] && Half(WaveformWords(wf)[k], false) == wf[2 * k + 1]
  {
    hide Pair, Sample;
    PairHolds(wf[2 * k], wf[2 * k + 1]);
  }

  lemma WaveformKept(wf: seq<i16>)
    requires |wf| % 2 == 0
    ensures HoldsSamples(WaveformWords(wf), wf)
  {
    hide Pair, Sample, WaveformWords;
    if wf != [] { WordKept(wf, 0); }
    forall i | 0 <= i < |wf|
      ensures i / 2 < |WaveformWords(wf)|
      ensures Half(WaveformWords(wf)[i / 2], i % 2 == 0) == wf[i]
    {
      var k := i / 2;
      WordKept(wf, k);
      assert i == if i % 2 == 0 then 2 * k else 2 * k + 1;
    }
  }

  method PackWaveform(wf: seq<i16>) returns (packed: seq<u32>)
    requires |wf| % 2 == 0
    ensures packed == WaveformWords(wf)
  {
    hide Pair;
    packed := [];
    var ct := 0;
    while ct < |wf|
      invariant ct <= |wf| && ct % 2 == 0 && |packed| == ct / 2
      invariant forall i :: 0 <= i < |packed| ==> packed[i] == Pair(wf[2 * i], wf[2 * i + 1])
    {
      packed := packed + [Pair(wf[ct], wf[ct + 1])];
      ct := ct + 2;
    }
    assert packed == seq(|wf| / 2, i requires 0 <= i < |wf| / 2 => Pair(wf[2 * i], wf[2 * i + 1]));
    packed := Pad4(packed);
  }

  /** Instruction words low half first. */
  function Halves(code: seq<u64>): (words: seq<u32>)
    ensures |words| == 2 * |code|
  {
    if code == [] then [] else Halves(code[..|code| - 1]) + [code[|code| - 1] % TWO32, code[|code| - 1] / TWO32]
  }

  function CodeWords(code: seq<u64>): seq<u32> { Pad4(Halves(code)) }

  lemma {:induction false} HalvesAt(code: seq<u64>, i: nat)
    requires i < |code|
    ensures Halves(code)[2 * i] + TWO32 * Halves(code)[2 * i + 1] == code[i]
  {
    if i < |code| - 1 { HalvesAt(code[..|code| - 1], i); }
  }

  method PackSequence(code: seq<u64>) returns (packed: seq<u32>)
    ensures packed == CodeWords(code)
  {
    packed := [];
    var ct := 0;
    while ct < |code|
      invariant ct <= |code| && packed == Halves(code[..ct])
    {
      assert code[..ct + 1][..ct] == code[..ct];
      packed := packed + [code[ct] % TWO32];
      packed := packed + [code[ct] / TWO32];
      ct := ct + 1;
    }
    assert code[..ct] == code;
    packed := Pad4(packed);
  }

  // ---------- what is in memory ----------

  /** The words stand in mem from addr on. */
  ghost predicate Holds(mem: Memory, addr: u32, words: seq<u32>)
    requires addr + 4 * |words| <= TWO32
  {
    forall i :: 0 <= i < |words| ==> Word(mem, addr + 4 * i) == words[i]
  }

  /** Nothing outside [lo, hi) differs. */
  ghost predicate SameOutside(before: Memory, after: Memory, lo: int, hi: int) {
    forall a: u32 :: !(lo <= a < hi) ==> Word(after, a) == Word(before, a)
  }

  lemma WriteHolds(mem: Memory, addr: u32, words: seq<u32>)
    requires addr + 4 * |words| <= TWO32
    ensures Holds(Datagrams.Write(mem, addr, words), addr, words)
    ensures SameOutside(mem, Datagrams.Write(mem, addr, words), addr, addr + 4 * |words|)
  {
    hide Datagrams.Write;
    var w := Datagrams.Write(mem, addr, words);
    forall i | 0 <= i < |words| ensures Word(w, addr + 4 * i) == words[i] {
      WriteStores(mem, addr, words, addr + 4 * i);
    }
    forall a: u32 | !(addr <= a < addr + 4 * |words|) ensures Word(w, a) == Word(mem, a) {
      WriteStores(mem, addr, words, a);
    }
  }

  lemma HoldsStill(before: Memory, after: Memory, lo: int, hi: int, addr: u32, words: seq<u32>)
    requires SameOutside(before, after, lo, hi) && addr + 4 * |words| <= TWO32
    requires addr + 4 * |words| <= lo || hi <= addr
    requires Holds(before, addr, words)
    ensures Holds(after, addr, words)
  {
  }

  // ---------- uploads ----------

  /** The latest upload to each of the three regions. */
  datatype Uploads = Uploads(a: seq<i16>, b: seq<i16>, code: seq<u64>)

  predicate FitsWaveform(wf: seq<i16>) { |wf| % 2 == 0 && 4 * |WaveformWords(wf)| <= 0x1000_0000 }

  predicate FitsSequence(code: seq<u64>) { 4 * |CodeWords(code)| <= 0x2000_0000 }

  predicate FitsAll(u: Uploads) { FitsWaveform(u.a) && FitsWaveform(u.b) && FitsSequence(u.code) }

  /** Each region holds its upload, and the length registers say how many samples there are. */
  ghost predicate Loaded(mem: Memory, u: Uploads) {
    && FitsAll(u)
    && Holds(mem, REGION_A, WaveformWords(u.a))
    && Holds(mem, REGION_B, WaveformWords(u.b))
    && Holds(mem, REGION_CODE, CodeWords(u.code))
    && Word(mem, LENGTH_A) == |u.a|
    && Word(mem, LENGTH_B) == |u.b|
  }

  /** A register other than the length registers has been written. */
  lemma LoadedRegister(mem: Memory, u: Uploads, reg: u32, x: u32)
    requires Loaded(mem, u) && reg >= SDRAM_END && reg != LENGTH_A && reg != LENGTH_B
    ensures Loaded(mem[reg := x], u)
  {
  }

  lemma LoadedCode(mem: Memory, u: Uploads, code: seq<u64>)
    requires Loaded(mem, u) && FitsSequence(code)
    ensures Loaded(Datagrams.Write(mem, REGION_CODE, CodeWords(code)), u.(code := code))
  {
    hide Datagrams.Write, WaveformWords, CodeWords, Word;
    var words := CodeWords(code);
    var after := Datagrams.Write(mem, REGION_CODE, words);
    WriteHolds(mem, REGION_CODE, words);
    HoldsStill(mem, after, REGION_CODE, REGION_CODE + 4 * |words|, REGION_A, WaveformWords(u.a));
    HoldsStill(mem, after, REGION_CODE, REGION_CODE + 4 * |words|, REGION_B, WaveformWords(u.b));
  }

  /** The source tests only for channel 0. */
  function Region(ch: int): u32 { if ch == 0 then REGION_A else REGION_B }

  function LengthRegister(ch: int): u32 { if ch == 0 then LENGTH_A else LENGTH_B }

  function WithWaveform(u: Uploads, ch: int, wf: seq<i16>): Uploads {
    if ch == 0 then u.(a := wf) else u.(b := wf)
  }

  lemma LoadedWaveform(mem: Memory, u: Uploads, ch: int, wf: seq<i16>)
    requires Loaded(mem, u) && FitsWaveform(wf)
    ensures |wf| < TWO32
    ensures Loaded(Datagrams.Write(mem, Region(ch), WaveformWords(wf))[LengthRegister(ch) := |wf|], WithWaveform(u, ch, wf))
  {
    SampleCount(wf);
    hide Datagrams.Write, WaveformWords, CodeWords;
    var words := WaveformWords(wf);
    var lo, hi := Region(ch), Region(ch) + 4 * |words|;
    var stored := Datagrams.Write(mem, Region(ch), words);
    var after := stored[LengthRegister(ch) := |wf|];
    WriteHolds(mem, Region(ch), words);
    assert Word(after, LENGTH_A) == (if ch == 0 then |wf| else |u.a|);
    assert Word(after, LENGTH_B) == (if ch == 0 then |u.b| else |wf|);
    var reg := LengthRegister(ch);
    assert SameOutside(stored, after, reg, reg + 1);
    hide Word;
    HoldsStill(stored, after, reg, reg + 1, Region(ch), words);
    if ch == 0 {
      HoldsStill(mem, stored, lo, hi, REGION_B, WaveformWords(u.b));
      HoldsStill(stored, after, reg, reg + 1, REGION_B, WaveformWords(u.b));
    } else {
      HoldsStill(mem, stored, lo, hi, REGION_A, WaveformWords(u.a));
      HoldsStill(stored, after, reg, reg + 1, REGION_A, WaveformWords(u.a));
    }
    HoldsStill(mem, stored, lo, hi, REGION_CODE, CodeWords(u.code));
    HoldsStill(stored, after, reg, reg + 1, REGION_CODE, CodeWords(u.code));
  }

  lemma SampleCount(wf: seq<i16>)
    requires FitsWaveform(wf)
    ensures |wf| < TWO32
  {
  }

  // ---------- operations ----------

  datatype Host = Aps | Tdm

  datatype Operation =
    | StartPlaying
    | StopPlaying
    | UploadWaveform(ch: int, samples: seq<i16>)
    | UploadSequence(code: seq<u64>)
    | SelectMode(mode: RunMode)

  predicate Fits(op: Operation) {
    (op.UploadWaveform? ==> FitsWaveform(op.samples)) && (op.UploadSequence? ==> FitsSequence(op.code))
  }

  /** What an operation uploads; freq is the frequency register. */
  function After(u: Uploads, op: Operation, freq: u32): (v: Uploads)
    requires FitsAll(u)
  {
    SampleCount(u.a);
    SampleCount(u.b);
    match op
    case StartPlaying => u
    case StopPlaying => u
    case UploadWaveform(ch, wf) => WithWaveform(u, ch, wf)
    case UploadSequence(code) => u.(code := code)
    case SelectMode(mode) =>
      if WaveformMode(mode) && (u.a != [] || u.b != []) then u.(code := Code(mode, freq, |u.a|, |u.b|))
      else u
  }

  /** Whether the cache is enabled after an operation of an APS host. */
  function OnAfter(u: Uploads, on: bool, op: Operation): bool {
    match op
    case StartPlaying => true
    case StopPlaying => false
    case UploadWaveform(_, _) => true
    case UploadSequence(_) => true
    case SelectMode(mode) => on || (WaveformMode(mode) && (u.a != [] || u.b != []))
  }

  lemma CodeShort(mode: RunMode, freq: u32, lenA: u32, lenB: u32)
    ensures |Code(mode, freq, lenA, lenB)| <= 8 && FitsSequence(Code(mode, freq, lenA, lenB))
  {
  }

  lemma AfterFits(u: Uploads, op: Operation, freq: u32)
    requires FitsAll(u) && Fits(op)
    ensures FitsAll(After(u, op, freq))
  {
  }

  /** The uploads after a whole run. */
  function AfterAll(u: Uploads, ops: seq<Operation>, freq: u32): (v: Uploads)
    requires FitsAll(u) && forall op :: op in ops ==> Fits(op)
    ensures FitsAll(v)
  {
    if ops == [] then u
    else
      var before := AfterAll(u, ops[..|ops| - 1], freq);
      AfterFits(before, ops[|ops| - 1], freq);
      After(before, ops[|ops| - 1], freq)
  }

  function OnAfterAll(u: Uploads, on: bool, ops: seq<Operation>, freq: u32): bool
    requires FitsAll(u) && forall op :: op in ops ==> Fits(op)
  {
    if ops == [] then on
    else
      var init := ops[..|ops| - 1];
      OnAfter(AfterAll(u, init, freq), OnAfterAll(u, on, init, freq), ops[|ops| - 1])
  }

  datatype Target = WaveformA | WaveformB | Instructions | NoRegion

  /** The region that an operation uploads to; u is what has been uploaded before it. */
  function TargetOf(u: Uploads, op: Operation): Target {
    match op
    case UploadWaveform(ch, _) => if ch == 0 then WaveformA else WaveformB
    case UploadSequence(_) => Instructions
    case SelectMode(mode) => if WaveformMode(mode) && (u.a != [] || u.b != []) then Instructions else NoRegion
    case _ => NoRegion
  }

  /** What a region is left with is what was uploaded to it last. For a run mode that is the program
      for the waveforms that were loaded when it was selected. */
  lemma {:induction false} LatestUpload(u: Uploads, ops: seq<Operation>, freq: u32, i: nat)
    requires FitsAll(u) && forall op :: op in ops ==> Fits(op)
    requires i < |ops| && TargetOf(AfterAll(u, ops[..i], freq), ops[i]) != NoRegion
    requires forall j :: i < j < |ops| ==>
      TargetOf(AfterAll(u, ops[..j], freq), ops[j]) != TargetOf(AfterAll(u, ops[..i], freq), ops[i])
    ensures
      var before, r := AfterAll(u, ops[..i], freq), AfterAll(u, ops, freq);
      match ops[i]
      case UploadWaveform(ch, samples) => samples == if ch == 0 then r.a else r.b
      case UploadSequence(code) => code == r.code
      case SelectMode(mode) => |before.a| < TWO32 && |before.b| < TWO32 && r.code == Code(mode, freq, |before.a|, |before.b|)
      case _ => true
    decreases |ops|
  {
    hide After, AfterAll, TargetOf, Fits, FitsAll;
    var n := |ops| - 1;
    LastOperation(u, ops, freq);
    if i < n {
      forall j | i < j < n ensures ops[..n][..j] == ops[..j] {
      }
      assert ops[..n][..i] == ops[..i];
      LatestUpload(u, ops[..n], freq, i);
      TargetIs(AfterAll(u, ops[..i], freq), ops[i]);
      OneTargetOnly(AfterAll(u, ops[..n], freq), ops[n], freq);
    } else {
      OneTargetOnly(AfterAll(u, ops[..n], freq), ops[n], freq);
    }
  }

  lemma LastOperation(u: Uploads, ops: seq<Operation>, freq: u32)
    requires FitsAll(u) && ops != [] && forall op :: op in ops ==> Fits(op)
    ensures AfterAll(u, ops, freq) == After(AfterAll(u, ops[..|ops| - 1], freq), ops[|ops| - 1], freq)
  {
    hide After, Fits, FitsAll;
  }

  lemma TargetIs(u: Uploads, op: Operation)
    requires TargetOf(u, op) != NoRegion
    ensures match TargetOf(u, op)
      case WaveformA => op.UploadWaveform? && op.ch == 0
      case WaveformB => op.UploadWaveform? && op.ch != 0
      case _ => op.UploadSequence? || op.SelectMode?
  {
  }

  /** An operation uploads what it should, and only to its target. */
  lemma OneTargetOnly(u: Uploads, op: Operation, freq: u32)
    requires FitsAll(u)
    ensures |u.a| < TWO32 && |u.b| < TWO32
    ensures
      var r := After(u, op, freq);
      && (TargetOf(u, op) != WaveformA ==> r.a == u.a)
      && (TargetOf(u, op) != WaveformB ==> r.b == u.b)
      && (TargetOf(u, op) != Instructions ==> r.code == u.code)
      && match op
         case UploadWaveform(ch, samples) => samples == if ch == 0 then r.a else r.b
         case UploadSequence(code) => code == r.code
         case SelectMode(mode) => TargetOf(u, op) != NoRegion ==> r.code == Code(mode, freq, |u.a|, |u.b|)
         case _ => r == u
  {
    hide Code, FitsWaveform, FitsSequence;
    SampleCount(u.a);
    SampleCount(u.b);
  }

  lemma SwitchOff(dev: Device)
    ensures
      var r := Store(dev, CACHE_CONTROL, [PutAll(Word(dev.mem, CACHE_CONTROL), [CACHE_ENABLE], false)]);
      !On(r.mem) && r.cache == dev.cache
  {
    hide Store, PutAll, HasBit, Preload;
    var x := PutAll(Word(dev.mem, CACHE_CONTROL), [CACHE_ENABLE], false);
    PutAllChanges(Word(dev.mem, CACHE_CONTROL), [CACHE_ENABLE], false, CACHE_ENABLE);
    StoreRegister(dev, CACHE_CONTROL, x);
  }

  lemma SwitchOn(dev: Device)
    ensures
      var r := Store(dev, CACHE_CONTROL, [PutAll(Word(dev.mem, CACHE_CONTROL), [CACHE_ENABLE], true)]);
      On(r.mem) && r.cache == if On(dev.mem) then dev.cache else Preload(r.mem)
  {
    hide Store, PutAll, HasBit, Preload;
    var x := PutAll(Word(dev.mem, CACHE_CONTROL), [CACHE_ENABLE], true);
    PutAllChanges(Word(dev.mem, CACHE_CONTROL), [CACHE_ENABLE], true, CACHE_ENABLE);
    StoreRegister(dev, CACHE_CONTROL, x);
  }

  /** The cache shows the words that are in SDRAM. */
  ghost predicate Agrees(cache: Memory, mem: Memory) {
    forall a: u32 :: Cached(a) ==> Word(cache, a) == Word(mem, a)
  }

  /** A sequence upload that finds the cache enabled and does not switch it off writes SDRAM behind
      it. The cache agrees afterwards exactly if the part of the upload that is cached already
      stood there. */
  lemma UnswitchedUpload(dev: Device, code: seq<u64>)
    requires FitsSequence(code) && On(dev.mem) && Agrees(dev.cache, dev.mem)
    ensures
      var words, r := CodeWords(code), Store(dev, REGION_CODE, CodeWords(code));
      && On(r.mem) && (r.clean <==> dev.clean && code == [])
      && (Agrees(r.cache, r.mem) <==>
            forall i :: 0 <= i < |words| && i < 0x100 ==> Word(dev.mem, REGION_CODE + 4 * i) == words[i])
  {
    hide Datagrams.Write, On, Halves, Word;
    var words := CodeWords(code);
    var r := Store(dev, REGION_CODE, words);
    StoreSdram(dev, REGION_CODE, words);
    WriteHolds(dev.mem, REGION_CODE, words);
    if forall i :: 0 <= i < |words| && i < 0x100 ==> Word(dev.mem, REGION_CODE + 4 * i) == words[i] {
      forall a: u32 | Cached(a) ensures Word(r.mem, a) == Word(dev.mem, a) {
        SameWord(dev.mem, REGION_CODE, words, a);
      }
    } else {
      var i :| 0 <= i < |words| && i < 0x100 && Word(dev.mem, REGION_CODE + 4 * i) != words[i];
      assert Cached(REGION_CODE + 4 * i) && Word(r.mem, REGION_CODE + 4 * i) == words[i];
    }
  }

  /** Between words, and behind the data, a write changes nothing. */
  lemma SameWord(mem: Memory, addr: u32, words: seq<u32>, a: u32)
    requires addr + 4 * |words| <= TWO32
    requires forall i :: 0 <= i < |words| && 4 * i <= a - addr ==> Word(mem, addr + 4 * i) == words[i]
    ensures Word(Datagrams.Write(mem, addr, words), a) == Word(mem, a)
  {
    hide Datagrams.Write;
    WriteStores(mem, addr, words, a);
    if addr <= a < addr + 4 * |words| && (a - addr) % 4 == 0 {
      assert a == addr + 4 * ((a - addr) / 4);
    }
  }

  /** The instruction at pc, as the sequencer fetches it. */
  function Fetched(cache: Memory, pc: nat): u64 {
    Word(cache, Wrap(0x2000_0000 + 8 * pc)) + TWO32 * Word(cache, Wrap(0x2000_0000 + 8 * pc + 4))
  }

  /** The sequencer, fetching from the cache. */
  function RunFrom(cache: Memory, m: Machine, n: nat): Machine {
    if n == 0 then m
    else
      var before := RunFrom(cache, m, n - 1);
      Execute(before, Decode(Fetched(cache, before.pc)))
  }

  /** With a waveform-mode program in the cache it never fetches anything else. */
  lemma {:induction false} CacheRuns(cache: Memory, mode: RunMode, freq: u32, lenA: u32, lenB: u32, n: nat)
    requires WaveformMode(mode) && (lenA > 0 || lenB > 0)
    requires
      var code := Code(mode, freq, lenA, lenB);
      forall pc :: 0 <= pc < |code| ==> Fetched(cache, pc) == code[pc]
    ensures RunFrom(cache, START, n) == Run(Code(mode, freq, lenA, lenB), START, n)
  {
    hide Code, Execute, Decode, Fetched;
    if n > 0 {
      var code := Code(mode, freq, lenA, lenB);
      CacheRuns(cache, mode, freq, lenA, lenB, n - 1);
      RunSum(code, START, n - 1, 1);
      RunOne(code, Run(code, START, n - 1));
      StaysInside(mode, freq, lenA, lenB, n - 1);
    }
  }

  /** So it plays both waveforms at full length, pass after pass. */
  lemma CachePlays(cache: Memory, mode: RunMode, freq: u32, lenA: u32, lenB: u32, k: nat)
    requires WaveformMode(mode) && (lenA > 0 || lenB > 0) && Playable(lenA) && Playable(lenB)
    requires
      var code := Code(mode, freq, lenA, lenB);
      forall pc :: 0 <= pc < |code| ==> Fetched(cache, pc) == code[pc]
    ensures
      var n, at := |Code(mode, freq, lenA, lenB)|, LoopStart(mode);
      && at < n
      && RunFrom(cache, START, at + Steps(k, n - at)).trace == Prologue(mode, freq) + Repeat(Pass(mode, lenA, lenB), k)
  {
    hide Code, Execute, Decode, Fetched, Run, RunFrom, Playable;
    Passes(mode, freq, lenA, lenB, k);
    CacheRuns(cache, mode, freq, lenA, lenB, LoopStart(mode) + Steps(k, |Code(mode, freq, lenA, lenB)| - LoopStart(mode)));
  }

  /** A program that fits one cache line is what the sequencer fetches. */
  lemma FetchedCode(mem: Memory, code: seq<u64>, pc: nat)
    requires FitsSequence(code) && |code| <= 128 && pc < |code| && Holds(mem, REGION_CODE, CodeWords(code))
    ensures Fetched(Preload(mem), pc) == code[pc]
  {
    hide Halves;
    HalvesAt(code, pc);
    var words := CodeWords(code);
    assert words[2 * pc] == Halves(code)[2 * pc] && words[2 * pc + 1] == Halves(code)[2 * pc + 1];
    CachedWord(mem, REGION_CODE + 4 * (2 * pc));
    CachedWord(mem, REGION_CODE + 4 * (2 * pc + 1));
  }

  lemma CachedWord(mem: Memory, a: u32)
    ensures Cached(a) ==> Word(Preload(mem), a) == Word(mem, a)
  {
  }

  /** Sets or clears the bits, one after the other. */
  method PutBits(x: u32, bits: seq<bit>, on: bool) returns (y: u32)
    ensures y == PutAll(x, bits, on)
  {
    hide Put;
    y := x;
    var i := 0;
    assert bits[0..] == bits;
    while i < |bits|
      invariant i <= |bits| && PutAll(y, bits[i..], on) == PutAll(x, bits, on)
    {
      assert bits[i..][1..] == bits[i + 1..];
      y := Put(y, bits[i], on);
      i := i + 1;
    }
  }

  /** The cache switch: what stays. */
  lemma Switched(dev: Device, u: Uploads, on: bool)
    requires Loaded(dev.mem, u)
    ensures
      var r := Store(dev, CACHE_CONTROL, [PutAll(Word(dev.mem, CACHE_CONTROL), [CACHE_ENABLE], on)]);
      && Loaded(r.mem, u)
      && r.clean == dev.clean
      && Preload(r.mem) == Preload(dev.mem)
      && (forall k :: k != CACHE_ENABLE ==> HasBit(Word(r.mem, CACHE_CONTROL), k) == HasBit(Word(dev.mem, CACHE_CONTROL), k))
      && (forall a: u32 :: a != CACHE_CONTROL ==> Word(r.mem, a) == Word(dev.mem, a))
  {
    hide Store, PutAll, HasBit, Preload, Loaded, On;
    var w := Word(dev.mem, CACHE_CONTROL);
    var x := PutAll(w, [CACHE_ENABLE], on);
    StoreRegister(dev, CACHE_CONTROL, x);
    LoadedRegister(dev.mem, u, CACHE_CONTROL, x);
    forall k: nat | k != CACHE_ENABLE ensures HasBit(x, k) == HasBit(w, k) {
      PutAllChanges(w, [CACHE_ENABLE], on, k);
    }
  }

  /** Bits of the control register: what changes. */
  lemma ControlPut(dev: Device, u: Uploads, bits: seq<bit>, on: bool)
    requires Loaded(dev.mem, u)
    ensures
      var r := Store(dev, CONTROL, [PutAll(Word(dev.mem, CONTROL), bits, on)]);
      && Loaded(r.mem, u)
      && r.clean == dev.clean && r.cache == dev.cache && On(r.mem) == On(dev.mem)
      && Preload(r.mem) == Preload(dev.mem)
      && (forall k :: HasBit(Word(r.mem, CONTROL), k) == if k in bits then on else HasBit(Word(dev.mem, CONTROL), k))
      && (forall a: u32 :: a != CONTROL ==> Word(r.mem, a) == Word(dev.mem, a))
  {
    hide Store, PutAll, HasBit, Preload, Loaded, On;
    var w := Word(dev.mem, CONTROL);
    var x := PutAll(w, bits, on);
    StoreRegister(dev, CONTROL, x);
    LoadedRegister(dev.mem, u, CONTROL, x);
    forall k: nat ensures HasBit(x, k) == if k in bits then on else HasBit(w, k) {
      PutAllChanges(w, bits, on, k);
    }
  }

  lemma CodeWordsShape(code: seq<u64>)
    ensures |CodeWords(code)| % 4 == 0
  {
  }

  lemma WaveformWordsShape(wf: seq<i16>)
    requires |wf| % 2 == 0
    ensures |WaveformWords(wf)| % 4 == 0
  {
  }

  lemma SdramOnly(mem: Memory, addr: u32, data: seq<u32>, reg: u32)
    requires addr + 4 * |data| <= SDRAM_END <= reg
    ensures Word(Datagrams.Write(mem, addr, data), reg) == Word(mem, reg)
  {
    hide Datagrams.Write;
    WriteStores(mem, addr, data, reg);
  }

  lemma FrequencyKept(mem: Memory, ch: int, wf: seq<i16>)
    requires FitsWaveform(wf) && |wf| < TWO32
    ensures
      Word(Datagrams.Write(mem, Region(ch), WaveformWords(wf))[LengthRegister(ch) := |wf|], FREQUENCY) == Word(mem, FREQUENCY)
  {
    hide Datagrams.Write, WaveformWords;
    SdramOnly(mem, Region(ch), WaveformWords(wf), FREQUENCY);
  }

  lemma FetchedAll(mem: Memory, code: seq<u64>)
    requires FitsSequence(code) && |code| <= 128 && Holds(mem, REGION_CODE, CodeWords(code))
    ensures forall pc :: 0 <= pc < |code| ==> Fetched(Preload(mem), pc) == code[pc]
  {
    hide FitsSequence, Holds, CodeWords, Fetched, Preload;
    forall pc | 0 <= pc < |code| ensures Fetched(Preload(mem), pc) == code[pc] {
      FetchedCode(mem, code, pc);
    }
  }

  /** The driver of one board. */
  class Aps2 {
    const host: Host
    var dev: Device
    ghost var uploads: Uploads

    /** On an APS host the cache, while enabled, agrees with SDRAM, which was never written behind
        its back. */
    ghost predicate Valid() reads this { Loaded(dev.mem, uploads) && (host.Aps? ==> Coherent(dev)) }

    constructor (host: Host, dev: Device)
      requires host.Aps? ==> Coherent(dev)
      requires Word(dev.mem, LENGTH_A) == Word(dev.mem, LENGTH_B) == 0
      ensures Valid() && this.host == host && this.dev == dev && uploads == Uploads([], [], [])
    {
      this.host, this.dev, uploads := host, dev, Uploads([], [], []);
      assert WaveformWords([]) == [] && CodeWords([]) == [];
    }

    function Register(a: u32): u32 reads this { Word(dev.mem, a) }

    method WriteMemory(addr: u32, data: seq<u32>) returns (ok: bool)
      requires OneTarget(addr, data)
      modifies this`dev
      ensures ok <==> Writable(addr, data)
      ensures dev == if ok then Store(old(dev), addr, data) else old(dev)
    {
      hide Store, Datagrams.Write, DatagramsOf, OneTarget, Writable, ApplyPackets, ApplyDatagrams;
      var r := Datagrams.WriteMemory(addr, data);
      if !r.Ok? { return false; }
      var dgs, i := r.value, 0;
      assert dgs[0..] == dgs;
      while i < |dgs|
        invariant i <= |dgs| && StoreAll(dev, dgs[i..]) == StoreAll(old(dev), dgs)
      {
        assert dgs[i..][1..] == dgs[i + 1..];
        dev := Store(dev, dgs[i].addr, dgs[i].payload);
        i := i + 1;
      }
      StoreChunks(old(dev), addr, data);
      return true;
    }

    method WriteRegister(addr: u32, x: u32)
      requires addr >= SDRAM_END
      modifies this`dev
      ensures dev == Store(old(dev), addr, [x])
    {
      hide Store;
      var _ := WriteMemory(addr, [x]);
    }

    method SetRegisterBit(addr: u32, bits: seq<bit>)
      requires addr >= SDRAM_END
      modifies this`dev
      ensures dev == Store(old(dev), addr, [PutAll(old(Register(addr)), bits, true)])
    {
      var x := PutBits(Register(addr), bits, true);
      WriteRegister(addr, x);
    }

    method ClearRegisterBit(addr: u32, bits: seq<bit>)
      requires addr >= SDRAM_END
      modifies this`dev
      ensures dev == Store(old(dev), addr, [PutAll(old(Register(addr)), bits, false)])
    {
      var x := PutBits(Register(addr), bits, false);
      WriteRegister(addr, x);
    }

    /** Lets the cache load (APS host only), then starts the sequencer. */
    method Run()
      requires Valid()
      modifies this`dev
      ensures Valid()
      ensures On(dev.mem) == (host.Aps? || old(On(dev.mem)))
      ensures forall k :: HasBit(Register(0x44a0_0024), k) == (k == 0 || k == 4 || old(HasBit(Register(0x44a0_0024), k)))
      ensures forall k :: k != CACHE_ENABLE ==> HasBit(Register(CACHE_CONTROL), k) == old(HasBit(Register(CACHE_CONTROL), k))
      ensures forall a: u32 :: a != CONTROL && a != CACHE_CONTROL ==> Register(a) == old(Register(a))
    {
      hide Store, PutAll, HasBit, Preload, Loaded, On, PutBit;
      if host.Aps? {
        SwitchOn(dev);
        Switched(dev, uploads, true);
        SetRegisterBit(CACHE_CONTROL, [CACHE_ENABLE]);
      }
      ghost var d1 := dev;
      ControlPut(d1, uploads, [SM_ENABLE], true);
      SetRegisterBit(CONTROL, [SM_ENABLE]);
      ghost var d2 := dev;
      ControlPut(d2, uploads, [TRIGGER_ENABLE], true);
      SetRegisterBit(CONTROL, [TRIGGER_ENABLE]);
    }

    /** Holds the cache (APS host only) and the sequencer in reset. */
    method Stop()
      requires Valid()
      modifies this`dev
      ensures Valid()
      ensures On(dev.mem) == (host.Tdm? && old(On(dev.mem)))
      ensures forall k :: HasBit(Register(0x44a0_0024), k) == (k != 0 && k != 4 && old(HasBit(Register(0x44a0_0024), k)))
      ensures forall k :: k != CACHE_ENABLE ==> HasBit(Register(CACHE_CONTROL), k) == old(HasBit(Register(CACHE_CONTROL), k))
      ensures forall a: u32 :: a != CONTROL && a != CACHE_CONTROL ==> Register(a) == old(Register(a))
    {
      hide Store, PutAll, HasBit, Preload, Loaded, On, PutBit;
      if host.Aps? {
        SwitchOff(dev);
        Switched(dev, uploads, false);
        ClearRegisterBit(CACHE_CONTROL, [CACHE_ENABLE]);
      }
      ControlPut(dev, uploads, [SM_ENABLE, TRIGGER_ENABLE], false);
      ClearRegisterBit(CONTROL, [SM_ENABLE, TRIGGER_ENABLE]);
    }

    /** Cache off, data, length register, cache on: on either host. */
    method WriteWaveform(ch: int, wf: seq<i16>)
      requires Valid() && FitsWaveform(wf)
      modifies this`dev, this`uploads
      ensures Valid() && uploads == WithWaveform(old(uploads), ch, wf)
      ensures On(dev.mem) && dev.cache == Preload(dev.mem) && dev.clean == old(dev.clean)
      ensures Register(FREQUENCY) == old(Register(FREQUENCY))
    {
      hide Store, PutAll, HasBit, Preload, Loaded, On, WaveformWords, Datagrams.Write, OneTarget, Word;
      SampleCount(wf);
      SwitchOff(dev);
      Switched(dev, uploads, false);
      ClearRegisterBit(CACHE_CONTROL, [CACHE_ENABLE]);
      var packed := PackWaveform(wf);
      WaveformWordsShape(wf);
      ghost var off := dev;
      var _ := PutSdram(Region(ch), packed);
      ghost var stored := dev;
      StoreRegister(stored, LengthRegister(ch), |wf|);
      WriteRegister(LengthRegister(ch), |wf|);
      LoadedWaveform(off.mem, uploads, ch, wf);
      FrequencyKept(off.mem, ch, wf);
      uploads := WithWaveform(uploads, ch, wf);
      SwitchOn(dev);
      Switched(dev, uploads, true);
      SetRegisterBit(CACHE_CONTROL, [CACHE_ENABLE]);
    }

    /** A write to SDRAM only. */
    method PutSdram(addr: u32, data: seq<u32>) returns (ok: bool)
      requires addr + 4 * |data| <= SDRAM_END && addr % 16 == 0 && |data| % 4 == 0
      modifies this`dev
      ensures ok && dev == Device(Datagrams.Write(old(dev.mem), addr, data), old(dev.cache), old(dev.clean && !(On(dev.mem) && data != [])))
      ensures On(dev.mem) == old(On(dev.mem))
    {
      hide Store, On, Datagrams.Write;
      StoreSdram(dev, addr, data);
      ok := WriteMemory(addr, data);
    }

    /** On an APS host the cache is off while the instructions are written and loads them
        afterwards; on a TDM host they are written as they are. */
    method WriteSequence(code: seq<u64>)
      requires Valid() && FitsSequence(code)
      modifies this`dev, this`uploads
      ensures Valid() && uploads == old(uploads).(code := code)
      ensures host.Aps? ==> On(dev.mem) && dev.cache == Preload(dev.mem) && dev.clean == old(dev.clean)
      ensures host.Tdm? ==> dev == Store(old(dev), REGION_CODE, CodeWords(code))
      ensures Register(FREQUENCY) == old(Register(FREQUENCY))
    {
      hide Store, PutAll, HasBit, Preload, Loaded, On, CodeWords, Datagrams.Write, OneTarget, Word;
      var packed := PackSequence(code);
      CodeWordsShape(code);
      if host.Aps? {
        SwitchOff(dev);
        Switched(dev, uploads, false);
        ClearRegisterBit(CACHE_CONTROL, [CACHE_ENABLE]);
      }
      ghost var before := dev;
      StoreSdram(before, REGION_CODE, packed);
      var _ := PutSdram(REGION_CODE, packed);
      LoadedCode(before.mem, uploads, code);
      SdramOnly(before.mem, REGION_CODE, packed, FREQUENCY);
      uploads := uploads.(code := code);
      if host.Aps? {
        SwitchOn(dev);
        Switched(dev, uploads, true);
        SetRegisterBit(CACHE_CONTROL, [CACHE_ENABLE]);
      }
    }

    /** The frequency and the waveform lengths that are in the registers, and so the waveforms that
        were uploaded last, decide the program. */
    method SetRunMode(mode: RunMode) returns (r: Compiled)
      requires Valid()
      modifies this`dev, this`uploads
      ensures Valid()
      ensures r.Program? <==> WaveformMode(mode) && (old(uploads).a != [] || old(uploads).b != [])
      ensures !r.Program? ==> dev == old(dev) && uploads == old(uploads)
      ensures mode.RunSequence? ==> r.Unchanged?
      ensures mode.OtherMode? ==> r.UnknownMode?
      ensures WaveformMode(mode) && !r.Program? ==> r.NoWaveforms?
      ensures FitsAll(old(uploads)) && uploads == After(old(uploads), SelectMode(mode), old(Register(FREQUENCY)))
      ensures r.Program? ==> uploads.code == r.code
      ensures host.Aps? && r.Program? ==> On(dev.mem) && dev.cache == Preload(dev.mem)
      ensures host.Aps? && r.Program? ==> |r.code| <= 8 && forall pc :: 0 <= pc < |r.code| ==> Fetched(dev.cache, pc) == r.code[pc]
      ensures Register(FREQUENCY) == old(Register(FREQUENCY))
    {
      hide Preload, On, CodeWords, Code, Fetched, Word, HasBit, WaveformWords, FitsWaveform, FitsSequence, Coherent, Holds;
      SampleCount(uploads.a);
      SampleCount(uploads.b);
      ghost var freq := Register(FREQUENCY);
      r := Compile(mode, Register(FREQUENCY), Register(LENGTH_A), Register(LENGTH_B));
      if r.Program? {
        CodeShort(mode, freq, |uploads.a|, |uploads.b|);
        WriteSequence(r.code);
        if host.Aps? {
          FetchedAll(dev.mem, r.code);
        }
      }
    }

    /** Any run of operations on an APS host: every region is left with what was uploaded to it last,
        SDRAM was never written while the cache was enabled, and an enabled cache agrees with it. */
    method Perform(ops: seq<Operation>)
      requires host.Aps? && Valid() && forall op :: op in ops ==> Fits(op)
      modifies this`dev, this`uploads
      ensures Valid() && FitsAll(old(uploads))
      ensures uploads == AfterAll(old(uploads), ops, old(Register(FREQUENCY)))
      ensures On(dev.mem) == OnAfterAll(old(uploads), old(On(dev.mem)), ops, old(Register(FREQUENCY)))
    {
      hide Preload, On, Code, HasBit, FitsWaveform, FitsSequence, Coherent, Holds, After, OnAfter, Word, WithWaveform;
      ghost var freq := Register(FREQUENCY);
      var i := 0;
      while i < |ops|
        invariant i <= |ops| && Valid() && Register(FREQUENCY) == freq && FitsAll(old(uploads))
        invariant uploads == AfterAll(old(uploads), ops[..i], freq)
        invariant On(dev.mem) == OnAfterAll(old(uploads), old(On(dev.mem)), ops[..i], freq)
      {
        Do(ops[i], freq);
        assert ops[..i + 1][..i] == ops[..i];
        i := i + 1;
      }
      assert ops[..i] == ops;
    }

    method Do(op: Operation, ghost freq: u32)
      requires host.Aps? && Valid() && Fits(op) && Register(FREQUENCY) == freq
      modifies this`dev, this`uploads
      ensures Valid() && FitsAll(old(uploads)) && Register(FREQUENCY) == freq
      ensures uploads == After(old(uploads), op, freq)
      ensures On(dev.mem) == OnAfter(old(uploads), old(On(dev.mem)), op)
    {
      hide Preload, On, Code, HasBit, FitsWaveform, FitsSequence, Coherent, Holds, Word, WithWaveform;
      match op
      case StartPlaying => Run();
      case StopPlaying => Stop();
      case UploadWaveform(ch, samples) => WriteWaveform(ch, samples);
      case UploadSequence(code) => WriteSequence(code);
      case SelectMode(mode) => var _ := SetRunMode(mode);
    }
  }

  /** Two steps that take any board on a TDM host there: a waveform upload leaves the cache enabled, and
      a sequence that is not in SDRAM yet then makes it disagree. */
  method OutOfStep(board: Aps2)
    requires board.host.Tdm? && board.Valid()
    modifies board
    ensures board.Valid() && On(board.dev.mem) && !Agrees(board.dev.cache, board.dev.mem)
  {
    hide Store, On, Loaded, HasBit, CodeWords;
    FewWords();
    board.WriteWaveform(0, [0, 0]);
    ghost var before := board.dev;
    forall a: u32 | Cached(a) ensures Word(before.cache, a) == Word(before.mem, a) {
      CachedWord(before.mem, a);
    }
    var x := (board.Register(REGION_CODE) + 1) % TWO32;
    OneInstruction(x);
    UnswitchedUpload(before, [x]);
    assert Word(before.mem, REGION_CODE + 4 * 0) != CodeWords([x])[0];
    board.WriteSequence([x]);
  }

  lemma FewWords()
    ensures FitsWaveform([0, 0])
  {
  }

  lemma OneInstruction(x: u32)
    ensures FitsSequence([x]) && |CodeWords([x])| > 0 && CodeWords([x])[0] == x
  {
  }
}
