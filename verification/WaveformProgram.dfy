/** Waveform mode: the instruction program that set_run_mode writes (src/lib/APS2.cpp), and what
    the sequencer does when it runs it (doc/instruction-set.rst). */
module WaveformProgram {
  import opened Words

  const TWO24 := 0x100_0000
  const TWO56 := 0x100_0000_0000_0000
  const TWO64 := 0x1_0000_0000_0000_0000

  type u64 = x: int | 0 <= x < 0x1_0000_0000_0000_0000

  // ---------- 64-bit arithmetic ----------

  /** Bitwise or. */
  function BitOr(a: nat, b: nat): (c: nat)
    ensures c >= a && c >= b
  {
    if a == 0 then b
    else if b == 0 then a
    else 2 * BitOr(a / 2, b / 2) + if a % 2 == 1 || b % 2 == 1 then 1 else 0
  }

  function Pow2(k: nat): nat { if k == 0 then 1 else 2 * Pow2(k - 1) }

  lemma Pow2Values()
    ensures Pow2(32) == TWO32 && Pow2(56) == TWO56 && Pow2(64) == TWO64
  {
    hide Pow2;
    Pow2Sum(8, 8);
    Pow2Sum(16, 8);
    Pow2Sum(16, 16);
    Pow2Sum(32, 24);
    Pow2Sum(32, 32);
    Pow2Eight();
  }

  lemma Pow2Eight()
    ensures Pow2(8) == 0x100
  {
  }

  lemma {:induction false} Pow2Sum(j: nat, k: nat)
    ensures Pow2(j + k) == Pow2(j) * Pow2(k)
  {
    if j > 0 {
      Pow2Sum(j - 1, k);
      assert Pow2(j + k) == 2 * (Pow2(j - 1) * Pow2(k));
    }
  }

  lemma {:induction false} OrBelow(k: nat, a: nat, b: nat)
    requires a < Pow2(k) && b < Pow2(k)
    ensures BitOr(a, b) < Pow2(k)
  {
    if k > 0 && a > 0 && b > 0 {
      OrBelow(k - 1, a / 2, b / 2);
    }
  }

  /** Disjoint bits add up. */
  lemma {:induction false} OrAdds(k: nat, hi: nat, lo: nat)
    requires lo < Pow2(k)
    ensures BitOr(hi * Pow2(k), lo) == hi * Pow2(k) + lo
  {
    if k > 0 && hi > 0 && lo > 0 {
      var h := hi * Pow2(k - 1);
      assert hi * Pow2(k) == 2 * h;
      assert h > 0 && 2 * h / 2 == h && 2 * h % 2 == 0;
      OrAdds(k - 1, hi, lo / 2);
    }
  }

  function Or(a: u64, b: u64): u64 {
    Pow2Values();
    OrBelow(64, a, b);
    BitOr(a, b)
  }

  lemma OrFields(hi: nat, lo: nat)
    ensures hi < TWO32 && lo < TWO32 ==> Or(hi * TWO32, lo) == hi * TWO32 + lo
    ensures hi < 0x100 && lo < TWO56 ==> Or(hi * TWO56, lo) == hi * TWO56 + lo
  {
    hide BitOr;
    Pow2Values();
    if hi < TWO32 && lo < TWO32 { OrAdds(32, hi, lo); }
    if hi < 0x100 && lo < TWO56 { OrAdds(56, hi, lo); }
  }

  // ---------- instructions ----------

  /** An instruction word, field by field. For engines and ncos bit i stands for number i. */
  datatype Instruction =
    | Waveform(engines: int, write: bool, op: int, pair: bool, count: int, address: int)
    | Marker(channel: int, write: bool, op: int, transition: int, state: int, count: int)
    | Wait(write: bool, op: int)
    | Sync(write: bool, op: int)
    | Modulator(write: bool, op: int, ncos: int, value: int)
    | Goto(address: int)
    | Other(opcode: int)

  function Decode(x: u64): Instruction {
    var header, payload := x / TWO56, x % TWO56;
    DecodePayload(header / 16, header / 4 % 4, header % 2 == 1, payload)
  }

  function DecodePayload(opcode: int, engine: int, write: bool, payload: nat): Instruction {
    match opcode
    case 0x0 =>
      var upper := payload / TWO24;
      Waveform(engine, write, upper / 0x40_0000 % 4, upper / 0x20_0000 % 2 == 1, upper % 0x20_0000, payload % TWO24)
    case 0x1 =>
      var upper := payload / TWO32;
      Marker(engine, write, upper / 0x4000 % 4, upper / 2 % 16, upper % 2, payload % TWO32)
    case 0x2 => Wait(write, payload / TWO32 / 0x4000 % 4)
    case 0x9 => Sync(write, payload / TWO32 / 0x4000 % 4)
    case 0xa =>
      var upper := payload / TWO32;
      Modulator(write, upper / 0x2000 % 8, upper / 0x100 % 16, payload % TWO32)
    case 0x6 => Goto(payload % 0x400_0000)
    case _ => Other(opcode)
  }

  // ---------- the program ----------

  datatype RunMode = RunSequence | TrigWaveform | CwWaveform | OtherMode

  datatype Compiled = Program(code: seq<u64>) | Unchanged | NoWaveforms | UnknownMode

  function Scaffold(mode: RunMode): seq<u64> {
    if mode.TrigWaveform? then
      [0xa100_6100_0000_0000, 0xa100_2100_0000_0000, 0x2100_4000_0000_0000, 0x6000_0000_0000_0001]
    else
      [0xa100_6100_0000_0000, 0x9100_8000_0000_0000, 0x6000_0000_0000_0002]
  }

  /** The length in quad samples, less one, as an unsigned 64-bit number. */
  function Reload(length: u32): u64 { (length / 4 - 1) % TWO64 }

  function WaveWord(base: u64, length: u32): u64 { Or(base, Reload(length) * TWO24 % TWO64) }

  function InsertBeforeLast(s: seq<u64>, x: u64): seq<u64> requires s != [] { s[..|s| - 1] + [x] + [s[|s| - 1]] }

  /** set_run_mode up to the upload, given the three registers that it reads. */
  method Compile(mode: RunMode, freq: u32, lenA: u32, lenB: u32) returns (r: Compiled)
    ensures r == match mode
      case RunSequence => Unchanged
      case OtherMode => UnknownMode
      case _ => if lenA == 0 && lenB == 0 then NoWaveforms else Program(Code(mode, freq, lenA, lenB))
  {
    hide Or, Reload, WaveWord, Head, Last, Markers, Waves;
    if mode.RunSequence? { return Unchanged; }
    if mode.OtherMode? { return UnknownMode; }
    var code := Scaffold(mode);
    code := code[0 := Or(code[0], freq)];
    if lenA == 0 && lenB == 0 { return NoWaveforms; }
    ghost var head, last := Head(mode, freq), Last(mode);
    HeadAndLast(mode, freq);
    code := InsertMarkers(mode, code, lenA, lenB, head, last);
    code := InsertWaves(code, lenA, lenB, head + Markers(mode, lenA, lenB), last);
    return Program(code);
  }

  lemma HeadAndLast(mode: RunMode, freq: u32)
    ensures Scaffold(mode)[0 := Or(Scaffold(mode)[0], freq)] == Head(mode, freq) + [Last(mode)]
  {
  }

  method InsertMarkers(mode: RunMode, scaffold: seq<u64>, lenA: u32, lenB: u32, ghost head: seq<u64>, ghost last: u64)
    returns (code: seq<u64>)
    requires scaffold == head + [last]
    ensures code == head + Markers(mode, lenA, lenB) + [last]
  {
    hide Or, Reload;
    code := scaffold;
    if mode.TrigWaveform? {
      if lenA > 0 {
        code := InsertBeforeLast(code, Or(0x1000_0001_0000_0000, Reload(lenA)));
      }
      if lenB > 0 {
        code := InsertBeforeLast(code, Or(0x1400_0001_0000_0000, Reload(lenB)));
      }
    }
  }

  method InsertWaves(scaffold: seq<u64>, lenA: u32, lenB: u32, ghost head: seq<u64>, ghost last: u64)
    returns (code: seq<u64>)
    requires scaffold == head + [last]
    ensures code == head + Waves(lenA, lenB) + [last]
  {
    hide WaveWord;
    code := scaffold;
    if lenA == lenB {
      code := InsertBeforeLast(code, WaveWord(0x0d00_0000_0000_0000, lenA));
    } else if lenB == 0 {
      code := InsertBeforeLast(code, WaveWord(0x0500_0000_0000_0000, lenA));
    } else if lenA == 0 {
      code := InsertBeforeLast(code, WaveWord(0x0900_0000_0000_0000, lenB));
    } else {
      code := InsertBeforeLast(code, WaveWord(0x0400_0000_0000_0000, lenA));
      code := InsertBeforeLast(code, WaveWord(0x0900_0000_0000_0000, lenB));
    }
  }

  /** The scaffold in front of the insertion point, with the frequency. */
  function Head(mode: RunMode, freq: u32): seq<u64> {
    var s := Scaffold(mode);
    [Or(s[0], freq)] + s[1..|s| - 1]
  }

  function Last(mode: RunMode): u64 { var s := Scaffold(mode); s[|s| - 1] }

  function Markers(mode: RunMode, lenA: u32, lenB: u32): seq<u64> {
    if !mode.TrigWaveform? then []
    else
      (if lenA > 0 then [Or(0x1000_0001_0000_0000, Reload(lenA))] else []) +
      (if lenB > 0 then [Or(0x1400_0001_0000_0000, Reload(lenB))] else [])
  }

  function Waves(lenA: u32, lenB: u32): seq<u64> {
    if lenA == lenB then [WaveWord(0x0d00_0000_0000_0000, lenA)]
    else if lenB == 0 then [WaveWord(0x0500_0000_0000_0000, lenA)]
    else if lenA == 0 then [WaveWord(0x0900_0000_0000_0000, lenB)]
    else [WaveWord(0x0400_0000_0000_0000, lenA), WaveWord(0x0900_0000_0000_0000, lenB)]
  }

  function Code(mode: RunMode, freq: u32, lenA: u32, lenB: u32): seq<u64> {
    Head(mode, freq) + Markers(mode, lenA, lenB) + Waves(lenA, lenB) + [Last(mode)]
  }

  // ---------- the sequencer ----------

  /** What is dispatched together: samples for the waveform engines of the two channels, and for
      how many samples the two markers are high. 0 where nothing has been queued. */
  datatype Group = Group(a: nat, b: nat, m1: nat, m2: nat)

  const NOTHING := Group(0, 0, 0, 0)

  datatype Event =
    | SetFrequency(ncos: int, increment: int)
    | ResetPhase(ncos: int)
    | WaitTrigger
    | WaitSync
    | Play(group: Group)

  /** fault: there has been an instruction that has no meaning here, or an engine queued twice in a
      group. The machine then goes on with the next instruction. */
  datatype Machine = Machine(pc: nat, group: Group, trace: seq<Event>, fault: bool)

  const START := Machine(0, NOTHING, [], false)

  function Emit(m: Machine, e: Event): Machine { m.(pc := m.pc + 1, trace := m.trace + [e]) }

  /** Queues g, and with the write flag dispatches the whole group. */
  function Queue(m: Machine, g: Group, write: bool): Machine {
    if write then Emit(m.(group := NOTHING), Play(g)) else m.(pc := m.pc + 1, group := g)
  }

  function Execute(m: Machine, i: Instruction): Machine {
    var bad := m.(pc := m.pc + 1, fault := true);
    var g := m.group;
    match i
      case Waveform(engines, write, op, pair, count, address) =>
        if op != 0 || pair || address != 0 || count < 0 then bad
        else
          var n := 4 * (count + 1);
          if engines == 1 && g.a == 0 then Queue(m, g.(a := n), write)
          else if engines == 2 && g.b == 0 then Queue(m, g.(b := n), write)
          else if engines == 3 && g.a == 0 && g.b == 0 then Queue(m, g.(a := n, b := n), write)
          else bad
      case Marker(channel, write, op, transition, state, count) =>
        if op != 0 || transition != 0 || state != 1 || count < 0 then bad
        else
          var n := 4 * (count + 1);
          if channel == 0 && g.m1 == 0 then Queue(m, g.(m1 := n), write)
          else if channel == 1 && g.m2 == 0 then Queue(m, g.(m2 := n), write)
          else bad
      case Wait(write, op) => if write && op == 1 && g == NOTHING then Emit(m, WaitTrigger) else bad
      case Sync(write, op) => if write && op == 2 && g == NOTHING then Emit(m, WaitSync) else bad
      case Modulator(write, op, ncos, value) =>
        if !write || g != NOTHING then bad
        else if op == 3 then Emit(m, SetFrequency(ncos, value))
        else if op == 1 && value == 0 then Emit(m, ResetPhase(ncos))
        else bad
      case Goto(address) => if address >= 0 then m.(pc := address, fault := m.fault || g != NOTHING) else bad
      case Other(_) => bad
  }

  /** Behind the program stands padding. */
  function Fetch(code: seq<u64>, pc: nat): u64 { if pc < |code| then code[pc] else 0xffff_ffff_ffff_ffff }

  function Run(code: seq<u64>, m: Machine, n: nat): Machine
    decreases n
  {
    if n == 0 then m else Run(code, Execute(m, Decode(Fetch(code, m.pc))), n - 1)
  }

  lemma {:induction false} RunSum(code: seq<u64>, m: Machine, j: nat, k: nat)
    ensures Run(code, m, j + k) == Run(code, Run(code, m, j), k)
    decreases j
  {
    hide Execute, Decode, Fetch;
    if j > 0 {
      RunSum(code, Execute(m, Decode(Fetch(code, m.pc))), j - 1, k);
    }
  }

  /** The instructions one after the other. */
  function Line(m: Machine, code: seq<u64>): Machine
    decreases |code|
  {
    if code == [] then m else Line(Execute(m, Decode(code[0])), code[1..])
  }

  predicate NoGoto(code: seq<u64>) { forall x :: x in code ==> !Decode(x).Goto? }

  lemma {:induction false} RunLine(code: seq<u64>, m: Machine, piece: seq<u64>, at: nat)
    requires at + |piece| <= |code| && code[at..at + |piece|] == piece && NoGoto(piece)
    requires m.pc == at
    ensures Run(code, m, |piece|) == Line(m, piece) && Line(m, piece).pc == at + |piece|
    decreases |piece|
  {
    hide Decode;
    if piece != [] {
      assert code[at] == piece[0];
      assert code[at + 1..at + 1 + |piece[1..]|] == piece[1..];
      assert NoGoto(piece[1..]);
      RunLine(code, Execute(m, Decode(piece[0])), piece[1..], at + 1);
    }
  }

  /** A fault is never forgotten. */
  lemma {:induction false} LineFault(m: Machine, piece: seq<u64>)
    requires m.fault
    ensures Line(m, piece).fault
    decreases |piece|
  {
    if piece != [] { LineFault(Execute(m, Decode(piece[0])), piece[1..]); }
  }

  lemma {:induction false} LineConcat(m: Machine, p: seq<u64>, q: seq<u64>)
    ensures Line(m, p + q) == Line(Line(m, p), q)
    decreases |p|
  {
    if p == [] {
      assert p + q == q;
    } else {
      assert (p + q)[1..] == p[1..] + q;
      LineConcat(Execute(m, Decode(p[0])), p[1..], q);
    }
  }

  // ---------- what the program should do ----------

  /** The modes that compile to a program. */
  predicate WaveformMode(mode: RunMode) { mode.TrigWaveform? || mode.CwWaveform? }

  /** Everything before the first pass of the loop. */
  function Prologue(mode: RunMode, freq: u32): seq<Event> {
    [SetFrequency(1, freq)] + if mode.TrigWaveform? then [] else [WaitSync]
  }

  /** One pass: both channels start together, markers high as long as their waveforms. */
  function Pass(mode: RunMode, lenA: u32, lenB: u32): seq<Event> {
    Opening(mode) + [Play(Intended(mode, lenA, lenB))]
  }

  function Opening(mode: RunMode): seq<Event> { if mode.TrigWaveform? then [ResetPhase(1), WaitTrigger] else [] }

  function Intended(mode: RunMode, lenA: u32, lenB: u32): Group {
    if mode.TrigWaveform? then Group(lenA, lenB, lenA, lenB) else Group(lenA, lenB, 0, 0)
  }

  function LoopStart(mode: RunMode): nat { if mode.TrigWaveform? then 1 else 2 }

  /** What a length must be. */
  predicate Playable(length: u32) { length % 4 == 0 && length <= 0x80_0000 }

  function Repeat(s: seq<Event>, k: nat): seq<Event> { if k == 0 then [] else Repeat(s, k - 1) + s }

  /** From power up to the end of the first pass, as intended. */
  ghost predicate PlaysOnce(mode: RunMode, freq: u32, lenA: u32, lenB: u32) {
    var code := Code(mode, freq, lenA, lenB);
    Run(code, START, |code|) ==
      Machine(LoopStart(mode), NOTHING, Prologue(mode, freq) + Pass(mode, lenA, lenB), false)
  }

  // ---------- single words ----------

  lemma DecodeWord(header: nat, payload: nat)
    requires header < 0x100 && payload < TWO56
    ensures Decode(header * TWO56 + payload) == DecodePayload(header / 16, header / 4 % 4, header % 2 == 1, payload)
  {
    assert (header * TWO56 + payload) / TWO56 == header;
  }

  /** A waveform word for one to three samples has all high bits set. */
  lemma ShortWave(header: nat, length: u32)
    requires header < 0x100 && 1 <= length <= 3
    ensures Decode(WaveWord(header * TWO56, length)) == Other(15)
  {
    hide BitOr;
    assert Reload(length) == TWO64 - 1;
    assert (TWO64 - 1) * TWO24 % TWO64 == TWO64 - TWO24;
    assert WaveWord(header * TWO56, length) / TWO56 == 0xff;
  }

  lemma ShortMarker(base: u64, length: u32)
    requires 1 <= length <= 3
    ensures Decode(Or(base, Reload(length))) == Other(15)
  {
    hide BitOr;
    assert Reload(length) == TWO64 - 1;
    assert Or(base, TWO64 - 1) / TWO56 == 0xff;
  }

  lemma LongWave(header: nat, length: u32)
    requires header < 0x10 && length >= 4
    ensures
      var q := length / 4 - 1;
      Decode(WaveWord(header * TWO56, length)) ==
        Waveform(header / 4, header % 2 == 1, q / 0x40_0000 % 4, q / 0x20_0000 % 2 == 1, q % 0x20_0000, 0)
  {
    hide Or, BitOr, Decode;
    var q := length / 4 - 1;
    assert Reload(length) == q;
    OrFields(header, q * TWO24);
    DecodeWord(header, q * TWO24);
    assert q * TWO24 / TWO24 == q && q * TWO24 % TWO24 == 0;
  }

  lemma LongMarker(channel: nat, length: u32)
    requires channel < 4 && length >= 4
    ensures Decode(Or((0x1000_0001 + 0x400_0000 * channel) * TWO32, Reload(length))) ==
      Marker(channel, false, 0, 0, 1, length / 4 - 1)
  {
    hide Or, BitOr, Decode;
    var q := length / 4 - 1;
    assert Reload(length) == q;
    OrFields(0x1000_0001 + 0x400_0000 * channel, q);
    DecodeWord(0x10 + 4 * channel, TWO32 + q);
    assert (TWO32 + q) / TWO32 == 1 && (TWO32 + q) % TWO32 == q;
  }

  lemma FrequencyWord(freq: u32)
    ensures Decode(Or(0xa100_6100_0000_0000, freq)) == Modulator(true, 3, 1, freq)
  {
    hide Or, BitOr, Decode;
    OrFields(0xa100_6100, freq);
    DecodeWord(0xa1, 0x6100 * TWO32 + freq);
    assert (0x6100 * TWO32 + freq) / TWO32 == 0x6100 && (0x6100 * TWO32 + freq) % TWO32 == freq;
  }

  // ---------- the pieces of the program ----------

  lemma LineOne(m: Machine, x: u64)
    ensures Line(m, [x]) == Execute(m, Decode(x))
  {
  }

  lemma LineTwo(m: Machine, x: u64, y: u64)
    ensures Line(m, [x, y]) == Execute(Execute(m, Decode(x)), Decode(y))
  {
    hide Execute, Decode;
    assert [x, y][1..] == [y];
    LineOne(Execute(m, Decode(x)), y);
  }

  lemma LineHead(mode: RunMode, freq: u32)
    requires WaveformMode(mode)
    ensures Line(START, Head(mode, freq)) == Machine(|Head(mode, freq)|, NOTHING, Prologue(mode, freq) + Opening(mode), false)
  {
    hide Or, Line, Execute, Decode;
    var head := Head(mode, freq);
    assert head == if mode.TrigWaveform? then [head[0]] + [head[1], head[2]] else [head[0], head[1]];
    LineConcat(START, [head[0]], head[1..]);
    LineOne(START, head[0]);
    var m := Execute(START, Decode(head[0]));
    FirstEvent(freq);
    if mode.TrigWaveform? {
      LineTwo(m, head[1], head[2]);
    } else {
      LineTwo(START, head[0], head[1]);
    }
    OtherEvents(m);
  }

  lemma FirstEvent(freq: u32)
    ensures Execute(START, Decode(Or(0xa100_6100_0000_0000, freq))) == Emit(START, SetFrequency(1, freq))
  {
    hide Or, Decode;
    FrequencyWord(freq);
  }

  lemma OtherEvents(m: Machine)
    requires m.group == NOTHING && !m.fault
    ensures Execute(m, Decode(0x9100_8000_0000_0000)) == Emit(m, WaitSync)
    ensures Execute(Execute(m, Decode(0xa100_2100_0000_0000)), Decode(0x2100_4000_0000_0000)) ==
      Emit(Emit(m, ResetPhase(1)), WaitTrigger)
  {
    assert Decode(0x9100_8000_0000_0000) == Sync(true, 2);
    assert Decode(0xa100_2100_0000_0000) == Modulator(true, 1, 1, 0);
    assert Decode(0x2100_4000_0000_0000) == Wait(true, 1);
  }

  /** The group that is dispatched if the waveform instructions say a and b samples. */
  function Heard(mode: RunMode, a: nat, b: nat, lenA: u32, lenB: u32): Group {
    if mode.TrigWaveform? then Group(a, b, lenA / 4 * 4, lenB / 4 * 4) else Group(a, b, 0, 0)
  }

  lemma LineMarkers(m: Machine, mode: RunMode, lenA: u32, lenB: u32)
    requires !m.fault && m.group == NOTHING
    ensures
      var p := Markers(mode, lenA, lenB);
      var r := Line(m, p);
      || r.fault
      || r == m.(pc := m.pc + |p|, group := Heard(mode, 0, 0, lenA, lenB))
    ensures Playable(lenA) && Playable(lenB) ==> !Line(m, Markers(mode, lenA, lenB)).fault
  {
    hide Decode, Or, BitOr, Reload;
    if mode.TrigWaveform? {
      var p := if lenA > 0 then [Or(0x1000_0001_0000_0000, Reload(lenA))] else [];
      var q := if lenB > 0 then [Or(0x1400_0001_0000_0000, Reload(lenB))] else [];
      var m' := Line(m, p);
      LineConcat(m, p, q);
      if lenA > 0 {
        LineOne(m, p[0]);
        if lenA < 4 { ShortMarker(0x1000_0001_0000_0000, lenA); } else { LongMarker(0, lenA); }
      }
      if lenB > 0 {
        LineOne(m', q[0]);
        if lenB < 4 { ShortMarker(0x1400_0001_0000_0000, lenB); } else { LongMarker(1, lenB); }
      }
    }
  }

  /** The samples that the 21-bit count field says; no instruction at all means none. */
  function Counted(length: u32): nat { if length == 0 then 0 else 4 * ((length / 4 - 1) % 0x20_0000 + 1) }

  lemma CountedExact(length: u32)
    ensures Counted(length) == length <==> Playable(length)
    ensures Playable(length) && length > 0 ==>
      length >= 4 && (length / 4 - 1) / 0x20_0000 == 0 && (length / 4 - 1) / 0x40_0000 == 0
  {
  }

  lemma CountedNone()
    ensures Counted(0) == 0
  {
  }

  function Queued(g: Group, engines: int, n: nat): Group {
    Group(if engines == 1 || engines == 3 then n else g.a, if engines == 2 || engines == 3 then n else g.b, g.m1, g.m2)
  }

  /** The engines have nothing queued in this group. */
  predicate Free(g: Group, engines: int) { (engines != 2 ==> g.a == 0) && (engines != 1 ==> g.b == 0) }

  lemma WaveEffect(m: Machine, header: nat, length: u32)
    requires header in {0x4, 0x5, 0x9, 0xd} && length > 0 && !m.fault
    ensures
      var r := Execute(m, Decode(WaveWord(header * TWO56, length)));
      && (r.fault || r == Queue(m, Queued(m.group, header / 4, Counted(length)), header % 2 == 1))
      && (Playable(length) && Free(m.group, header / 4) ==> !r.fault)
  {
    hide Decode, WaveWord;
    CountedExact(length);
    if length < 4 { ShortWave(header, length); } else { LongWave(header, length); }
  }

  lemma LineWaves(m: Machine, lenA: u32, lenB: u32)
    requires !m.fault && m.group.a == 0 && m.group.b == 0 && (lenA > 0 || lenB > 0)
    ensures
      var p := Waves(lenA, lenB);
      var r := Line(m, p);
      && (r.fault || r == m.(pc := m.pc + |p|, group := NOTHING,
                             trace := m.trace + [Play(m.group.(a := Counted(lenA), b := Counted(lenB)))]))
      && (Playable(lenA) && Playable(lenB) ==> !r.fault)
  {
    hide Decode, WaveWord, Counted, Playable, Execute;
    CountedNone();
    var p := Waves(lenA, lenB);
    LineOne(m, p[0]);
    if lenA == lenB {
      WaveEffect(m, 0xd, lenA);
    } else if lenB == 0 {
      WaveEffect(m, 0x5, lenA);
    } else if lenA == 0 {
      WaveEffect(m, 0x9, lenB);
    } else {
      assert p == [p[0]] + [p[1]];
      LineConcat(m, [p[0]], [p[1]]);
      var m' := Line(m, [p[0]]);
      LineOne(m', p[1]);
      WaveEffect(m, 0x4, lenA);
      if m'.fault { LineFault(m', [p[1]]); } else { WaveEffect(m', 0x9, lenB); }
    }
  }

  // ---------- main results ----------

  function Inside(mode: RunMode, freq: u32, lenA: u32, lenB: u32): seq<u64> {
    Head(mode, freq) + Markers(mode, lenA, lenB) + Waves(lenA, lenB)
  }

  lemma InsideNoGoto(mode: RunMode, freq: u32, lenA: u32, lenB: u32)
    requires WaveformMode(mode) && (lenA > 0 || lenB > 0)
    ensures NoGoto(Inside(mode, freq, lenA, lenB))
  {
    hide Decode, Or, WaveWord, Reload;
    forall x | x in Inside(mode, freq, lenA, lenB) ensures !Decode(x).Goto? {
      if x in Head(mode, freq) {
        HeadNoGoto(mode, freq, x);
      } else if x in Markers(mode, lenA, lenB) {
        MarkersNoGoto(mode, lenA, lenB, x);
      } else {
        WavesNoGoto(lenA, lenB, x);
      }
    }
  }

  lemma HeadNoGoto(mode: RunMode, freq: u32, x: u64)
    requires x in Head(mode, freq)
    ensures !Decode(x).Goto?
  {
  }

  lemma MarkersNoGoto(mode: RunMode, lenA: u32, lenB: u32, x: u64)
    requires x in Markers(mode, lenA, lenB)
    ensures !Decode(x).Goto?
  {
    hide Or, Decode, Reload;
    if lenA >= 4 { LongMarker(0, lenA); } else if lenA > 0 { ShortMarker(0x1000_0001_0000_0000, lenA); }
    if lenB >= 4 { LongMarker(1, lenB); } else if lenB > 0 { ShortMarker(0x1400_0001_0000_0000, lenB); }
  }

  lemma WavesNoGoto(lenA: u32, lenB: u32, x: u64)
    requires x in Waves(lenA, lenB) && (lenA > 0 || lenB > 0)
    ensures !Decode(x).Goto?
  {
    hide WaveWord, Decode;
    if lenA == lenB {
      WaveNoGoto(0xd, lenA);
    } else {
      if lenA > 0 { WaveNoGoto(0x5, lenA); WaveNoGoto(0x4, lenA); }
      if lenB > 0 { WaveNoGoto(0x9, lenB); }
    }
  }

  lemma WaveNoGoto(header: nat, length: u32)
    requires header < 0x10 && length > 0
    ensures !Decode(WaveWord(header * TWO56, length)).Goto?
  {
    hide WaveWord, Decode;
    if length < 4 { ShortWave(header, length); } else { LongWave(header, length); }
  }

  /** The final jump. */
  lemma LastJumps(mode: RunMode)
    requires WaveformMode(mode)
    ensures Decode(Last(mode)) == Goto(LoopStart(mode))
  {
  }

  /** Whatever the lengths, no run leaves the program, not even past instructions without meaning:
      all that the code contains besides the final jump advances. */
  lemma {:induction false} StaysInside(mode: RunMode, freq: u32, lenA: u32, lenB: u32, n: nat)
    requires WaveformMode(mode) && (lenA > 0 || lenB > 0)
    ensures Run(Code(mode, freq, lenA, lenB), START, n).pc < |Code(mode, freq, lenA, lenB)|
  {
    hide Code, Execute, Decode, Fetch, WaveformMode;
    if n == 0 {
      CodeJumps(mode, freq, lenA, lenB, 0);
    }
    if n > 0 {
      var code := Code(mode, freq, lenA, lenB);
      StaysInside(mode, freq, lenA, lenB, n - 1);
      RunSum(code, START, n - 1, 1);
      StepInside(mode, freq, lenA, lenB, Run(code, START, n - 1));
    }
  }

  lemma StepInside(mode: RunMode, freq: u32, lenA: u32, lenB: u32, m: Machine)
    requires WaveformMode(mode) && (lenA > 0 || lenB > 0)
    requires m.pc < |Code(mode, freq, lenA, lenB)|
    ensures Run(Code(mode, freq, lenA, lenB), m, 1).pc < |Code(mode, freq, lenA, lenB)|
  {
    hide Decode, Run, Execute, Code, Fetch, LoopStart, WaveformMode;
    var code := Code(mode, freq, lenA, lenB);
    RunOne(code, m);
    StepAdvances(m, Decode(Fetch(code, m.pc)));
    CodeJumps(mode, freq, lenA, lenB, m.pc);
  }

  /** Only the last instruction jumps, to the start of the loop. */
  lemma CodeJumps(mode: RunMode, freq: u32, lenA: u32, lenB: u32, pc: nat)
    requires WaveformMode(mode) && (lenA > 0 || lenB > 0)
    ensures
      var code := Code(mode, freq, lenA, lenB);
      && LoopStart(mode) < |code| - 1
      && (pc < |code| - 1 ==> !Decode(Fetch(code, pc)).Goto?)
      && (pc == |code| - 1 ==> Decode(Fetch(code, pc)) == Goto(LoopStart(mode)))
  {
    hide Decode, Markers, Last, Or, WaveWord;
    var code := Code(mode, freq, lenA, lenB);
    assert |Waves(lenA, lenB)| >= 1;
    InsideNoGoto(mode, freq, lenA, lenB);
    LastJumps(mode);
    if pc < |code| - 1 {
      assert code[pc] == Inside(mode, freq, lenA, lenB)[pc];
    }
  }

  lemma RunOne(code: seq<u64>, m: Machine)
    ensures Run(code, m, 1) == Execute(m, Decode(Fetch(code, m.pc)))
  {
  }

  lemma StepAdvances(m: Machine, i: Instruction)
    ensures Execute(m, i).pc == if i.Goto? && i.address >= 0 then i.address else m.pc + 1
  {
  }

  /** The program up to the final jump. */
  lemma RunInside(mode: RunMode, freq: u32, lenA: u32, lenB: u32)
    requires WaveformMode(mode) && (lenA > 0 || lenB > 0)
    ensures
      var code, inside := Code(mode, freq, lenA, lenB), Inside(mode, freq, lenA, lenB);
      && |code| == |inside| + 1
      && Run(code, START, |inside|) == Line(START, inside)
      && Line(START, inside).pc == |inside|
  {
    hide Decode, Head, Waves, Markers, Last, Line, Run;
    var code, inside := Code(mode, freq, lenA, lenB), Inside(mode, freq, lenA, lenB);
    InsideNoGoto(mode, freq, lenA, lenB);
    assert code[0..0 + |inside|] == inside;
    RunLine(code, START, inside, 0);
  }

  /** Where the program stands before its final jump. */
  lemma LineInside(mode: RunMode, freq: u32, lenA: u32, lenB: u32)
    requires WaveformMode(mode) && (lenA > 0 || lenB > 0)
    ensures
      var r := Line(START, Inside(mode, freq, lenA, lenB));
      && (r.fault || (r.group == NOTHING && r.trace == Prologue(mode, freq) + Opening(mode) +
            [Play(Heard(mode, Counted(lenA), Counted(lenB), lenA, lenB))]))
      && (Playable(lenA) && Playable(lenB) ==> !r.fault)
  {
    hide Decode, Head, Waves, Markers, Line, Counted, Playable, Prologue, Opening;
    var head, markers, waves := Head(mode, freq), Markers(mode, lenA, lenB), Waves(lenA, lenB);
    LineConcat(START, head + markers, waves);
    LineConcat(START, head, markers);
    LineHead(mode, freq);
    var m := Line(START, head);
    LineMarkers(m, mode, lenA, lenB);
    var m' := Line(m, markers);
    if m'.fault { LineFault(m', waves); } else { LineWaves(m', lenA, lenB); }
  }

  /** The program plays each waveform on its own channel, once and at full length, exactly when both
      lengths are multiples of four that the count field can hold. */
  lemma PlaysIff(mode: RunMode, freq: u32, lenA: u32, lenB: u32)
    requires WaveformMode(mode) && (lenA > 0 || lenB > 0)
    ensures PlaysOnce(mode, freq, lenA, lenB) <==> Playable(lenA) && Playable(lenB)
  {
    hide Decode, Line, Run, Inside, Code, Counted, Playable, Prologue, Opening, Heard, Fetch;
    var code, inside := Code(mode, freq, lenA, lenB), Inside(mode, freq, lenA, lenB);
    var m := Line(START, inside);
    RunInside(mode, freq, lenA, lenB);
    LineInside(mode, freq, lenA, lenB);
    RunSum(code, START, |inside|, 1);
    RunOne(code, m);
    if !m.fault {
      CodeJumps(mode, freq, lenA, lenB, m.pc);
      RightGroup(mode, lenA, lenB);
      SameTrace(Prologue(mode, freq), Opening(mode), Play(Heard(mode, Counted(lenA), Counted(lenB), lenA, lenB)),
        Play(Intended(mode, lenA, lenB)));
    }
  }

  lemma RightGroup(mode: RunMode, lenA: u32, lenB: u32)
    ensures Heard(mode, Counted(lenA), Counted(lenB), lenA, lenB) == Intended(mode, lenA, lenB) <==>
      Playable(lenA) && Playable(lenB)
  {
    hide Counted;
    CountedExact(lenA);
    CountedExact(lenB);
  }

  lemma SameTrace(p: seq<Event>, q: seq<Event>, x: Event, y: Event)
    ensures p + q + [x] == p + (q + [y]) <==> x == y
  {
    if p + q + [x] == p + (q + [y]) {
      assert (p + q + [x])[|p + q|] == (p + (q + [y]))[|p + q|];
    }
    assert p + q + [x] == p + (q + [x]);
  }

  lemma AtLoopStart(mode: RunMode, freq: u32, lenA: u32, lenB: u32)
    requires WaveformMode(mode)
    ensures Run(Code(mode, freq, lenA, lenB), START, LoopStart(mode)) ==
      Machine(LoopStart(mode), NOTHING, Prologue(mode, freq), false)
  {
    hide Decode, Or, Execute, Line, Run, Waves, Markers, Last;
    var head, n := Head(mode, freq), LoopStart(mode);
    forall x | x in head[..n] ensures !Decode(x).Goto? {
      HeadNoGoto(mode, freq, x);
    }
    RunLine(Code(mode, freq, lenA, lenB), START, head[..n], 0);
    if mode.TrigWaveform? {
      assert head[..n] == [head[0]];
      LineOne(START, head[0]);
      FirstEvent(freq);
    } else {
      assert head[..n] == head;
      LineHead(mode, freq);
    }
  }

  /** The same machine after h has happened. */
  function Later(h: seq<Event>, m: Machine): Machine { m.(trace := h + m.trace) }

  /** What happened before does not matter. */
  lemma {:induction false} RunHistory(code: seq<u64>, m: Machine, h: seq<Event>, n: nat)
    ensures Run(code, Later(h, m), n) == Later(h, Run(code, m, n))
    decreases n
  {
    hide Decode, Fetch;
    if n > 0 {
      var i := Decode(Fetch(code, m.pc));
      StepHistory(m, h, i);
      RunHistory(code, Execute(m, i), h, n - 1);
    }
  }

  lemma EmitHistory(m: Machine, h: seq<Event>, e: Event)
    ensures Emit(Later(h, m), e) == Later(h, Emit(m, e))
  {
    assert h + m.trace + [e] == h + (m.trace + [e]);
  }

  lemma QueueHistory(m: Machine, h: seq<Event>, g: Group, write: bool)
    ensures Queue(Later(h, m), g, write) == Later(h, Queue(m, g, write))
  {
    EmitHistory(m.(group := NOTHING), h, Play(g));
  }

  lemma StepHistory(m: Machine, h: seq<Event>, i: Instruction)
    ensures Execute(Later(h, m), i) == Later(h, Execute(m, i))
  {
    hide Emit, Queue;
    forall e ensures Emit(Later(h, m), e) == Later(h, Emit(m, e)) {
      EmitHistory(m, h, e);
    }
    forall g, write ensures Queue(Later(h, m), g, write) == Later(h, Queue(m, g, write)) {
      QueueHistory(m, h, g, write);
    }
  }

  /** k rounds of n steps. */
  function Steps(k: nat, n: nat): nat { if k == 0 then 0 else Steps(k - 1, n) + n }

  /** k passes later: the same pass k times. */
  lemma {:induction false} Passes(mode: RunMode, freq: u32, lenA: u32, lenB: u32, k: nat)
    requires WaveformMode(mode) && (lenA > 0 || lenB > 0) && Playable(lenA) && Playable(lenB)
    ensures
      var code, at := Code(mode, freq, lenA, lenB), LoopStart(mode);
      && at < |code|
      && Run(code, START, at + Steps(k, |code| - at)) ==
           Machine(at, NOTHING, Prologue(mode, freq) + Repeat(Pass(mode, lenA, lenB), k), false)
  {
    hide Decode, Execute, Code, Playable, Prologue, Pass, Fetch, WaveformMode, LoopStart, Run;
    var code, at := Code(mode, freq, lenA, lenB), LoopStart(mode);
    CodeJumps(mode, freq, lenA, lenB, 0);
    AtLoopStart(mode, freq, lenA, lenB);
    if k == 0 {
      assert Prologue(mode, freq) + [] == Prologue(mode, freq);
    } else {
      Passes(mode, freq, lenA, lenB, k - 1);
      var pass, before := Pass(mode, lenA, lenB), Prologue(mode, freq) + Repeat(Pass(mode, lenA, lenB), k - 1);
      var rest := |code| - at;
      RunSum(code, START, at + Steps(k - 1, rest), rest);
      OnePass(mode, freq, lenA, lenB, before);
      assert before + pass == Prologue(mode, freq) + Repeat(pass, k);
    }
  }

  /** From the start of the loop back to it. */
  lemma OnePass(mode: RunMode, freq: u32, lenA: u32, lenB: u32, before: seq<Event>)
    requires WaveformMode(mode) && (lenA > 0 || lenB > 0) && Playable(lenA) && Playable(lenB)
    requires LoopStart(mode) < |Code(mode, freq, lenA, lenB)|
    ensures
      var code, at := Code(mode, freq, lenA, lenB), LoopStart(mode);
      Run(code, Machine(at, NOTHING, before, false), |code| - at) ==
        Machine(at, NOTHING, before + Pass(mode, lenA, lenB), false)
  {
    hide Decode, Execute, Code, Playable, Prologue, Pass, Fetch, WaveformMode, LoopStart, Run;
    var code, at, p := Code(mode, freq, lenA, lenB), LoopStart(mode), Prologue(mode, freq);
    var m, n := Machine(at, NOTHING, [], false), |code| - at;
    AtLoopStart(mode, freq, lenA, lenB);
    PlaysIff(mode, freq, lenA, lenB);
    RunSum(code, START, at, n);
    RunHistory(code, m, p, n);
    RunHistory(code, m, before, n);
    assert p + [] == p && before + [] == before;
    var t := Run(code, m, n).trace;
    assert (p + t)[|p|..] == t && (p + Pass(mode, lenA, lenB))[|p|..] == Pass(mode, lenA, lenB);
  }
}
