/** Configuration SDRAM and flash: erase, write, read back and validate (src/lib/APS2.cpp). The
    device answers every request; flash programming can only clear bits. */
module ConfigMemory {
  import opened Words
  import opened Datagrams
  import opened PacketBytes

  const PAGE := 0x1_0000
  const FLASH_CHUNK := 0x100

  /** Bitwise and, for programming flash. */
  function BitAnd(a: nat, b: nat): (c: nat)
    ensures c <= a && c <= b
  {
    if a == 0 || b == 0 then 0
    else 2 * BitAnd(a / 2, b / 2) + if a % 2 == 1 && b % 2 == 1 then 1 else 0
  }

  function Ones(bits: nat): nat { if bits == 0 then 0 else 2 * Ones(bits - 1) + 1 }

  lemma {:induction false} AndOnes(bits: nat, b: nat)
    requires b <= Ones(bits)
    ensures BitAnd(Ones(bits), b) == b
  {
    if bits > 0 && b > 0 {
      assert Ones(bits) / 2 == Ones(bits - 1) && Ones(bits) % 2 == 1;
      AndOnes(bits - 1, b / 2);
    }
  }

  lemma AndErased(b: u32)
    ensures BitAnd(ALL_ONES, b) == b
  {
    assert Ones(4) == 0xf;
    assert Ones(8) == 0xff;
    assert Ones(12) == 0xfff;
    assert Ones(16) == 0xffff;
    assert Ones(20) == 0xf_ffff;
    assert Ones(24) == 0xff_ffff;
    assert Ones(28) == 0xfff_ffff;
    assert Ones(32) == 0xffff_ffff;
    AndOnes(32, b);
  }

  /** The word at a, all ones if it was never written. */
  function Read(mem: Memory, a: u32): u32 { if a in mem then mem[a] else ALL_ONES }

  function Program(mem: Memory, addr: u32, data: seq<u32>): Memory
    decreases |data|
  {
    if data == [] then mem
    else Program(mem[addr := BitAnd(Read(mem, addr), data[0])], Wrap(addr + 4), data[1..])
  }

  function ErasePage(mem: Memory, addr: u32): Memory {
    map a | a in mem && !(addr <= a < addr + PAGE) :: mem[a]
  }

  /** How far behind start the address a is, going around the end of the address space. */
  function Offset(start: u32, a: u32): u32 { Wrap(a as int - start as int) }

  /** The range of the given size from start on. */
  predicate Within(start: u32, bytes: nat, a: u32) { Offset(start, a) < bytes }

  /** The range is all ones and nothing else has changed. */
  ghost predicate Erased(before: Memory, after: Memory, start: u32, bytes: nat) {
    && (forall a: u32 :: Within(start, bytes, a) ==> Read(after, a) == ALL_ONES)
    && (forall a: u32 :: !Within(start, bytes, a) ==> Read(after, a) == Read(before, a))
  }

  datatype FlashCommand = Erase(addr: u32) | Write(addr: u32, data: seq<u32>)

  function Step(mem: Memory, c: FlashCommand): Memory {
    match c
    case Erase(a) => ErasePage(mem, a)
    case Write(a, d) => Program(mem, a, d)
  }

  /** The effect of the commands that reach the flash. */
  function Play(mem: Memory, cs: seq<FlashCommand>): Memory
    decreases |cs|
  {
    if cs == [] then mem
    else Play(Step(mem, cs[0]), cs[1..])
  }

  lemma {:induction false} PlayConcat(mem: Memory, a: seq<FlashCommand>, b: seq<FlashCommand>)
    ensures Play(mem, a + b) == Play(Play(mem, a), b)
    decreases |a|
  {
    if a == [] {
      assert a + b == b;
    } else {
      assert (a + b)[1..] == a[1..] + b;
      PlayConcat(Step(mem, a[0]), a[1..], b);
    }
  }

  lemma PlayOne(mem: Memory, c: FlashCommand)
    ensures Play(mem, [c]) == Step(mem, c)
  {
  }

  // ---------- programming ----------

  lemma {:induction false} ProgramSplit(mem: Memory, addr: u32, data: seq<u32>, n: nat)
    requires n <= |data|
    ensures Program(mem, addr, data) == Program(Program(mem, addr, data[..n]), Wrap(addr + 4 * n), data[n..])
    decreases n
  {
    hide BitAnd, Read, Wrap;
    if n == 0 {
      assert data[0..] == data && data[..0] == [];
      WrapSmall(addr);
    } else {
      assert data[..n][1..] == data[1..][..n - 1] && data[n..] == data[1..][n - 1..];
      WrapAdd(addr + 4, 4 * (n - 1));
      ProgramSplit(mem[addr := BitAnd(Read(mem, addr), data[0])], Wrap(addr + 4), data[1..], n - 1);
    }
  }

  /** Erased flash takes any data; nothing else changes. */
  lemma {:induction false} ProgramErased(mem: Memory, addr: u32, data: seq<u32>, a: u32)
    requires 4 * |data| <= TWO32
    requires forall x: u32 :: Within(addr, 4 * |data|, x) ==> Read(mem, x) == ALL_ONES
    ensures
      var o := Offset(addr, a);
      Read(Program(mem, addr, data), a) == if o < 4 * |data| && o % 4 == 0 then data[o / 4] else Read(mem, a)
    decreases |data|
  {
    hide BitAnd, Wrap, Offset;
    if data != [] {
      AndErased(data[0]);
      OffsetZero(addr, a);
      OffsetZero(addr, addr);
      assert Within(addr, 4 * |data|, addr);
      var mem' := mem[addr := data[0]];
      assert Program(mem, addr, data) == Program(mem', Wrap(addr + 4), data[1..]);
      forall x: u32 | Within(Wrap(addr + 4), 4 * |data[1..]|, x) ensures Read(mem', x) == ALL_ONES {
        OffsetNext(addr, x);
        OffsetZero(addr, x);
        assert Within(addr, 4 * |data|, x);
      }
      ProgramErased(mem', Wrap(addr + 4), data[1..], a);
      OffsetNext(addr, a);
    }
  }

  lemma OffsetZero(start: u32, a: u32)
    ensures Offset(start, a) == 0 <==> a == start
  {
  }

  /** Seen from the next word. */
  lemma OffsetNext(start: u32, a: u32)
    ensures Offset(Wrap(start + 4), a) == if Offset(start, a) >= 4 then Offset(start, a) - 4 else Offset(start, a) + TWO32 - 4
  {
  }

  lemma OffsetOf(start: u32, n: nat)
    requires n < TWO32
    ensures Offset(start, Wrap(start + n)) == n
  {
  }

  function WriteCommands(ds: seq<Datagram>): seq<FlashCommand> {
    if ds == [] then [] else [Write(ds[0].addr, ds[0].payload)] + WriteCommands(ds[1..])
  }

  /** Writing in chunks programs the same words. */
  lemma {:induction false} ChunksProgram(mem: Memory, cmd: Command, addr: u32, data: seq<u32>)
    ensures Play(mem, WriteCommands(DatagramsOf(cmd, addr, data, FLASH_CHUNK))) == Program(mem, addr, data)
    decreases |data|
  {
    if data != [] {
      var n := Take(|data|, FLASH_CHUNK);
      ProgramSplit(mem, addr, data, n);
      ChunksProgram(Program(mem, addr, data[..n]), cmd, Wrap(addr + 4 * n), data[n..]);
    }
  }

  // ---------- erasing ----------

  /** k consecutive pages from start. */
  function ErasePages(start: u32, k: nat): seq<FlashCommand> {
    if k == 0 then [] else ErasePages(start, k - 1) + [Erase(Wrap(start + PAGE * (k - 1)))]
  }

  /** 64 KB apart, one after the other. */
  lemma {:induction false} ErasePageAt(start: u32, k: nat, j: nat)
    ensures |ErasePages(start, k)| == k
    ensures j < k ==> ErasePages(start, k)[j] == Erase((start + 0x1_0000 * j) % 0x1_0000_0000)
  {
    if k > 0 { ErasePageAt(start, k - 1, if j < k - 1 then j else 0); }
  }

  /** The pages that a region of the given size needs; at least one is erased. */
  function PagesFor(bytes: nat): (k: nat)
    ensures k >= 1 && bytes <= PAGE * k && (k > 1 ==> PAGE * (k - 1) < bytes)
  {
    if bytes == 0 then 1 else (bytes + PAGE - 1) / PAGE
  }

  lemma {:induction false} ErasePagesErase(mem: Memory, start: u32, k: nat)
    requires start % PAGE == 0 && PAGE * k <= TWO32
    ensures Erased(mem, Play(mem, ErasePages(start, k)), start, PAGE * k)
  {
    hide Play, Offset;
    if k == 0 {
      PlayNothing(mem);
    } else {
      var before := Play(mem, ErasePages(start, k - 1));
      var a := Wrap(start + PAGE * (k - 1));
      ErasePagesErase(mem, start, k - 1);
      PlayConcat(mem, ErasePages(start, k - 1), [Erase(a)]);
      PlayOne(before, Erase(a));
      forall x: u32 ensures Read(ErasePage(before, a), x) ==
        if Within(start, PAGE * k, x) && !Within(start, PAGE * (k - 1), x) then ALL_ONES else Read(before, x)
      {
        PageOffset(start, k - 1, x);
      }
    }
  }

  /** Page j is where it should be, and in one piece. */
  lemma PageOffset(start: u32, j: nat, x: u32)
    requires start % PAGE == 0 && PAGE * (j + 1) <= TWO32
    ensures var a := Wrap(start + PAGE * j);
      a <= x < a + PAGE <==> PAGE * j <= Offset(start, x) < PAGE * (j + 1)
  {
    var a := Wrap(start + PAGE * j);
    assert a == start + PAGE * j || a == start + PAGE * j - TWO32;
    assert a % PAGE == 0;
    assert Offset(start, x) == x - start || Offset(start, x) == x - start + TWO32;
  }

  lemma PageAligned(addr: u32)
    ensures addr % PAGE == 0 ==> addr % 256 == 0
  {
  }

  /** The guard of the erase loop after its k-th round, in 32-bit arithmetic. */
  predicate EraseContinues(start: u32, bytes: u32, k: nat) {
    Wrap(start + PAGE * k) < Wrap(start + bytes)
  }

  /** The loop makes exactly k rounds. */
  ghost predicate EraseRounds(start: u32, bytes: u32, k: nat) {
    k >= 1 && !EraseContinues(start, bytes, k) && forall j :: 1 <= j < k ==> EraseContinues(start, bytes, j)
  }

  /** The region ends at or below the last page of the address space, or starts there and reaches its
      end. */
  predicate Coverable(start: u32, bytes: u32) {
    start + bytes <= TWO32 - PAGE || (start == TWO32 - PAGE && start + bytes >= TWO32)
  }

  /** The rounds of the loop for such a region. Erasing nothing at the last page goes all the way
      around. */
  function RoundsFor(start: u32, bytes: u32): nat {
    if start == TWO32 - PAGE && bytes == 0 then 0x1_0000 else PagesFor(bytes)
  }

  /** Exactly when the erase loop ends after having covered the whole region. */
  lemma EraseCovers(start: u32, bytes: u32)
    requires start % PAGE == 0
    ensures (exists k :: EraseRounds(start, bytes, k) && bytes <= PAGE * k) <==> Coverable(start, bytes)
  {
    if Coverable(start, bytes) {
      EraseEnds(start, bytes);
    } else if start + bytes < TWO32 {
      EraseNeverEnds(start, bytes);
    } else {
      EraseTooShort(start, bytes);
    }
  }

  lemma EraseEnds(start: u32, bytes: u32)
    requires start % PAGE == 0 && Coverable(start, bytes)
    ensures var k := RoundsFor(start, bytes); EraseRounds(start, bytes, k) && bytes <= PAGE * k <= TWO32
  {
    var k := RoundsFor(start, bytes);
    if start == TWO32 - PAGE {
      assert forall j :: 1 <= j ==> start + PAGE * j == TWO32 + PAGE * (j - 1);
    }
  }

  /** A region that ends inside the last page keeps the loop going for ever. */
  lemma EraseNeverEnds(start: u32, bytes: u32)
    requires start % PAGE == 0 && TWO32 - PAGE < start + bytes < TWO32
    ensures forall k :: EraseContinues(start, bytes, k)
  {
  }

  /** A region that passes the end of the address space gets one page. */
  lemma EraseTooShort(start: u32, bytes: u32)
    requires start % PAGE == 0 && start < TWO32 - PAGE && start + bytes >= TWO32
    ensures EraseRounds(start, bytes, 1) && bytes > PAGE
    ensures forall k :: EraseRounds(start, bytes, k) ==> k == 1
  {
  }

  // ---------- the driver ----------

  datatype Status = Done | Unaligned | ValidationFailure

  datatype Media = Dram | Eprom

  /** n words from byte address addr on, as a read returns them. */
  function ReadWordsAt(mem: Memory, addr: u32, n: nat): (ws: seq<u32>)
    ensures |ws| == n
  {
    seq(n, i requires 0 <= i < n => Read(mem, Wrap(addr + 4 * i)))
  }

  /** The words stand in mem from byte address start on. */
  ghost predicate Holds(mem: Memory, start: u32, words: seq<u32>) {
    forall i :: 0 <= i < |words| ==> Read(mem, Wrap(start + 4 * i)) == words[i]
  }

  function Padded(data: seq<u32>): seq<u32> {
    data + seq((64 - |data| % 64) % 64, _ => ALL_ONES)
  }

  /** Whole units of 64 words, the data first and ones behind it. */
  lemma PaddedWords(data: seq<u32>)
    ensures |Padded(data)| % 64 == 0 && data <= Padded(data) && |Padded(data)| < |data| + 64
    ensures forall i :: |data| <= i < |Padded(data)| ==> Padded(data)[i] == 0xffff_ffff
  {
    Fill64(|data| / 64, |data| % 64);
  }

  lemma Fill64(q: nat, r: nat)
    requires r < 64
    ensures (64 * q + r + (64 - r) % 64) % 64 == 0
  {
    assert (64 - r) % 64 == if r == 0 then 0 else 64 - r;
  }

  const WRITE_FLASH := Command(0, 0, EPROMIO, false, true, false, true)
  const WRITE_DRAM := Command(0, 0, FPGACONFIG_ACK, false, true, false, true)

  /** The command words of the writes. */
  lemma WriteWords(n: u16)
    ensures Pack(WRITE_FLASH.(cnt := n)) == 0xa200_0000 + n
    ensures Pack(WRITE_DRAM.(cnt := n)) == 0xa500_0000 + n
  {
  }

  class Storage {
    var flash: Memory
    var dram: Memory
    ghost var log: seq<FlashCommand>   // the erase and write commands that the flash has received

    constructor (flash: Memory, dram: Memory)
      ensures this.flash == flash && this.dram == dram && log == []
    {
      this.flash, this.dram, log := flash, dram, [];
    }

    function Content(media: Media): Memory reads this { if media.Eprom? then flash else dram }

    method SendFlash(c: FlashCommand)
      modifies this`flash, this`log
      ensures flash == Step(old(flash), c) && log == old(log) + [c]
    {
      flash := Step(flash, c);
      log := log + [c];
    }

    /** Erases page by page until the end address is reached. */
    method EraseFlash(start: u32, bytes: u32) returns (r: Status)
      requires start % PAGE == 0 ==> Coverable(start, bytes)
      modifies this`flash, this`log
      ensures r.Done? <==> start % PAGE == 0
      ensures !r.Done? ==> r.Unaligned? && flash == old(flash) && log == old(log)
      ensures r.Done? ==>
        var pages := ErasePages(start, RoundsFor(start, bytes));
        log == old(log) + pages && flash == Play(old(flash), pages)
    {
      hide Play, Step, RoundsFor, Coverable, Wrap;
      if start % PAGE != 0 { return Unaligned; }
      EraseEnds(start, bytes);
      ghost var k := RoundsFor(start, bytes);
      ghost var j: nat := 0;
      WrapOf(start);
      var addr, end := start, Wrap(start + bytes);
      var more := true;
      assert Play(flash, []) == flash by { PlayNothing(flash); }
      while more
        invariant j <= k && addr == Wrap(start + PAGE * j) && (more <==> j < k)
        invariant log == old(log) + ErasePages(start, j) && flash == Play(old(flash), ErasePages(start, j))
        decreases k - j
      {
        PlayConcat(old(flash), ErasePages(start, j), [Erase(addr)]);
        PlayOne(flash, Erase(addr));
        SendFlash(Erase(addr));
        WrapAdd(start + PAGE * j, PAGE);
        addr := Wrap(addr as int + PAGE);
        j := j + 1;
        assert EraseContinues(start, bytes, j) <==> addr < end;
        more := addr < end;
      }
      return Done;
    }

    /** Pads to whole 256-byte units, erases, writes in chunks. The erase commands come first and
        their pages contain every later write; the words then read back, with ones behind them, and
        nothing outside those pages has changed. */
    method WriteFlash(addr: u32, data: seq<u32>) returns (r: Status, padded: seq<u32>)
      requires Fits(addr, 4 * |Padded(data)|, Eprom)
      modifies this`flash, this`log
      ensures r.Done? <==> addr % PAGE == 0
      ensures !r.Done? ==> r.Unaligned? && flash == old(flash) && log == old(log)
      ensures r.Done? ==> padded == Padded(data)
      ensures r.Done? ==>
        var k := RoundsFor(addr, 4 * |padded|);
        var ds := DatagramsOf(WRITE_FLASH, addr, padded, FLASH_CHUNK);
        && log == old(log) + ErasePages(addr, k) + WriteCommands(ds)
        && (forall d :: d in ds ==> Offset(addr, d.addr) + 4 * |d.payload| <= PAGE * k)
        && Holds(flash, addr, padded)
        && (forall a: u32 :: !Within(addr, PAGE * k, a) ==> Read(flash, a) == Read(old(flash), a))
    {
      hide Play, Step, Program, ErasePages, WriteCommands, DatagramsOf, RoundsFor, Coverable, Holds, Read, Offset, Padded;
      padded := Padded(data);
      PageAligned(addr);
      if addr % 256 != 0 { return Unaligned, padded; }
      r := EraseFlash(addr, 4 * |padded|);
      if !r.Done? { return r, padded; }
      EraseEnds(addr, 4 * |padded|);
      ErasePagesErase(old(flash), addr, RoundsFor(addr, 4 * |padded|));
      WriteErased(addr, padded);
    }

    /** The part of write_flash that follows the erase. */
    method WriteErased(addr: u32, padded: seq<u32>)
      requires 4 * |padded| <= TWO32
      requires forall x: u32 :: Within(addr, 4 * |padded|, x) ==> Read(flash, x) == ALL_ONES
      modifies this`flash, this`log
      ensures
        var ds := DatagramsOf(WRITE_FLASH, addr, padded, FLASH_CHUNK);
        && log == old(log) + WriteCommands(ds)
        && (forall d :: d in ds ==> Offset(addr, d.addr) + 4 * |d.payload| <= 4 * |padded|)
      ensures Holds(flash, addr, padded)
      ensures forall a: u32 :: !Within(addr, 4 * |padded|, a) ==> Read(flash, a) == Read(old(flash), a)
    {
      hide Play, Step, Program, WriteCommands, DatagramsOf, Holds, Read, Offset;
      ghost var erased := flash;
      var dgs := ChunkDatagrams(WRITE_FLASH, addr, padded, FLASH_CHUNK);
      SendWrites(dgs);
      ChunksProgram(erased, WRITE_FLASH, addr, padded);
      FlashReadsBack(erased, addr, padded);
      ChunksWithin(WRITE_FLASH, addr, padded);
    }

    method SendWrites(dgs: seq<Datagram>)
      modifies this`flash, this`log
      ensures log == old(log) + WriteCommands(dgs) && flash == Play(old(flash), WriteCommands(dgs))
    {
      hide Step, Play, WriteCommands;
      var i := 0;
      assert dgs[0..] == dgs;
      while i < |dgs|
        invariant i <= |dgs|
        invariant log + WriteCommands(dgs[i..]) == old(log) + WriteCommands(dgs)
        invariant Play(flash, WriteCommands(dgs[i..])) == Play(old(flash), WriteCommands(dgs))
      {
        PlayWrite(flash, dgs, i);
        SendFlash(Write(dgs[i].addr, dgs[i].payload));
        i := i + 1;
      }
      PlayNothing(flash);
      assert dgs[i..] == [] && log + [] == log;
    }

    /** Writes in chunks of 1 kB. */
    method WriteDram(addr: u32, data: seq<u32>) returns (r: Status)
      modifies this`dram
      ensures r.Done? <==> addr % 8 == 0 && |data| % 2 == 0
      ensures !r.Done? ==> r.Unaligned? && dram == old(dram)
      ensures r.Done? ==> dram == Datagrams.Write(old(dram), addr, data)
    {
      hide ApplyDatagrams, Datagrams.Write, DatagramsOf;
      if addr % 8 != 0 || |data| % 2 != 0 { return Unaligned; }
      var dgs := ChunkDatagrams(WRITE_DRAM, addr, data, 0x100);
      dram := ApplyDatagrams(dram, dgs);
      DatagramsWrite(old(dram), WRITE_DRAM, addr, data, 0x100);
      return Done;
    }

    /** Compares one piece, word by word. */
    method CheckPiece(start: u32, words: seq<u32>, media: Media, from: u32, len: nat, ghost done: nat) returns (same: bool)
      requires done + len <= |words| && 4 * |words| < TWO32 && from == Wrap(start + 4 * done)
      ensures same <==> forall i :: done <= i < done + len ==> Read(Content(media), Wrap(start + 4 * i)) == words[i]
    {
      hide Read, Wrap;
      assert from == Wrap(start + 4 * (done + 0));
      var check := ReadWordsAt(Content(media), from, len);
      var addr := from;
      var ct := 0;
      while ct < len
        invariant ct <= len && addr == Wrap(start + 4 * (done + ct))
        invariant forall i :: done <= i < done + ct ==> Read(Content(media), Wrap(start + 4 * i)) == words[i]
      {
        PieceIndex(start, done, ct);
        if check[ct] != words[Wrap(addr as int - start as int) / 4] { return false; }
        addr := Wrap(addr as int + 4);
        ct := ct + 1;
      }
      return true;
    }

    /** Reads back up to 1 kB at a time and compares. The words that are compared are the first
        Compared(...) ones. */
    method Validate(start: u32, words: seq<u32>, media: Media) returns (r: Status)
      requires 4 * |words| < TWO32
      ensures r == if forall i :: 0 <= i < Compared(start, |words|, 0) ==> Read(Content(media), Wrap(start + 4 * i)) == words[i]
                   then Done else ValidationFailure
    {
      hide Compared, Wrap, Read;
      WrapSmall(start);
      var n := |words|;
      var end := Wrap(start + 4 * n);
      var addr := start;
      ghost var done := 0;
      ghost var total := Compared(start, n, 0);
      var more := true;
      while more
        invariant done <= n && addr == Wrap(start + 4 * done)
        invariant if more then Compared(start, n, done) == total else done == total
        invariant forall i :: 0 <= i < done ==> Read(Content(media), Wrap(start + 4 * i)) == words[i]
        decreases more, n - done
      {
        ComparedStep(start, n, done);
        var left := Wrap(end as int - addr as int);
        var len := if left >= 1024 then 256 else left / 4;
        var same := CheckPiece(start, words, media, addr, len, done);
        if !same { return ValidationFailure; }
        WrapAdd(start + 4 * done, 4 * len);
        addr := Wrap(addr as int + 4 * len);
        done := done + len;
        more := addr < end;
      }
      return Done;
    }

    /** The bytes of a file, padded with 0xff to the alignment of the medium, go to storage and are
        compared with what is there. With this device the comparison never fails, and storage then
        holds the bytes in file order. */
    method WriteBitfile(file: seq<u8>, start: u32, media: Media) returns (r: Status)
      requires Fits(start, |PaddedFile(file, media)|, media)
      modifies this
      ensures r.Done? <==> start % Alignment(media) == 0
      ensures !r.Done? ==> r.Unaligned?
      ensures r.Done? ==>
        WordsToBytes(ReadWordsAt(Content(media), start, |PaddedFile(file, media)| / 4)) == PaddedFile(file, media)
    {
      hide WordsToBytes, BytesToWords, Read, PaddedFile, Coverable, Holds, Wrap, InUnits, Alignment;
      var bytes := PaddedFile(file, media);
      PaddedSize(file, media);
      r := StoreAndCompare(BytesToWords(bytes), start, media);
      if r.Done? { HeldBytes(Content(media), start, bytes); }
    }

    method StoreAndCompare(words: seq<u32>, start: u32, media: Media) returns (r: Status)
      requires Fits(start, 4 * |words|, media)
      requires InUnits(|words|, media)
      modifies this
      ensures r.Done? <==> start % Alignment(media) == 0
      ensures !r.Done? ==> r.Unaligned?
      ensures r.Done? ==> Holds(Content(media), start, words)
    {
      hide Read, Compared, Coverable, Wrap;
      r := Store(words, start, media);
      if !r.Done? { return; }
      r := Validate(start, words, media);
    }

    /** The switch over the medium. Data for flash is already in whole units, so padding adds nothing. */
    method Store(words: seq<u32>, start: u32, media: Media) returns (r: Status)
      requires Fits(start, 4 * |words|, media)
      requires InUnits(|words|, media)
      modifies this
      ensures r.Done? <==> start % Alignment(media) == 0
      ensures !r.Done? ==> r.Unaligned?
      ensures r.Done? ==> Holds(Content(media), start, words)
    {
      hide Read, Datagrams.Write, RoundsFor, WriteCommands, ErasePages, DatagramsOf, Offset, Coverable;
      if media.Eprom? {
        assert Padded(words) == words;
        var padded;
        r, padded := WriteFlash(start, words);
      } else {
        r := WriteDram(start, words);
        if r.Done? { DramReadsBack(old(dram), start, words); }
      }
    }
  }

  /** The size is an address; and for flash the erase loop ends (see EraseCovers). */
  predicate Fits(start: u32, bytes: nat, media: Media) {
    bytes < TWO32 && (media.Eprom? && start % PAGE == 0 ==> Coverable(start, bytes))
  }

  /** Where a write may start. */
  function Alignment(media: Media): int { if media.Eprom? then PAGE else 8 }

  function PaddedFile(file: seq<u8>, media: Media): seq<u8> {
    var alignment := if media.Eprom? then 256 else 8;
    file + seq(Padding(|file|, alignment), _ => 0xff)
  }

  /** What is missing to a multiple of a. */
  function Padding(n: nat, a: nat): (p: nat)
    requires a > 0
    ensures p < a
  {
    (a - n % a) % a
  }

  lemma PaddingFills(n: nat)
    ensures (n + Padding(n, 8)) % 8 == 0 && (n + Padding(n, 256)) % 256 == 0
  {
    Fill8(n / 8, n % 8);
    Fill256(n / 256, n % 256);
  }

  lemma Fill8(q: nat, r: nat)
    requires r < 8
    ensures (8 * q + r + (8 - r) % 8) % 8 == 0
  {
    assert (8 - r) % 8 == if r == 0 then 0 else 8 - r;
  }

  lemma Fill256(q: nat, r: nat)
    requires r < 256
    ensures (256 * q + r + (256 - r) % 256) % 256 == 0
  {
    assert (256 - r) % 256 == if r == 0 then 0 else 256 - r;
  }

  lemma PaddedSize(file: seq<u8>, media: Media)
    ensures |PaddedFile(file, media)| % (if media.Eprom? then 256 else 8) == 0
    ensures |PaddedFile(file, media)| % 4 == 0 && InUnits(|PaddedFile(file, media)| / 4, media)
    ensures file <= PaddedFile(file, media)
    ensures |PaddedFile(file, media)| < |file| + if media.Eprom? then 256 else 8
    ensures forall i :: |file| <= i < |PaddedFile(file, media)| ==> PaddedFile(file, media)[i] == 0xff
  {
    hide Padding;
    PaddingFills(|file|);
    Quarters(|PaddedFile(file, media)|);
  }

  lemma Quarters(n: nat)
    ensures n % 8 == 0 ==> n % 4 == 0 && n / 4 % 2 == 0
    ensures n % 256 == 0 ==> n % 4 == 0 && n / 4 % 64 == 0
  {
    if n % 8 == 0 { TwoPerUnit(n / 8); }
    if n % 256 == 0 { ManyPerUnit(n / 256); }
  }

  lemma TwoPerUnit(q: nat)
    ensures 8 * q % 4 == 0 && 8 * q / 4 == 2 * q && 2 * q % 2 == 0
  {
  }

  lemma ManyPerUnit(q: nat)
    ensures 256 * q % 4 == 0 && 256 * q / 4 == 64 * q && 64 * q % 64 == 0
  {
  }

  /** Whole units of the medium, in words. */
  predicate InUnits(n: nat, media: Media) { n % (if media.Eprom? then 64 else 2) == 0 }

  lemma DramReadsBack(mem: Memory, addr: u32, data: seq<u32>)
    requires 4 * |data| <= TWO32
    ensures Holds(Datagrams.Write(mem, addr, data), addr, data)
  {
    hide Datagrams.Write;
    forall i | 0 <= i < |data| ensures Read(Datagrams.Write(mem, addr, data), Wrap(addr + 4 * i)) == data[i] {
      WriteWraps(mem, addr, data, i);
    }
  }

  /** Words that stand in storage compare equal, and are the bytes they were made from. */
  lemma HeldBytes(mem: Memory, start: u32, bytes: seq<u8>)
    requires |bytes| % 4 == 0 && Holds(mem, start, BytesToWords(bytes))
    ensures WordsToBytes(ReadWordsAt(mem, start, |bytes| / 4)) == bytes
    ensures forall i :: 0 <= i < |bytes| / 4 ==> Read(mem, Wrap(start + 4 * i)) == BytesToWords(bytes)[i]
  {
    hide WordsToBytes, BytesToWords, Read, Wrap;
    assert ReadWordsAt(mem, start, |bytes| / 4) == BytesToWords(bytes);
    BytesWordsBytes(bytes);
  }

  lemma {:induction false} BytesWordsBytes(b: seq<u8>)
    requires |b| % 4 == 0
    ensures WordsToBytes(BytesToWords(b)) == b
  {
    hide Word4, Bytes4;
    if b != [] {
      BytesWordsBytes(b[4..]);
      Bytes4Word4(b[..4]);
      assert BytesToWords(b)[1..] == BytesToWords(b[4..]);
      assert b == b[..4] + b[4..];
    }
  }

  lemma DropByte(high: nat, low: u8)
    ensures (low + 0x100 * high) / 0x100 == high && (low + 0x100 * high) % 0x100 == low
  {
  }

  lemma Bytes4Word4(b: seq<u8>)
    requires |b| == 4
    ensures Bytes4(Word4(b)) == b
  {
    var h := b[1] + 0x100 * b[0] as int;
    var g := b[2] + 0x100 * h;
    assert Word4(b) == b[3] + 0x100 * g;
    DropByte(g, b[3]);
    DropByte(h, b[2]);
    DropByte(b[0], b[1]);
    assert Word4(b) / 0x1_0000 == g / 0x100 && Word4(b) / 0x100_0000 == h / 0x100;
  }

  /** How many words the validation loop compares, from word `done` on: pieces of 256 words until
      the 32-bit address is not below the end address. */
  function Compared(start: u32, n: nat, done: nat): (c: nat)
    requires done <= n
    ensures done <= c <= n
    decreases n - done
  {
    var next := done + Take(n - done, 256);
    if Wrap(start + 4 * next) < Wrap(start + 4 * n) && next > done then Compared(start, n, next) else next
  }

  lemma WrapDiff(a: int, x: int, y: int)
    requires 0 <= x - y < TWO32
    ensures Wrap(Wrap(a + x) as int - Wrap(a + y) as int) == x - y
  {
  }

  lemma StepNothing(start: u32, n: nat)
    ensures Compared(start, n, n) == n
  {
  }

  lemma ComparedStep(start: u32, n: nat, done: nat)
    requires done <= n && 4 * n < TWO32
    ensures
      var left := Wrap(Wrap(start + 4 * n) as int - Wrap(start + 4 * done) as int);
      var len := if left >= 1024 then 256 else left / 4;
      && done + len <= n
      && Compared(start, n, done) ==
           (if Wrap(start + 4 * (done + len)) < Wrap(start + 4 * n) then Compared(start, n, done + len) else done + len)
      && (Wrap(start + 4 * (done + len)) < Wrap(start + 4 * n) ==> len > 0)
  {
    hide Wrap;
    WrapDiff(start, 4 * n, 4 * done);
    assert 4 * (n - done) / 4 == n - done;
    if n == done { StepNothing(start, n); }
  }

  lemma PieceIndex(start: u32, done: nat, ct: nat)
    requires 4 * (done + ct) < TWO32
    ensures Wrap(Wrap(start + 4 * (done + ct)) as int - start as int) == 4 * (done + ct)
    ensures Wrap(Wrap(start + 4 * done) + 4 * ct) == Wrap(start + 4 * (done + ct))
    ensures Wrap(Wrap(start + 4 * (done + ct)) + 4) == Wrap(start + 4 * (done + ct + 1))
  {
    hide Wrap;
    WrapAdd(start + 4 * (done + ct), 0 - start as int);
    WrapAdd(start + 4 * done, 4 * ct);
    WrapAdd(start + 4 * (done + ct), 4);
    WrapSmall(4 * (done + ct));
  }

  lemma WrapSmall(x: int)
    requires 0 <= x < TWO32
    ensures Wrap(x) == x
  {
  }

  /** Exactly when every word is compared: the data fits into one piece, or ends below 2^32, or
      its first piece already reaches 2^32. */
  lemma ComparesAll(start: u32, n: nat)
    requires 4 * n < TWO32
    ensures Compared(start, n, 0) == n <==> n <= 256 || start + 4 * n < TWO32 || start + 1024 >= TWO32
  {
    if n <= 256 {
    } else if start + 4 * n < TWO32 {
      ComparedToEnd(start, n, 0);
    } else if start + 1024 >= TWO32 {
      ComparedToEnd(start, n, 256);
    } else {
      assert Wrap(start + 1024) == start + 1024 && Wrap(start + 4 * n) == start + 4 * n - TWO32;
    }
  }

  lemma {:induction false} ComparedToEnd(start: u32, n: nat, done: nat)
    requires done <= n && 4 * n < TWO32
    requires start + 4 * n < TWO32 || start + 4 * done >= TWO32
    ensures Compared(start, n, done) == n
    decreases n - done
  {
    var next := done + Take(n - done, 256);
    if next < n {
      assert Wrap(start + 4 * next) < Wrap(start + 4 * n) by { WrapOrder(start, 4 * next, 4 * n); }
      ComparedToEnd(start, n, next);
    }
  }

  lemma WrapOrder(start: u32, x: nat, y: nat)
    requires x < y < TWO32
    requires start + y < TWO32 || start + x >= TWO32
    ensures Wrap(start + x) < Wrap(start + y)
  {
  }

  /** What has been programmed into erased flash reads back. */
  lemma FlashReadsBack(mem: Memory, addr: u32, data: seq<u32>)
    requires 4 * |data| <= TWO32
    requires forall x: u32 :: Within(addr, 4 * |data|, x) ==> Read(mem, x) == ALL_ONES
    ensures Holds(Program(mem, addr, data), addr, data)
    ensures forall a: u32 :: !Within(addr, 4 * |data|, a) ==> Read(Program(mem, addr, data), a) == Read(mem, a)
  {
    hide Program, Offset, Read, Wrap;
    forall i | 0 <= i < |data| ensures Read(Program(mem, addr, data), Wrap(addr + 4 * i)) == data[i] {
      ProgramErased(mem, addr, data, Wrap(addr + 4 * i));
      OffsetOf(addr, 4 * i);
    }
    forall a: u32 | !Within(addr, 4 * |data|, a) ensures Read(Program(mem, addr, data), a) == Read(mem, a) {
      ProgramErased(mem, addr, data, a);
    }
  }

  lemma {:induction false} ChunksWithin(cmd: Command, addr: u32, data: seq<u32>)
    requires 4 * |data| <= TWO32
    ensures forall d :: d in DatagramsOf(cmd, addr, data, FLASH_CHUNK) ==>
      d.payload != [] && Offset(addr, d.addr) + 4 * |d.payload| <= 4 * |data|
    decreases |data|
  {
    hide Offset, Wrap;
    if data != [] {
      var n := Take(|data|, FLASH_CHUNK);
      var next := Wrap(addr + 4 * n);
      ChunksWithin(cmd, next, data[n..]);
      OffsetZero(addr, addr);
      forall d | d in DatagramsOf(cmd, next, data[n..], FLASH_CHUNK)
        ensures Offset(addr, d.addr) + 4 * |d.payload| <= 4 * |data|
      {
        OffsetBefore(addr, 4 * n, d.addr);
      }
    }
  }

  lemma OffsetBefore(start: u32, n: nat, a: u32)
    requires Offset(Wrap(start + n), a) + n < TWO32
    ensures Offset(start, a) == Offset(Wrap(start + n), a) + n
  {
  }

  lemma PlayNothing(mem: Memory)
    ensures Play(mem, []) == mem && WriteCommands([]) == []
  {
  }

  lemma PlayWrite(mem: Memory, dgs: seq<Datagram>, i: nat)
    requires i < |dgs|
    ensures
      var c, rest := Write(dgs[i].addr, dgs[i].payload), WriteCommands(dgs[i + 1..]);
      WriteCommands(dgs[i..]) == [c] + rest && Play(mem, [c] + rest) == Play(Step(mem, c), rest)
  {
  }
}
