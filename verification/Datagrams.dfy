/** Datagrams, packets and the two stages of splitting data into them (src/lib/APS2Datagram.cpp,
    src/lib/APS2EthernetPacket.cpp, write_memory in src/lib/APS2.cpp). */
module Datagrams {
  import opened Words

  /** The command word. packed is its layout, cnt in the low bits. */
  datatype Command = Command(cnt: u16, modeStat: u8, cmd: u4, rw: bool, sel: bool, seq_: bool, ack: bool)

  // the command nibble
  const RESET := 0x0
  const USERIO_ACK := 0x1
  const EPROMIO := 0x2
  const CHIPCONFIGIO := 0x3
  const RUNCHIPCONFIG := 0x4
  const FPGACONFIG_ACK := 0x5
  const STATUS := 0x7

  function Bit(b: bool): int { if b then 1 else 0 }

  function Flags(c: Command): (f: int)
    ensures 0 <= f < 16
  {
    Bit(c.rw) + 2 * Bit(c.sel) + 4 * Bit(c.seq_) + 8 * Bit(c.ack)
  }

  function Pack(c: Command): u32 {
    c.cnt + 0x1_0000 * (c.modeStat + 0x100 * (c.cmd + 0x10 * Flags(c)))
  }

  function Unpack(w: u32): Command {
    var hi := w / 0x1_0000;
    var flags := hi / 0x1000;
    Command(w % 0x1_0000, hi % 0x100, hi / 0x100 % 0x10,
            flags % 2 == 1, flags / 2 % 2 == 1, flags / 4 % 2 == 1, flags / 8 == 1)
  }

  /** The bit fields of the union overlay do not overlap and cover the word. */
  lemma UnpackPack(c: Command)
    ensures Unpack(Pack(c)) == c
  {
    hide Flags;
    var hi := c.modeStat + 0x100 * (c.cmd + 0x10 * Flags(c));
    assert Pack(c) / 0x1_0000 == hi && Pack(c) % 0x1_0000 == c.cnt;
    assert hi / 0x100 == c.cmd + 0x10 * Flags(c) && hi / 0x1000 == Flags(c);
    FlagBits(c);
  }

  /** Where each field lies. */
  lemma PackFields(c: Command)
    ensures Pack(c) == c.cnt + 0x1_0000 * c.modeStat + 0x100_0000 * c.cmd +
      (if c.rw then 0x1000_0000 else 0) + (if c.sel then 0x2000_0000 else 0) +
      (if c.seq_ then 0x4000_0000 else 0) + (if c.ack then 0x8000_0000 else 0)
  {
  }

  lemma FlagBits(c: Command)
    ensures var f := Flags(c);
      c.rw == (f % 2 == 1) && c.sel == (f / 2 % 2 == 1) && c.seq_ == (f / 4 % 2 == 1) && c.ack == (f / 8 == 1)
  {
  }

  lemma PackUnpack(w: u32)
    ensures Pack(Unpack(w)) == w
  {
    hide Flags;
    var hi := w / 0x1_0000;
    FlagsRoundTrip(Unpack(w), hi / 0x1000);
    assert hi / 0x100 == hi / 0x100 % 0x10 + 0x10 * (hi / 0x1000);
    assert hi == hi % 0x100 + 0x100 * (hi / 0x100);
    assert w == w % 0x1_0000 + 0x1_0000 * hi;
  }

  lemma FlagsRoundTrip(c: Command, f: int)
    requires 0 <= f < 16
    requires c.rw == (f % 2 == 1) && c.sel == (f / 2 % 2 == 1) && c.seq_ == (f / 4 % 2 == 1) && c.ack == (f / 8 == 1)
    ensures Flags(c) == f
  {
  }

  /** Whether a command word is followed by an address. */
  predicate NeedsAddress(cmd: int) { cmd != RESET && cmd != STATUS }

  datatype Datagram = Datagram(cmd: Command, addr: u32, payload: seq<u32>)

  // ---------- acknowledges ----------

  const ERASE_MODE := 0x01

  datatype AckStatus = Accepted | CommsFailure | EraseFailure

  /** check_ack: what an acknowledge must say depends on the command it answers. */
  function CheckAck(cmd: Command, addr: u32, ack: Datagram, legacy: bool): AckStatus {
    if cmd.rw then Accepted
    else if cmd.cmd == USERIO_ACK then
      if ack.cmd.modeStat != (if legacy then 0x80 else 0x81) then CommsFailure
      else if ack.addr != (if legacy then 0 else addr) then CommsFailure
      else Accepted
    else if cmd.cmd == EPROMIO && ack.cmd.modeStat != 0 && cmd.modeStat == ERASE_MODE then EraseFailure
    else if cmd.cmd in {FPGACONFIG_ACK, EPROMIO, CHIPCONFIGIO, RUNCHIPCONFIG} && ack.cmd.modeStat != 0 then CommsFailure
    else Accepted
  }

  /** The acknowledge of a write that must be accepted, command by command. For a memory write the
      status is a tag, which the older firmware (UDP) and the newer one (TCP) set differently, and
      only the newer one repeats the address. The configuration commands answer with status 0, and
      of the others nothing is asked. */
  predicate RightAck(cmd: int, addr: u32, ackStatus: int, ackAddr: u32, legacy: bool) {
    match cmd
    case 1 => if legacy then ackStatus == 0x80 && ackAddr == 0 else ackStatus == 0x81 && ackAddr == addr
    case 2 => ackStatus == 0
    case 3 => ackStatus == 0
    case 4 => ackStatus == 0
    case 5 => ackStatus == 0
    case _ => true
  }

  /** No right acknowledge is refused and no other one accepted; a bad one to an erase is told apart. */
  lemma AckExact(cmd: Command, addr: u32, ack: Datagram, legacy: bool)
    ensures
      var r, right := CheckAck(cmd, addr, ack, legacy), RightAck(cmd.cmd, addr, ack.cmd.modeStat, ack.addr, legacy);
      && (r.Accepted? <==> cmd.rw || right)
      && (r.EraseFailure? <==> !cmd.rw && !right && cmd.cmd == 2 && cmd.modeStat == 1)
  {
  }

  // ---------- stage 1: datagrams ----------

  /** The size of the next piece. */
  function Take(left: nat, most: nat): (n: nat)
    requires most > 0
    ensures n <= left && n <= most && (n == left || n == most) && (left > 0 ==> n > 0)
  {
    if left > most then most else left
  }

  function DatagramsOf(cmd: Command, addr: u32, data: seq<u32>, size: nat): seq<Datagram>
    requires 0 < size < TWO16
    decreases |data|
  {
    if data == [] then []
    else
      var n := Take(|data|, size);
      [Datagram(cmd.(cnt := n), addr, data[..n])] + DatagramsOf(cmd, Wrap(addr + 4 * n), data[n..], size)
  }

  lemma DatagramsStep(cmd: Command, at: u32, data: seq<u32>, start: nat, size: nat, done: seq<Datagram>)
    requires start < |data| && 0 < size < TWO16
    ensures
      var n := Take(|data| - start, size);
      done + DatagramsOf(cmd, at, data[start..], size) ==
        done + [Datagram(cmd.(cnt := n), at, data[start..start + n])] + DatagramsOf(cmd, Wrap(at + 4 * n), data[start + n..], size)
  {
    var n := Take(|data| - start, size);
    assert data[start..][..n] == data[start..start + n] && data[start..][n..] == data[start + n..];
  }

  lemma DatagramsEnd(cmd: Command, at: u32, size: nat)
    requires 0 < size < TWO16
    ensures DatagramsOf(cmd, at, [], size) == []
  {
  }

  method ChunkDatagrams(cmd: Command, addr: u32, data: seq<u32>, size: nat) returns (chunks: seq<Datagram>)
    requires 0 < size < TWO16
    ensures chunks == DatagramsOf(cmd, addr, data, size)
  {
    hide DatagramsOf, Wrap, Take;
    chunks := [];
    var start := 0;
    var at := addr;
    assert data[0..] == data;
    ghost var whole := DatagramsOf(cmd, addr, data, size);
    while start != |data|
      invariant start <= |data|
      invariant whole == chunks + DatagramsOf(cmd, at, data[start..], size)
      decreases |data| - start
    {
      var n := Take(|data| - start, size);
      var end := start + n;
      DatagramsStep(cmd, at, data, start, size, chunks);
      chunks := chunks + [Datagram(cmd.(cnt := n), at, data[start..end])];
      start := end;
      at := Wrap(at + 4 * n);
    }
    DatagramsEnd(cmd, at, size);
    assert data[start..] == [] && chunks + [] == chunks;
  }

  // ---------- stage 2: packets ----------

  const MAX_PAYLOAD := 256

  datatype Packet = Packet(seqNum: u16, command: Command, addr: u32, payload: seq<u32>)

  function NextSeq(n: u16): u16 { (n + 1) % TWO16 }

  /** The loop body runs at least once, so data without words makes one packet without payload. */
  function PacketsOf(addr: u32, data: seq<u32>, cmd: Command, seqNum: u16): (ps: seq<Packet>)
    ensures ps != []
    decreases |data|
  {
    var n := Take(|data|, MAX_PAYLOAD);
    [Packet(seqNum, cmd.(ack := false, sel := false, cnt := n), addr, data[..n])] +
    if n == |data| then [] else PacketsOf(Wrap(addr + 4 * n), data[n..], cmd, NextSeq(seqNum))
  }

  /** A packet with n words of data from idx on. */
  function PacketAt(cur: u32, data: seq<u32>, idx: nat, n: nat, cmd: Command, seqNum: u16): Packet
    requires idx + n <= |data| && n <= MAX_PAYLOAD
  {
    Packet(seqNum, cmd.(ack := false, sel := false, cnt := n), cur, data[idx..idx + n])
  }

  lemma PacketsStep(cur: u32, data: seq<u32>, idx: nat, cmd: Command, seqNum: u16, done: seq<Packet>)
    requires idx <= |data|
    ensures
      var n := Take(|data| - idx, MAX_PAYLOAD);
      var p := PacketAt(cur, data, idx, n, cmd, seqNum);
      done + PacketsOf(cur, data[idx..], cmd, seqNum) ==
        if idx + n == |data| then done + [p]
        else done + [p] + PacketsOf(Wrap(cur + 4 * n), data[idx + n..], cmd, NextSeq(seqNum))
  {
    var n := Take(|data| - idx, MAX_PAYLOAD);
    assert data[idx..][..n] == data[idx..idx + n] && data[idx..][n..] == data[idx + n..];
  }

  method ChunkPackets(addr: u32, data: seq<u32>, cmd: Command) returns (packets: seq<Packet>)
    ensures packets == PacketsOf(addr, data, cmd, 0)
  {
    packets := [];
    var idx := 0;
    var seqNum: u16 := 0;
    var cur := addr;
    var more := true;
    hide PacketsOf, NextSeq, Wrap, Take, PacketAt;
    assert data[0..] == data;
    ghost var whole := PacketsOf(addr, data, cmd, 0);
    while more
      invariant idx <= |data|
      invariant more ==> whole == packets + PacketsOf(cur, data[idx..], cmd, seqNum)
      invariant !more ==> whole == packets
      decreases more, |data| - idx
    {
      var n := Take(|data| - idx, MAX_PAYLOAD);
      PacketsStep(cur, data, idx, cmd, seqNum, packets);
      packets := packets + [PacketAt(cur, data, idx, n, cmd, seqNum)];
      seqNum := NextSeq(seqNum);
      cur := Wrap(cur + 4 * n);
      idx := idx + n;
      more := idx != |data|;
    }
  }

  /** A datagram or packet says how many words it carries, and no more than fit. */
  predicate Counted(command: Command, cmd: Command, payload: seq<u32>, size: nat) {
    command == cmd.(cnt := command.cnt) && command.cnt == |payload| <= size
  }

  /** 16-byte units at 16-byte addresses. */
  predicate Aligned(addr: u32, payload: seq<u32>) { addr % 16 == 0 && |payload| % 4 == 0 }

  lemma AlignedSplit(addr: u32, data: seq<u32>, n: nat)
    requires n <= |data| && Aligned(addr, data) && n % 4 == 0
    ensures Aligned(addr, data[..n]) && Aligned(Wrap(addr + 4 * n), data[n..])
  {
    hide Wrap;
    assert |data[..n]| % 4 == 0 && |data[n..]| % 4 == 0;
    WrapAligned(addr, n);
  }

  lemma WrapAligned(addr: u32, n: nat)
    requires addr % 16 == 0 && n % 4 == 0
    ensures Wrap(addr + 4 * n) % 16 == 0
  {
  }

  lemma {:induction false} DatagramShapes(cmd: Command, addr: u32, data: seq<u32>, size: nat)
    requires 0 < size < TWO16
    ensures forall d :: d in DatagramsOf(cmd, addr, data, size) ==> Counted(d.cmd, cmd, d.payload, size) && d.payload != []
    ensures Aligned(addr, data) && size % 4 == 0 ==>
      forall d :: d in DatagramsOf(cmd, addr, data, size) ==> Aligned(d.addr, d.payload)
    decreases |data|
  {
    hide Aligned, Wrap;
    if data != [] {
      var n := Take(|data|, size);
      DatagramShapes(cmd, Wrap(addr + 4 * n), data[n..], size);
      if Aligned(addr, data) && size % 4 == 0 {
        assert |data| % 4 == 0 by { AlignedLength(addr, data); }
        AlignedSplit(addr, data, n);
      }
    }
  }

  lemma AlignedLength(addr: u32, data: seq<u32>)
    requires Aligned(addr, data)
    ensures |data| % 4 == 0
  {
  }

  lemma {:induction false} PacketShapes(addr: u32, data: seq<u32>, cmd: Command, seqNum: u16)
    ensures forall p :: p in PacketsOf(addr, data, cmd, seqNum) ==>
      Counted(p.command, cmd.(ack := false, sel := false), p.payload, 256)
    ensures Aligned(addr, data) ==>
      forall p :: p in PacketsOf(addr, data, cmd, seqNum) ==> Aligned(p.addr, p.payload)
    decreases |data|
  {
    hide Aligned, Wrap, NextSeq;
    var n := Take(|data|, MAX_PAYLOAD);
    if Aligned(addr, data) {
      AlignedLength(addr, data);
      AlignedSplit(addr, data, n);
    }
    if n < |data| {
      PacketShapes(Wrap(addr + 4 * n), data[n..], cmd, NextSeq(seqNum));
    }
  }

  /** Every piece but the last one is as large as it may be. */
  lemma {:induction false} DatagramsFull(cmd: Command, addr: u32, data: seq<u32>, size: nat)
    requires 0 < size < TWO16
    ensures var ds := DatagramsOf(cmd, addr, data, size);
      forall i :: 0 <= i < |ds| - 1 ==> |ds[i].payload| == size
    decreases |data|
  {
    hide Wrap;
    if |data| > size {
      var at := Wrap(addr + 4 * size);
      DatagramsFull(cmd, at, data[size..], size);
      var ds := DatagramsOf(cmd, addr, data, size);
      assert ds[1..] == DatagramsOf(cmd, at, data[size..], size);
      assert forall i :: 0 < i < |ds| ==> ds[i] == ds[1..][i - 1];
    } else if data != [] {
      DatagramsEnd(cmd, Wrap(addr + 4 * |data|), size);
      assert data[|data|..] == [];
    }
  }

  /** Packets likewise; and they are numbered. */
  lemma {:induction false} PacketsFull(addr: u32, data: seq<u32>, cmd: Command, seqNum: u16, i: nat)
    requires i < |PacketsOf(addr, data, cmd, seqNum)|
    ensures var ps := PacketsOf(addr, data, cmd, seqNum);
      (i < |ps| - 1 ==> |ps[i].payload| == 256) && ps[i].seqNum == (seqNum + i) % 0x1_0000
    decreases |data|
  {
    hide Wrap, NextSeq;
    if i == 0 {
      NumberItself(seqNum);
    } else {
      PacketsFull(Wrap(addr + 4 * 256), data[256..], cmd, NextSeq(seqNum), i - 1);
      NextNumber(seqNum, i - 1);
    }
  }

  lemma NumberItself(seqNum: u16)
    ensures (seqNum + 0) % 0x1_0000 == seqNum
  {
  }

  lemma NextNumber(seqNum: u16, i: nat)
    ensures (NextSeq(seqNum) + i) % 0x1_0000 == (seqNum + (i + 1)) % 0x1_0000
  {
  }

  // ---------- write_memory ----------

  const SDRAM_END := 0x4000_0000
  const MEMORY_CHUNK := 0xfffc

  const WRITE_COMMAND := Command(0, 0, USERIO_ACK, false, false, false, true)

  /** The command word of a memory write. */
  lemma WriteWord(n: u16)
    ensures Pack(WRITE_COMMAND.(cnt := n)) == 0x8100_0000 + n
  {
  }

  datatype Result<T> = Ok(value: T) | UnalignedMemoryAccess | CommsError

  predicate Writable(addr: u32, data: seq<u32>) {
    addr < 0x4000_0000 ==> addr % 16 == 0 && |data| % 4 == 0
  }

  method WriteMemory(addr: u32, data: seq<u32>) returns (r: Result<seq<Datagram>>)
    ensures r.Ok? <==> Writable(addr, data)
    ensures !r.Ok? ==> r.UnalignedMemoryAccess?
    ensures r.Ok? ==> forall mem :: ApplyPackets(mem, AllPackets(r.value)) == ApplyDatagrams(mem, r.value) == Write(mem, addr, data)
    ensures r.Ok? && addr < SDRAM_END ==>
      forall d :: d in r.value ==> Aligned(d.addr, d.payload) && forall p :: p in PacketsOf(d.addr, d.payload, d.cmd, 0) ==> Aligned(p.addr, p.payload)
    ensures r.Ok? ==> forall d :: d in r.value ==> Counted(d.cmd, WRITE_COMMAND, d.payload, 0xfffc)
    ensures r.Ok? ==> r.value == DatagramsOf(WRITE_COMMAND, addr, data, MEMORY_CHUNK)
  {
    hide ApplyPackets, ApplyDatagrams, Write, AllPackets, PacketsOf, DatagramsOf, Counted;
    if addr < SDRAM_END {
      if addr % 16 != 0 { return UnalignedMemoryAccess; }
      if |data| % 4 != 0 { return UnalignedMemoryAccess; }
    }
    var cmd := WRITE_COMMAND;
    var dgs := ChunkDatagrams(cmd, addr, data, MEMORY_CHUNK);
    forall mem ensures ApplyPackets(mem, AllPackets(dgs)) == ApplyDatagrams(mem, dgs) == Write(mem, addr, data) {
      DoubleChunking(mem, cmd, addr, data, MEMORY_CHUNK);
      DatagramsWrite(mem, cmd, addr, data, MEMORY_CHUNK);
    }
    DatagramShapes(cmd, addr, data, MEMORY_CHUNK);
    forall d | addr < SDRAM_END && d in dgs
      ensures Aligned(d.addr, d.payload) && forall p :: p in PacketsOf(d.addr, d.payload, d.cmd, 0) ==> Aligned(p.addr, p.payload)
    {
      PacketShapes(d.addr, d.payload, d.cmd, 0);
    }
    return Ok(dgs);
  }

  // ---------- what the packets do to a memory ----------

  type Memory = map<u32, u32>

  /** A word that was never written reads as 0. */
  function Word(mem: Memory, a: u32): u32 { if a in mem then mem[a] else 0 }

  /** One contiguous write of words from byte address addr on. */
  function Write(mem: Memory, addr: u32, data: seq<u32>): Memory
    decreases |data|
  {
    if data == [] then mem else Write(mem[addr := data[0]], Wrap(addr + 4), data[1..])
  }

  function ApplyPackets(mem: Memory, ps: seq<Packet>): Memory
    decreases |ps|
  {
    if ps == [] then mem else ApplyPackets(Write(mem, ps[0].addr, ps[0].payload), ps[1..])
  }

  /** All packets of all datagrams, in the order in which they are sent. */
  function AllPackets(dgs: seq<Datagram>): seq<Packet> {
    if dgs == [] then []
    else PacketsOf(dgs[0].addr, dgs[0].payload, dgs[0].cmd, 0) + AllPackets(dgs[1..])
  }

  function ApplyDatagrams(mem: Memory, dgs: seq<Datagram>): Memory
    decreases |dgs|
  {
    if dgs == [] then mem else ApplyDatagrams(Write(mem, dgs[0].addr, dgs[0].payload), dgs[1..])
  }

  lemma {:induction false} WriteSplit(mem: Memory, addr: u32, data: seq<u32>, n: nat)
    requires n <= |data|
    ensures Write(mem, addr, data) == Write(Write(mem, addr, data[..n]), Wrap(addr + 4 * n), data[n..])
    decreases n
  {
    if n == 0 {
      assert data[0..] == data;
    } else {
      assert data[..n][1..] == data[1..][..n - 1] && data[n..] == data[1..][n - 1..];
      WrapAdd(addr + 4, 4 * (n - 1));
      WriteSplit(mem[addr := data[0]], Wrap(addr + 4), data[1..], n - 1);
    }
  }

  lemma {:induction false} ApplyConcat(mem: Memory, a: seq<Packet>, b: seq<Packet>)
    ensures ApplyPackets(mem, a + b) == ApplyPackets(ApplyPackets(mem, a), b)
    decreases |a|
  {
    if a == [] {
      assert a + b == b;
    } else {
      assert (a + b)[1..] == a[1..] + b;
      ApplyConcat(Write(mem, a[0].addr, a[0].payload), a[1..], b);
    }
  }

  lemma {:induction false} PacketsWrite(mem: Memory, addr: u32, data: seq<u32>, cmd: Command, seqNum: u16)
    ensures ApplyPackets(mem, PacketsOf(addr, data, cmd, seqNum)) == Write(mem, addr, data)
    decreases |data|
  {
    var n := Take(|data|, MAX_PAYLOAD);
    WriteSplit(mem, addr, data, n);
    var mem' := Write(mem, addr, data[..n]);
    if n < |data| {
      PacketsWrite(mem', Wrap(addr + 4 * n), data[n..], cmd, NextSeq(seqNum));
    }
  }

  lemma {:induction false} DatagramsWrite(mem: Memory, cmd: Command, addr: u32, data: seq<u32>, size: nat)
    requires 0 < size < TWO16
    ensures ApplyDatagrams(mem, DatagramsOf(cmd, addr, data, size)) == Write(mem, addr, data)
    decreases |data|
  {
    if data != [] {
      var n := Take(|data|, size);
      WriteSplit(mem, addr, data, n);
      DatagramsWrite(Write(mem, addr, data[..n]), cmd, Wrap(addr + 4 * n), data[n..], size);
    }
  }

  /** Splitting twice changes nothing: all packets of all datagrams together make the one flat
      write, addresses wrapping at 2^32 alike. */
  lemma {:induction false} DoubleChunking(mem: Memory, cmd: Command, addr: u32, data: seq<u32>, size: nat)
    requires 0 < size < TWO16
    ensures ApplyPackets(mem, AllPackets(DatagramsOf(cmd, addr, data, size))) == Write(mem, addr, data)
    decreases |data|
  {
    if data != [] {
      var n := Take(|data|, size);
      var d := Datagram(cmd.(cnt := n), addr, data[..n]);
      var rest := DatagramsOf(cmd, Wrap(addr + 4 * n), data[n..], size);
      assert DatagramsOf(cmd, addr, data, size)[1..] == rest;
      ApplyConcat(mem, PacketsOf(addr, data[..n], d.cmd, 0), AllPackets(rest));
      PacketsWrite(mem, addr, data[..n], d.cmd, 0);
      WriteSplit(mem, addr, data, n);
      DoubleChunking(Write(mem, addr, data[..n]), cmd, Wrap(addr + 4 * n), data[n..], size);
    }
  }

  /** What a write that stays below 2^32 stores: word i at addr + 4 * i, and nothing elsewhere. */
  lemma {:induction false} WriteStores(mem: Memory, addr: u32, data: seq<u32>, a: u32)
    requires addr + 4 * |data| <= TWO32
    ensures
      var w := Write(mem, addr, data);
      if addr <= a < addr + 4 * |data| && (a - addr) % 4 == 0 then a in w && w[a] == data[(a - addr) / 4]
      else (a in w <==> a in mem) && (a in mem ==> w[a] == mem[a])
    decreases |data|
  {
    if |data| == 1 {
      assert data[1..] == [];
    } else if |data| > 1 {
      WriteStores(mem[addr := data[0]], addr + 4, data[1..], a);
    }
  }

  /** A write that may wrap around but not onto itself stores word i at addr + 4 * i, and nothing where it
      stores no word. */
  lemma {:induction false} WriteWraps(mem: Memory, addr: u32, data: seq<u32>, i: nat)
    requires 4 * |data| <= TWO32 && i < |data|
    ensures var w := Write(mem, addr, data); Wrap(addr + 4 * i) in w && w[Wrap(addr + 4 * i)] == data[i]
    decreases |data|
  {
    hide Write, Wrap;
    WriteStep(mem, addr, data);
    WrapOf(addr);
    var mem' := mem[addr := data[0]];
    if i > 0 {
      WrapAdd(addr + 4, 4 * (i - 1));
      WriteWraps(mem', Wrap(addr + 4), data[1..], i - 1);
    } else {
      forall j | 0 <= j < |data| - 1 ensures Wrap(Wrap(addr + 4) + 4 * j) != addr {
        WrapAdd(addr + 4, 4 * j);
        WrapMoves(addr, 4 + 4 * j);
      }
      WriteMisses(mem', Wrap(addr + 4), data[1..], addr);
    }
  }

  lemma {:induction false} WriteMisses(mem: Memory, addr: u32, data: seq<u32>, a: u32)
    requires forall j :: 0 <= j < |data| ==> Wrap(addr + 4 * j) != a
    ensures var w := Write(mem, addr, data); (a in w <==> a in mem) && (a in mem ==> w[a] == mem[a])
    decreases |data|
  {
    hide Wrap;
    if data != [] {
      WrapOf(addr);
      assert Wrap(addr + 4 * 0) != a;
      forall j | 0 <= j < |data| - 1 ensures Wrap(Wrap(addr + 4) + 4 * j) != a {
        WrapAdd(addr + 4, 4 * j);
        assert Wrap(addr + 4 * (j + 1)) != a;
      }
      WriteMisses(mem[addr := data[0]], Wrap(addr + 4), data[1..], a);
    }
  }

  lemma WriteStep(mem: Memory, addr: u32, data: seq<u32>)
    requires data != []
    ensures Write(mem, addr, data) == Write(mem[addr := data[0]], Wrap(addr + 4), data[1..])
  {
  }
}
