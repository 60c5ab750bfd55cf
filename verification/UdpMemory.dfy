/** A memory at the other end of a UDP link: uploads arrive as one flat write and read back. */
module UdpMemory {
  import opened Words
  import opened Datagrams
  import opened UdpLink

  function WordsAt(mem: Memory, addr: u32, n: nat): (ws: seq<u32>)
    ensures |ws| == n
  {
    seq(n, i requires 0 <= i < n => Word(mem, Wrap(addr + 4 * i)))
  }

  /** An acknowledge that check_ack accepts from this firmware. */
  function GoodAck(p: Packet): Datagram {
    Datagram(Command(0, if p.command.cmd == USERIO_ACK then 0x80 else 0, p.command.cmd, false, false, false, true), 0, [])
  }

  function Respond(mem: Memory, p: Packet): (Memory, seq<Datagram>) {
    if p.command.rw then (mem, [Datagram(p.command, p.addr, WordsAt(mem, p.addr, p.command.cnt))])
    else (Datagrams.Write(mem, p.addr, p.payload), if p.command.cmd < 8 then [GoodAck(p)] else [])
  }

  function MemoryDevice(): Device<Memory> { Device(Respond) }

  lemma MemoryDeviceAnswers()
    ensures Answers(MemoryDevice())
  {
  }

  lemma {:induction false} MemoryDeviceAcks(mem: Memory, ps: seq<Packet>)
    ensures Acked(MemoryDevice(), mem, ps)
  {
    if ps != [] { MemoryDeviceAcks(mem, ps[..|ps| - 1]); }
  }

  lemma {:induction false} PlayApplies(mem: Memory, ps: seq<Packet>)
    requires forall p :: p in ps ==> !p.command.rw
    ensures Play(MemoryDevice(), mem, ps).0 == ApplyPackets(mem, ps)
  {
    hide Datagrams.Write;
    if ps != [] {
      var n := |ps| - 1;
      PlayApplies(mem, ps[..n]);
      ApplyConcat(mem, ps[..n], [ps[n]]);
      assert ps == ps[..n] + [ps[n]] && [ps[n]][1..] == [];
    }
  }

  /** Flags and sequence numbers make no difference to a memory. */
  lemma {:induction false} SameWrites(mem: Memory, ps: seq<Packet>, qs: seq<Packet>)
    requires |ps| == |qs|
    requires forall i :: 0 <= i < |ps| ==> ps[i].addr == qs[i].addr && ps[i].payload == qs[i].payload
    ensures ApplyPackets(mem, ps) == ApplyPackets(mem, qs)
    decreases |ps|
  {
    if ps != [] {
      SameWrites(Datagrams.Write(mem, ps[0].addr, ps[0].payload), ps[1..], qs[1..]);
    }
  }

  lemma DatagramArrives(mem: Memory, d: Datagram)
    requires !d.cmd.rw
    ensures Play(MemoryDevice(), mem, Wire(d)).0 == Datagrams.Write(mem, d.addr, d.payload)
  {
    hide Datagrams.Write, PacketsOf, ApplyPackets, Play;
    var ps := PacketsOf(d.addr, d.payload, d.cmd, 0);
    PacketShapes(d.addr, d.payload, d.cmd, 0);
    PlayApplies(mem, Wire(d));
    SameWrites(mem, Wire(d), ps);
    PacketsWrite(mem, d.addr, d.payload, d.cmd, 0);
  }

  lemma {:induction false} DatagramsArrive(mem: Memory, ds: seq<Datagram>)
    requires forall d :: d in ds ==> !d.cmd.rw
    ensures Play(MemoryDevice(), mem, WireAll(ds)).0 == ApplyDatagrams(mem, ds)
  {
    hide Datagrams.Write, Wire, Play;
    if ds == [] {
      PlayNothing(MemoryDevice(), mem);
    } else {
      var n := |ds| - 1;
      DatagramsArrive(mem, ds[..n]);
      PlayConcat(MemoryDevice(), mem, WireAll(ds[..n]), Wire(ds[n]));
      DatagramArrives(ApplyDatagrams(mem, ds[..n]), ds[n]);
      ApplyLast(mem, ds[..n], ds[n]);
      assert ds == ds[..n] + [ds[n]];
    }
  }

  lemma {:induction false} ApplyLast(mem: Memory, ds: seq<Datagram>, d: Datagram)
    ensures ApplyDatagrams(mem, ds + [d]) == Datagrams.Write(ApplyDatagrams(mem, ds), d.addr, d.payload)
    decreases |ds|
  {
    hide Datagrams.Write;
    if ds == [] {
      assert ([] + [d])[1..] == [];
    } else {
      assert (ds + [d])[1..] == ds[1..] + [d];
      ApplyLast(Datagrams.Write(mem, ds[0].addr, ds[0].payload), ds[1..], d);
    }
  }

  /** The whole way: a vector split into datagrams, packets and windows is one flat write. */
  lemma UploadArrives(mem: Memory, cmd: Command, addr: u32, data: seq<u32>, size: nat)
    requires 0 < size < TWO16 && !cmd.rw
    ensures Play(MemoryDevice(), mem, WireAll(DatagramsOf(cmd, addr, data, size))).0 == Datagrams.Write(mem, addr, data)
  {
    hide Play, WireAll, DatagramsOf, ApplyDatagrams, Datagrams.Write;
    DatagramShapes(cmd, addr, data, size);
    DatagramsArrive(mem, DatagramsOf(cmd, addr, data, size));
    DatagramsWrite(mem, cmd, addr, data, size);
  }

  /** write_memory and then a read of its first n words. The write is rejected exactly if it is not
      aligned, and then nothing is sent. */
  method UploadAndRead(link: Link<Memory>, addr: u32, data: seq<u32>, n: u16) returns (words: Result<seq<u32>>)
    requires link.dev == MemoryDevice() && link.queue == []
    requires 4 * |data| <= TWO32 && n <= |data|
    modifies link
    ensures link.queue == []
    ensures words == if Writable(addr, data) then Ok(data[..n]) else UnalignedMemoryAccess
    ensures link.state == if words.Ok? then Datagrams.Write(old(link.state), addr, data) else old(link.state)
    ensures !words.Ok? ==> link.wire == old(link.wire)
  {
    hide Play, WireAll, DatagramsOf, Datagrams.Write, Answers, Acked, MemoryDevice, PacketsOf, Wire, ApplyPackets, ApplyDatagrams;
    MemoryDeviceAnswers();
    MemoryDeviceAcks(link.state, WireAll(DatagramsOf(WRITE_COMMAND, addr, data, MEMORY_CHUNK)));
    ghost var before := link.state;
    var r := Datagrams.WriteMemory(addr, data);
    if !r.Ok? { return UnalignedMemoryAccess; }
    var dgs := r.value;
    DatagramShapes(WRITE_COMMAND, addr, data, MEMORY_CHUNK);
    UploadArrives(before, WRITE_COMMAND, addr, data, MEMORY_CHUNK);
    var status := link.Send(dgs);
    var request := Datagram(Command(n, 0, USERIO_ACK, true, false, false, false), addr, []);
    ReadAnswer(link.state, request);
    StoredWords(before, addr, data, n);
    var answer := link.Request(request);
    return Ok(answer.payload);
  }

  lemma ReadAnswer(mem: Memory, d: Datagram)
    requires d.cmd.rw && d.payload == []
    ensures Play(MemoryDevice(), mem, Wire(d)).0 == mem
    ensures
      var r := Play(MemoryDevice(), mem, Wire(d)).1;
      |r| == 1 && r[0].payload == WordsAt(mem, d.addr, d.cmd.cnt)
  {
  }

  lemma StoredWords(mem: Memory, addr: u32, data: seq<u32>, n: nat)
    requires 4 * |data| <= TWO32 && n <= |data|
    ensures WordsAt(Datagrams.Write(mem, addr, data), addr, n) == data[..n]
  {
    hide Datagrams.Write;
    forall i | 0 <= i < n ensures WordsAt(Datagrams.Write(mem, addr, data), addr, n)[i] == data[i] {
      WriteWraps(mem, addr, data, i);
    }
  }
}
