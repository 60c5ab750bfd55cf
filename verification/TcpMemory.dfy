/** A memory at the other end of a TCP link, with the newer firmware's acknowledges. */
module TcpMemory {
  import opened Words
  import opened Datagrams
  import opened TcpFraming
  import opened TcpLink
  import UdpMemory

  /** Command 1 reads and writes memory. An acknowledge to it carries the tag 0x81 and the address. */
  function Respond(mem: Memory, d: Datagram): (Memory, seq<Datagram>) {
    var mine := d.cmd.cmd == 1;
    var addr := if mine then d.addr else 0;
    if d.cmd.rw then (mem, [Datagram(d.cmd, addr, UdpMemory.WordsAt(mem, d.addr, d.cmd.cnt))])
    else (if mine then Datagrams.Write(mem, d.addr, d.payload) else mem,
          if d.cmd.ack then [Datagram(Command(0, if mine then 0x81 else 0, d.cmd.cmd, false, false, false, true), addr, [])]
          else [])
  }

  function MemoryDevice(): Device<Memory> { Device(Respond) }

  lemma MemoryDeviceAnswers()
    ensures Answers(MemoryDevice())
  {
  }

  /** Memory writes in a transfer. */
  predicate AreWrites(ds: seq<Datagram>) { forall d :: d in ds ==> d.cmd.cmd == 1 && !d.cmd.rw && d.cmd.ack }

  /** They are all accepted, and the memory has taken them. */
  lemma {:induction false} TransferArrives(mem: Memory, ds: seq<Datagram>)
    requires AreWrites(ds) && Answers(MemoryDevice())
    ensures Verdict(MemoryDevice(), mem, ds).Accepted?
    ensures After(MemoryDevice(), mem, ds) == ApplyDatagrams(mem, ds)
  {
    hide Datagrams.Write;
    if ds != [] {
      var n := |ds| - 1;
      assert ds[n] in ds;
      TransferArrives(mem, ds[..n]);
      UdpMemory.ApplyLast(mem, ds[..n], ds[n]);
      assert ds == ds[..n] + [ds[n]];
      var r := LastAnswer(MemoryDevice(), mem, ds);
      AckExact(ds[n].cmd, ds[n].addr, r[0], false);
    }
  }

  /** write_memory and then a read of its first n words, over TCP. */
  method UploadAndRead(link: Link<Memory>, addr: u32, data: seq<u32>, n: u16) returns (words: Result<seq<u32>>)
    requires link.dev == MemoryDevice() && link.stream.pending == []
    requires 4 * |data| <= TWO32 && n <= |data|
    modifies link, link.stream
    ensures link.stream.pending == []
    ensures words == if Writable(addr, data) then Ok(data[..n]) else UnalignedMemoryAccess
    ensures link.state == if words.Ok? then Datagrams.Write(old(link.state), addr, data) else old(link.state)
    ensures !words.Ok? ==> link.sent == old(link.sent)
  {
    hide DatagramsOf, Datagrams.Write, Answers, MemoryDevice, PacketsOf, ApplyPackets, ApplyDatagrams, Verdict, After, DataAll;
    MemoryDeviceAnswers();
    ghost var before := link.state;
    var r := Datagrams.WriteMemory(addr, data);
    if !r.Ok? { return UnalignedMemoryAccess; }
    TransferArrives(before, r.value);
    var status := link.Send(r.value);
    assert r.value[..|r.value|] == r.value;
    var request := Datagram(Command(n, 0, USERIO_ACK, true, false, false, false), addr, []);
    ReadAnswer(link.state, request);
    UdpMemory.StoredWords(before, addr, data, n);
    var answer := link.Request(request);
    return Ok(answer.payload);
  }

  lemma ReadAnswer(mem: Memory, d: Datagram)
    requires d.cmd.rw && d.cmd.cmd == 1
    ensures MemoryDevice().step(mem, d) == (mem, [Datagram(d.cmd, d.addr, UdpMemory.WordsAt(mem, d.addr, d.cmd.cnt))])
  {
  }
}
