/** Datagrams over UDP (send and read in src/lib/APS2Ethernet.cpp): packets go out in windows of at
    most 20, of which only the last one asks for an acknowledge. The receive thread is taken as
    atomic: what a device answers to a packet is in the queue when the send returns. */
module UdpLink {
  import opened Words
  import opened Datagrams

  const WINDOW := 20

  /** Bit 3 of the command nibble asks the device not to acknowledge. */
  function SetNoAck(cmd: u4): u4 { if cmd < 8 then cmd + 8 else cmd }
  function ClearNoAck(cmd: u4): u4 { cmd % 8 }

  predicate AsksAnswer(p: Packet) { p.command.rw || p.command.cmd < 8 }

  /** A device: how it changes with a packet and what it sends back. */
  datatype Device<!S> = Device(step: (S, Packet) -> (S, seq<Datagram>))

  /** The device answers in order: one response to a read, one acknowledge, good or bad, to a write
      that asks for it, nothing to a write that does not. */
  ghost predicate Answers<S(!new)>(dev: Device<S>) {
    forall s, p {:trigger dev.step(s, p)} ::
      var r := dev.step(s, p).1;
      |r| == if AsksAnswer(p) then 1 else 0
  }

  /** The acknowledge a that answers packet p is a good one. */
  predicate Good(p: Packet, a: seq<Datagram>) {
    !p.command.rw && |a| == 1 ==> CheckAck(p.command, p.addr, a[0], true).Accepted?
  }

  /** All the acknowledges that these packets get are good. */
  ghost predicate Acked<S>(dev: Device<S>, s: S, ps: seq<Packet>) {
    ps == [] ||
      var n := |ps| - 1;
      Acked(dev, s, ps[..n]) && Good(ps[n], dev.step(Play(dev, s, ps[..n]).0, ps[n]).1)
  }

  /** The device after a list of packets, and all it sent back. */
  function Play<S>(dev: Device<S>, s: S, ps: seq<Packet>): (S, seq<Datagram>) {
    if ps == [] then (s, [])
    else
      var (s1, r1) := Play(dev, s, ps[..|ps| - 1]);
      var (s2, r2) := dev.step(s1, ps[|ps| - 1]);
      (s2, r1 + r2)
  }

  lemma {:induction false} PlayConcat<S>(dev: Device<S>, s: S, a: seq<Packet>, b: seq<Packet>)
    ensures Play(dev, s, a + b).0 == Play(dev, Play(dev, s, a).0, b).0
    ensures Play(dev, s, a + b).1 == Play(dev, s, a).1 + Play(dev, Play(dev, s, a).0, b).1
    decreases |b|
  {
    if b == [] {
      assert a + b == a;
    } else {
      assert (a + b)[..|a + b| - 1] == a + b[..|b| - 1];
      PlayConcat(dev, s, a, b[..|b| - 1]);
    }
  }

  lemma {:induction false} AckedConcat<S>(dev: Device<S>, s: S, a: seq<Packet>, b: seq<Packet>)
    ensures Acked(dev, s, a + b) <==> Acked(dev, s, a) && Acked(dev, Play(dev, s, a).0, b)
    decreases |b|
  {
    hide Play, Good;
    if b == [] {
      assert a + b == a;
    } else {
      assert (a + b)[..|a + b| - 1] == a + b[..|b| - 1];
      AckedConcat(dev, s, a, b[..|b| - 1]);
      PlayConcat(dev, s, a, b[..|b| - 1]);
    }
  }

  /** The acknowledges are good exactly if each of them is the right one. */
  lemma {:induction false} AckedIff<S(!new)>(dev: Device<S>, s: S, ps: seq<Packet>)
    requires Answers(dev)
    ensures Acked(dev, s, ps) <==>
      forall i :: 0 <= i < |ps| && AsksAnswer(ps[i]) && !ps[i].command.rw ==>
        var r := dev.step(Play(dev, s, ps[..i]).0, ps[i]).1;
        |r| == 1 && RightAck(ps[i].command.cmd, ps[i].addr, r[0].cmd.modeStat, r[0].addr, true)
  {
    hide CheckAck, RightAck, Play;
    if ps != [] {
      var n := |ps| - 1;
      AckedIff(dev, s, ps[..n]);
      assert forall i :: 0 <= i < n ==> ps[..n][..i] == ps[..i];
      var r := dev.step(Play(dev, s, ps[..n]).0, ps[n]).1;
      assert |r| == if AsksAnswer(ps[n]) then 1 else 0;
      if |r| == 1 { AckExact(ps[n].command, ps[n].addr, r[0], true); }
    }
  }

  // ---------- what is put on the wire ----------

  /** The place of packet i within its window of `size` packets. */
  function Place(i: nat, size: nat): (k: nat)
    requires size > 0
    ensures k < size && k <= i
  {
    if i < size then i else Place(i - size, size)
  }

  lemma {:induction false} PlaceStep(i: nat, size: nat)
    requires size > 0
    ensures Place(i + 1, size) == if Place(i, size) == size - 1 then 0 else Place(i, size) + 1
  {
    if i >= size { PlaceStep(i - size, size); }
  }

  lemma {:induction false} PlaceAfter(start: nat, k: nat, size: nat)
    requires size > 0 && Place(start, size) == 0 && k < size
    ensures Place(start + k, size) == k && Place(start + size, size) == 0
  {
    if start >= size { PlaceAfter(start - size, k, size); }
  }

  predicate EndsWindow(i: nat, n: nat, size: nat)
    requires size > 0
  {
    Place(i, size) == size - 1 || i == n - 1
  }

  /** How a write is sent: the size of a window, and whether it goes without acknowledges. */
  datatype Policy = Policy(size: nat, noAck: bool)

  /** ackEvery as the source takes it; 0 stands for no acknowledges. */
  function PolicyFor(ackEvery: nat): (y: Policy)
    ensures y.size > 0
  {
    if ackEvery == 0 then Policy(1, true) else Policy(ackEvery, false)
  }

  /** Packet i of n of a write, as it is sent: numbered within its window; only the last one of
      the window asks for an acknowledge, if any does. */
  function Outgoing(p: Packet, i: nat, n: nat, y: Policy): Packet
    requires y.size > 0
  {
    Packet(Place(i, y.size) % TWO16,
           p.command.(cmd := if EndsWindow(i, n, y.size) && !y.noAck then ClearNoAck(p.command.cmd)
                             else SetNoAck(p.command.cmd)),
           p.addr, p.payload)
  }

  function WindowedWire(ps: seq<Packet>, y: Policy): (w: seq<Packet>)
    requires y.size > 0
    ensures |w| == |ps|
  {
    seq(|ps|, i requires 0 <= i < |ps| => Outgoing(ps[i], i, |ps|, y))
  }

  function WriteWire(ps: seq<Packet>): (w: seq<Packet>)
    ensures |w| == |ps|
  {
    WindowedWire(ps, Policy(WINDOW, false))
  }

  /** A write that fits into one window is the same for any window that it fits into. */
  lemma OneWindow(ps: seq<Packet>, size: nat)
    requires |ps| <= size && |ps| <= WINDOW && size > 0
    ensures WindowedWire(ps, Policy(size, false)) == WriteWire(ps)
  {
  }

  /** A buffer, numbered from 0. */
  function Numbered(chunk: seq<Packet>): (ps: seq<Packet>)
    ensures |ps| == |chunk|
  {
    seq(|chunk|, i requires 0 <= i < |chunk| => chunk[i].(seqNum := i % TWO16))
  }

  function ReadPacket(d: Datagram): Packet {
    var p := PacketsOf(d.addr, d.payload, d.cmd, 0)[0];
    Packet(0, p.command.(rw := true, cnt := d.cmd.cnt), p.addr, p.payload)
  }

  function Wire(d: Datagram): seq<Packet> {
    if d.cmd.rw then [ReadPacket(d)] else WriteWire(PacketsOf(d.addr, d.payload, d.cmd, 0))
  }

  function WireAll(ds: seq<Datagram>): seq<Packet> {
    if ds == [] then [] else WireAll(ds[..|ds| - 1]) + Wire(ds[|ds| - 1])
  }

  class Link<S(!new)> {
    const dev: Device<S>
    var state: S                      // the device
    var queue: seq<Datagram>          // what has been received and not been read
    ghost var wire: seq<Packet>       // everything sent so far

    constructor (dev: Device<S>, state: S)
      ensures this.dev == dev && this.state == state && queue == [] && wire == []
    {
      this.dev, this.state, queue, wire := dev, state, [], [];
    }

    method SendTo(p: Packet)
      modifies this
      ensures wire == old(wire) + [p]
      ensures (state, queue) == (dev.step(old(state), p).0, old(queue) + dev.step(old(state), p).1)
    {
      var (s, r) := dev.step(state, p);
      state := s;
      queue := queue + r;
      wire := wire + [p];
    }

    /** Takes the answer that is due from the queue. */
    method Receive() returns (d: Datagram)
      requires queue != []
      modifies this`queue
      ensures d == old(queue)[0] && queue == old(queue)[1..]
    {
      d := queue[0];
      queue := queue[1..];
    }

    /** Numbers and sends a window. Unless told otherwise it then waits for the acknowledge of the
        last packet. */
    method SendChunk(chunk: seq<Packet>, noAck: bool) returns (status: AckStatus)
      requires queue == [] && Answers(dev)
      requires !noAck ==> chunk != [] && AsksAnswer(chunk[|chunk| - 1])
      requires !noAck ==> forall i :: 0 <= i < |chunk| - 1 ==> !AsksAnswer(chunk[i])
      modifies this
      ensures var ps := Numbered(chunk);
        && wire == old(wire) + ps && state == Play(dev, old(state), ps).0
        && queue == (if noAck then Play(dev, old(state), ps).1 else [])
        && (status.Accepted? <==> noAck || Acked(dev, old(state), ps))
    {
      hide CheckAck, Answers, Acked, Play, Numbered, AsksAnswer;
      ghost var ps := Numbered(chunk);
      PlayNothing(dev, state);
      NumberedIs(chunk);
      var seqNum := 0;
      while seqNum < |chunk|
        invariant seqNum <= |chunk|
        invariant wire == old(wire) + ps[..seqNum]
        invariant (state, queue) == Play(dev, old(state), ps[..seqNum])
      {
        assert ps[..seqNum + 1][..seqNum] == ps[..seqNum] && ps[..seqNum + 1] == ps[..seqNum] + [ps[seqNum]];
        PlayLast(dev, old(state), ps[..seqNum], ps[seqNum]);
        SendTo(chunk[seqNum].(seqNum := seqNum % TWO16));
        seqNum := seqNum + 1;
      }
      assert ps[..seqNum] == ps;
      if noAck { return Accepted; }
      OneAnswer(dev, old(state), ps);
      var ack := Receive();
      var last := chunk[|chunk| - 1];
      status := CheckAck(last.command, last.addr, ack, true);
      Judged(ps[|ps| - 1], ack);
    }

    /** One window. */
    method SendWindow(msg: seq<Packet>, iter: nat, end: nat, y: Policy) returns (status: AckStatus)
      requires queue == [] && Answers(dev) && y.size > 0
      requires iter < end <= |msg| && Place(iter, y.size) == 0
      requires (end == |msg| && end - iter <= y.size) || end == iter + y.size
      requires forall p :: p in msg ==> !p.command.rw
      modifies this
      ensures queue == []
      ensures var ps := WindowedWire(msg, y)[iter..end];
        && wire == old(wire) + ps && state == Play(dev, old(state), ps).0
        && (status.Accepted? <==> Acked(dev, old(state), ps))
    {
      hide CheckAck, Play, Answers, Acked, WindowedWire, AsksAnswer, FlaggedOf, Place, Numbered;
      var buffer := Flagged(msg, iter, end, y.noAck);
      WindowIsWire(msg, iter, end, y);
      ghost var ps := Numbered(buffer);
      NumberedIs(buffer);
      assert ps == WindowedWire(msg, y)[iter..end];
      if y.noAck { Silent(dev, state, ps); }
      status := SendChunk(buffer, y.noAck);
    }

    /** All packets of a write, window by window. */
    method SendWindows(msg: seq<Packet>, ackEvery: nat) returns (status: AckStatus)
      requires msg != [] && queue == [] && Answers(dev)
      requires forall p :: p in msg ==> !p.command.rw
      modifies this
      ensures var w := WindowedWire(msg, PolicyFor(ackEvery));
        && queue == [] && (status.Accepted? <==> Acked(dev, old(state), w))
        && (status.Accepted? ==> wire == old(wire) + w && state == Play(dev, old(state), w).0)
        && old(wire) <= wire <= old(wire) + w
    {
      hide CheckAck, Play, Answers, Acked, WindowedWire, FlaggedOf, AsksAnswer, Place;
      var y := PolicyFor(ackEvery);
      ghost var all := WindowedWire(msg, y);
      var iter := 0;
      PlayNothing(dev, state);
      PlaceStart(y.size);
      status := Accepted;
      while iter != |msg|
        invariant iter <= |msg| && (Place(iter, y.size) == 0 || iter == |msg|) && queue == [] && status.Accepted?
        invariant wire == old(wire) + all[..iter] && state == Play(dev, old(state), all[..iter]).0
        invariant Acked(dev, old(state), all[..iter])
        decreases |msg| - iter
      {
        var end := if iter + y.size > |msg| then |msg| else iter + y.size;
        ghost var ps := all[iter..end];
        assert all[..end] == all[..iter] + ps;
        PlayConcat(dev, old(state), all[..iter], ps);
        AckedConcat(dev, old(state), all[..iter], ps);
        AckedConcat(dev, old(state), all[..end], all[end..]);
        assert all == all[..end] + all[end..];
        PlaceAfter(iter, 0, y.size);
        status := SendWindow(msg, iter, end, y);
        iter := end;
        if !status.Accepted? { return; }
      }
      assert all[..iter] == all;
    }

    /** One datagram. The answer to a read is left in the queue. */
    method SendDatagram(d: Datagram) returns (status: AckStatus)
      requires queue == [] && Answers(dev)
      modifies this
      ensures status.Accepted? <==> Acked(dev, old(state), Wire(d))
      ensures status.Accepted? ==> wire == old(wire) + Wire(d) && state == Play(dev, old(state), Wire(d)).0
      ensures old(wire) <= wire <= old(wire) + Wire(d)
      ensures queue == if d.cmd.rw then Play(dev, old(state), Wire(d)).1 else []
      ensures |queue| == if d.cmd.rw then 1 else 0
    {
      hide CheckAck, Play, PacketsOf, WindowedWire;
      var packets := ChunkPackets(d.addr, d.payload, d.cmd);
      PacketShapes(d.addr, d.payload, d.cmd, 0);
      if d.cmd.rw {
        var p := packets[0].(command := packets[0].command.(rw := true, cnt := d.cmd.cnt));
        assert Numbered([p]) == [ReadPacket(d)];
        ReadAcked(dev, state, d);
        status := SendChunk([p], true);
      } else {
        var ackEvery := if |packets| >= WINDOW then WINDOW else |packets|;
        if |packets| < WINDOW { OneWindow(packets, |packets|); }
        status := SendWindows(packets, ackEvery);
      }
    }

    /** A list of write datagrams. */
    method Send(ds: seq<Datagram>) returns (status: AckStatus)
      requires queue == [] && Answers(dev) && forall d :: d in ds ==> !d.cmd.rw
      modifies this
      ensures queue == [] && (status.Accepted? <==> Acked(dev, old(state), WireAll(ds)))
      ensures status.Accepted? ==> wire == old(wire) + WireAll(ds) && state == Play(dev, old(state), WireAll(ds)).0
      ensures old(wire) <= wire <= old(wire) + WireAll(ds)
    {
      hide Play, Wire, Answers, Acked;
      status := Accepted;
      PlayNothing(dev, state);
      var i := 0;
      while i < |ds|
        invariant i <= |ds| && queue == [] && status.Accepted?
        invariant wire == old(wire) + WireAll(ds[..i]) && state == Play(dev, old(state), WireAll(ds[..i])).0
        invariant Acked(dev, old(state), WireAll(ds[..i]))
      {
        assert ds[..i + 1][..i] == ds[..i];
        PlayConcat(dev, old(state), WireAll(ds[..i]), Wire(ds[i]));
        AckedConcat(dev, old(state), WireAll(ds[..i]), Wire(ds[i]));
        WirePrefix(dev, old(state), ds, i + 1);
        status := SendDatagram(ds[i]);
        i := i + 1;
        if !status.Accepted? { return; }
      }
      assert ds[..i] == ds;
    }

    /** A read request and its answer. */
    method Request(d: Datagram) returns (answer: Datagram)
      requires queue == [] && Answers(dev) && d.cmd.rw
      modifies this
      ensures queue == []
      ensures wire == old(wire) + Wire(d) && state == Play(dev, old(state), Wire(d)).0
      ensures [answer] == Play(dev, old(state), Wire(d)).1 && Acked(dev, old(state), Wire(d))
    {
      hide Play, Wire, Acked;
      ReadAcked(dev, state, d);
      var status := SendDatagram(d);
      answer := Receive();
    }

    method Do(op: Operation) returns (status: AckStatus, answers: seq<Datagram>)
      requires queue == [] && Answers(dev) && op.Ok()
      modifies this
      ensures queue == [] && (status.Accepted? <==> Acked(dev, old(state), OpWire(op)))
      ensures status.Accepted? ==> wire == old(wire) + OpWire(op) && state == Play(dev, old(state), OpWire(op)).0
      ensures status.Accepted? ==> answers == if op.Reads? then Play(dev, old(state), OpWire(op)).1 else []
      ensures old(wire) <= wire <= old(wire) + OpWire(op)
    {
      hide Play, Wire, WireAll, Answers, Acked;
      status, answers := Accepted, [];
      match op
      case Writes(ds) => status := Send(ds);
      case Reads(d) =>
        var answer := Request(d);
        answers := [answer];
    }

    /** A whole run of operations, which ends early if an acknowledge is bad. Between them the queue
        is empty; every read gets the answer that the device gave to it; all packets are on the
        wire once and in order. */
    method Run(ops: seq<Operation>) returns (status: AckStatus, answers: seq<Datagram>)
      requires queue == [] && Answers(dev) && forall op :: op in ops ==> op.Ok()
      modifies this
      ensures queue == [] && (status.Accepted? <==> Acked(dev, old(state), OpsWire(ops)))
      ensures status.Accepted? ==> wire == old(wire) + OpsWire(ops) && answers == OpsAnswers(dev, old(state), ops)
      ensures old(wire) <= wire <= old(wire) + OpsWire(ops)
    {
      hide Play, OpWire, Answers, Acked, Operation.Ok;
      status, answers := Accepted, [];
      PlayNothing(dev, state);
      var i := 0;
      while i < |ops|
        invariant i <= |ops| && queue == [] && status.Accepted?
        invariant wire == old(wire) + OpsWire(ops[..i]) && state == Play(dev, old(state), OpsWire(ops[..i])).0
        invariant Acked(dev, old(state), OpsWire(ops[..i])) && answers == OpsAnswers(dev, old(state), ops[..i])
      {
        assert ops[..i + 1][..i] == ops[..i];
        PlayConcat(dev, old(state), OpsWire(ops[..i]), OpWire(ops[i]));
        AckedConcat(dev, old(state), OpsWire(ops[..i]), OpWire(ops[i]));
        RunPrefix(dev, old(state), ops, i + 1);
        var got;
        status, got := Do(ops[i]);
        if !status.Accepted? { return; }
        answers := answers + got;
        i := i + 1;
      }
      assert ops[..i] == ops;
    }
  }

  /** What the driver asks of the link: a transfer of write datagrams, or a read. */
  datatype Operation = Writes(ds: seq<Datagram>) | Reads(d: Datagram) {
    ghost predicate Ok() {
      match this
      case Writes(ds) => forall d :: d in ds ==> !d.cmd.rw
      case Reads(d) => d.cmd.rw
    }
  }

  function OpWire(op: Operation): seq<Packet> {
    match op
    case Writes(ds) => WireAll(ds)
    case Reads(d) => Wire(d)
  }

  function OpsWire(ops: seq<Operation>): seq<Packet> {
    if ops == [] then [] else OpsWire(ops[..|ops| - 1]) + OpWire(ops[|ops| - 1])
  }

  /** The answers to the reads of ops, each taken from what the device sends when that very read
      request reaches it. */
  function OpsAnswers<S>(dev: Device<S>, s: S, ops: seq<Operation>): seq<Datagram> {
    if ops == [] then []
    else
      var n := |ops| - 1;
      OpsAnswers(dev, s, ops[..n]) +
      if ops[n].Reads? then Play(dev, Play(dev, s, OpsWire(ops[..n])).0, OpWire(ops[n])).1 else []
  }

  /** A transfer that stops at a bad acknowledge has sent a part of the whole. */
  lemma {:induction false} WirePrefix<S>(dev: Device<S>, s: S, ds: seq<Datagram>, i: nat)
    requires i <= |ds|
    ensures WireAll(ds[..i]) <= WireAll(ds)
    ensures Acked(dev, s, WireAll(ds)) ==> Acked(dev, s, WireAll(ds[..i]))
    decreases |ds|
  {
    hide Wire, Acked;
    if i < |ds| {
      var n := |ds| - 1;
      WirePrefix(dev, s, ds[..n], i);
      AckedConcat(dev, s, WireAll(ds[..n]), Wire(ds[n]));
      assert ds[..n][..i] == ds[..i];
    } else {
      assert ds[..i] == ds;
    }
  }

  lemma {:induction false} RunPrefix<S>(dev: Device<S>, s: S, ops: seq<Operation>, i: nat)
    requires i <= |ops|
    ensures OpsWire(ops[..i]) <= OpsWire(ops)
    ensures Acked(dev, s, OpsWire(ops)) ==> Acked(dev, s, OpsWire(ops[..i]))
    decreases |ops|
  {
    hide OpWire, Acked;
    if i < |ops| {
      var n := |ops| - 1;
      RunPrefix(dev, s, ops[..n], i);
      AckedConcat(dev, s, OpsWire(ops[..n]), OpWire(ops[n]));
      assert ops[..n][..i] == ops[..i];
    } else {
      assert ops[..i] == ops;
    }
  }

  lemma ReadAcked<S(!new)>(dev: Device<S>, s: S, d: Datagram)
    requires d.cmd.rw && Answers(dev)
    ensures Acked(dev, s, Wire(d)) && |Play(dev, s, Wire(d)).1| == 1
  {
    hide PacketsOf;
    assert Wire(d)[..0] == [];
  }

  /** Packets that ask for nothing get no answers. */
  lemma {:induction false} Silent<S(!new)>(dev: Device<S>, s: S, ps: seq<Packet>)
    requires Answers(dev) && forall p :: p in ps ==> !AsksAnswer(p)
    ensures Play(dev, s, ps).1 == [] && Acked(dev, s, ps)
  {
    if ps != [] { Silent(dev, s, ps[..|ps| - 1]); }
  }

  /** If only the last packet asks for anything, there is one answer, and all depends on it. */
  lemma OneAnswer<S(!new)>(dev: Device<S>, s: S, ps: seq<Packet>)
    requires Answers(dev) && ps != [] && AsksAnswer(ps[|ps| - 1])
    requires forall i :: 0 <= i < |ps| - 1 ==> !AsksAnswer(ps[i])
    ensures var r := Play(dev, s, ps).1; |r| == 1 && (Acked(dev, s, ps) <==> Good(ps[|ps| - 1], r))
  {
    hide AsksAnswer, Good;
    Silent(dev, s, ps[..|ps| - 1]);
    var r := dev.step(Play(dev, s, ps[..|ps| - 1]).0, ps[|ps| - 1]).1;
    assert Play(dev, s, ps).1 == [] + r == r;
  }

  lemma Judged(p: Packet, ack: Datagram)
    ensures CheckAck(p.command, p.addr, ack, true).Accepted? <==> Good(p, [ack])
  {
  }

  lemma NumberedIs(chunk: seq<Packet>)
    ensures forall i :: 0 <= i < |chunk| ==>
      Numbered(chunk)[i] == chunk[i].(seqNum := i % TWO16) && (AsksAnswer(Numbered(chunk)[i]) <==> AsksAnswer(chunk[i]))
  {
  }

  lemma PlayLast<S>(dev: Device<S>, s: S, ps: seq<Packet>, p: Packet)
    ensures Play(dev, s, ps + [p]) ==
      (dev.step(Play(dev, s, ps).0, p).0, Play(dev, s, ps).1 + dev.step(Play(dev, s, ps).0, p).1)
  {
    assert (ps + [p])[..|ps|] == ps;
  }

  lemma PlaceStart(size: nat)
    requires size > 0
    ensures Place(0, size) == 0
  {
  }

  lemma PlayNothing<S>(dev: Device<S>, s: S)
    ensures Play(dev, s, []) == (s, []) && Acked(dev, s, [])
  {
  }

  /** The buffer of one window: copies with the flag set, except on the last one, unless there is to
      be no acknowledge at all. */
  method Flagged(msg: seq<Packet>, iter: nat, end: nat, noAck: bool) returns (buffer: seq<Packet>)
    requires iter < end <= |msg|
    ensures buffer == FlaggedOf(msg, iter, end, noAck)
  {
    buffer := [];
    var i := iter;
    while i < end
      invariant iter <= i <= end && |buffer| == i - iter
      invariant forall k :: 0 <= k < |buffer| ==>
        buffer[k] == msg[iter + k].(command := msg[iter + k].command.(cmd := SetNoAck(msg[iter + k].command.cmd)))
    {
      buffer := buffer + [msg[i].(command := msg[i].command.(cmd := SetNoAck(msg[i].command.cmd)))];
      i := i + 1;
    }
    if noAck { return; }
    var n := |buffer| - 1;
    assert ClearNoAck(SetNoAck(msg[iter + n].command.cmd)) == ClearNoAck(msg[iter + n].command.cmd);
    buffer := buffer[n := buffer[n].(command := buffer[n].command.(cmd := ClearNoAck(buffer[n].command.cmd)))];
  }

  function FlaggedOf(msg: seq<Packet>, iter: nat, end: nat, noAck: bool): (b: seq<Packet>)
    requires iter < end <= |msg|
    ensures |b| == end - iter
  {
    seq(end - iter, k requires 0 <= k < end - iter =>
      var p := msg[iter + k];
      p.(command := p.command.(cmd := if k == end - iter - 1 && !noAck then ClearNoAck(p.command.cmd) else SetNoAck(p.command.cmd))))
  }

  /** A window is the stretch of the wire that starts at a multiple of its size. */
  lemma WindowIsWire(msg: seq<Packet>, iter: nat, end: nat, y: Policy)
    requires iter < end <= |msg| && y.size > 0 && Place(iter, y.size) == 0
    requires (end == |msg| && end - iter <= y.size) || end == iter + y.size
    requires forall p :: p in msg ==> !p.command.rw
    ensures forall k :: 0 <= k < end - iter ==>
      FlaggedOf(msg, iter, end, y.noAck)[k].(seqNum := k % TWO16) == WindowedWire(msg, y)[iter + k]
    ensures forall k :: 0 <= k < end - iter ==>
      (AsksAnswer(FlaggedOf(msg, iter, end, y.noAck)[k]) <==> k == end - iter - 1 && !y.noAck)
  {
    var b := FlaggedOf(msg, iter, end, y.noAck);
    forall k | 0 <= k < end - iter
      ensures b[k].(seqNum := k % TWO16) == WindowedWire(msg, y)[iter + k]
      ensures AsksAnswer(b[k]) <==> k == end - iter - 1 && !y.noAck
    {
      PlaceAfter(iter, k, y.size);
      assert EndsWindow(iter + k, |msg|, y.size) <==> k == end - iter - 1;
    }
  }

  // ---------- pacing ----------

  /** How many packets have been sent since the last one that asks for an answer. */
  function Unanswered(ps: seq<Packet>): nat {
    if ps == [] then 0
    else if AsksAnswer(ps[|ps| - 1]) then 0
    else 1 + Unanswered(ps[..|ps| - 1])
  }

  /** At no time are more than 20 packets outstanding: at most 19 without a request for an answer
      and one with it. */
  ghost predicate Paced(ps: seq<Packet>) {
    forall k :: 0 <= k <= |ps| ==> Unanswered(ps[..k]) < WINDOW
  }

  lemma {:induction false} UnansweredAfter(a: seq<Packet>, b: seq<Packet>)
    requires Unanswered(a) == 0
    ensures Unanswered(a + b) == Unanswered(b)
    decreases |b|
  {
    if b == [] {
      assert a + b == a;
    } else {
      assert (a + b)[..|a + b| - 1] == a + b[..|b| - 1];
      UnansweredAfter(a, b[..|b| - 1]);
    }
  }

  lemma PacedConcat(a: seq<Packet>, b: seq<Packet>)
    requires Paced(a) && Unanswered(a) == 0 && Paced(b)
    ensures Paced(a + b) && Unanswered(a + b) == Unanswered(b)
  {
    UnansweredAfter(a, b);
    forall k | 0 <= k <= |a + b| ensures Unanswered((a + b)[..k]) < WINDOW {
      if k <= |a| {
        assert (a + b)[..k] == a[..k];
      } else {
        assert (a + b)[..k] == a + b[..k - |a|];
        UnansweredAfter(a, b[..k - |a|]);
      }
    }
  }

  lemma OutgoingAsks(p: Packet, i: nat, n: nat, y: Policy)
    requires !p.command.rw && y.size > 0
    ensures AsksAnswer(Outgoing(p, i, n, y)) <==> EndsWindow(i, n, y.size) && !y.noAck
  {
    hide Place;
  }

  lemma {:induction false} WriteWirePaced(ps: seq<Packet>, k: nat)
    requires k <= |ps| && forall p :: p in ps ==> !p.command.rw
    ensures Unanswered(WriteWire(ps)[..k]) == if k == |ps| then 0 else Place(k, WINDOW)
    decreases k
  {
    hide AsksAnswer, Outgoing, Place;
    var w := WriteWire(ps);
    if k == 0 {
      PlaceStart(WINDOW);
    } else {
      WriteWirePaced(ps, k - 1);
      assert w[..k][..k - 1] == w[..k - 1] && w[..k][k - 1] == Outgoing(ps[k - 1], k - 1, |ps|, Policy(WINDOW, false));
      OutgoingAsks(ps[k - 1], k - 1, |ps|, Policy(WINDOW, false));
      PlaceStep(k - 1, WINDOW);
    }
  }

  lemma WirePaced(d: Datagram)
    ensures Paced(Wire(d)) && Unanswered(Wire(d)) == 0
  {
    hide PacketsOf;
    var w := Wire(d);
    var ps := PacketsOf(d.addr, d.payload, d.cmd, 0);
    PacketShapes(d.addr, d.payload, d.cmd, 0);
    assert w[..|w|] == w;
    if d.cmd.rw {
      assert w[..0] == [];
    } else {
      forall k | 0 <= k <= |w| ensures Unanswered(w[..k]) < WINDOW {
        WriteWirePaced(ps, k);
      }
      WriteWirePaced(ps, |ps|);
    }
  }

  lemma {:induction false} WireAllPaced(ds: seq<Datagram>)
    ensures Paced(WireAll(ds)) && Unanswered(WireAll(ds)) == 0
  {
    hide Wire;
    if ds != [] {
      WireAllPaced(ds[..|ds| - 1]);
      WirePaced(ds[|ds| - 1]);
      PacedConcat(WireAll(ds[..|ds| - 1]), Wire(ds[|ds| - 1]));
    }
  }

  /** Over any run, whatever its operations. */
  lemma {:induction false} RunPaced(ops: seq<Operation>)
    ensures Paced(OpsWire(ops)) && Unanswered(OpsWire(ops)) == 0
    ensures forall k :: 0 <= k <= |OpsWire(ops)| ==> Unanswered(OpsWire(ops)[..k]) < 20
  {
    hide Wire, WireAll;
    if ops != [] {
      var n := |ops| - 1;
      RunPaced(ops[..n]);
      match ops[n] {
        case Writes(ds) => WireAllPaced(ds);
        case Reads(d) => WirePaced(d);
      }
      PacedConcat(OpsWire(ops[..n]), OpWire(ops[n]));
    }
  }

  /** The wire carries the packets of a datagram once each and in order; only the flag and the
      sequence number are the link's own. */
  lemma WireKeepsPackets(d: Datagram)
    requires !d.cmd.rw && d.cmd.cmd < 8
    ensures
      var ps, w := PacketsOf(d.addr, d.payload, d.cmd, 0), Wire(d);
      && |w| == |ps|
      && forall i :: 0 <= i < |ps| ==>
           && w[i].addr == ps[i].addr && w[i].payload == ps[i].payload
           && w[i].command.(cmd := ClearNoAck(w[i].command.cmd)) == ps[i].command
           && (AsksAnswer(w[i]) <==> i % 20 == 19 || i == |ps| - 1) && w[i].seqNum == i % 20
  {
    hide PacketsOf, AsksAnswer;
    var ps := PacketsOf(d.addr, d.payload, d.cmd, 0);
    PacketShapes(d.addr, d.payload, d.cmd, 0);
    forall i | 0 <= i < |ps|
      ensures AsksAnswer(Wire(d)[i]) <==> EndsWindow(i, |ps|, WINDOW)
      ensures Place(i, WINDOW) == i % 20
    {
      OutgoingAsks(ps[i], i, |ps|, Policy(WINDOW, false));
      PlaceIs(i);
    }
  }

  lemma {:induction false} PlaceIs(i: nat)
    ensures Place(i, WINDOW) == i % 20
  {
    if i >= 20 { PlaceIs(i - 20); }
  }

  /** A read goes out as one packet, which asks for what its datagram asks for. */
  lemma ReadRequest(d: Datagram)
    requires d.cmd.rw && d.payload == []
    ensures Wire(d) == [Packet(0, d.cmd.(ack := false, sel := false), d.addr, [])]
  {
  }
}
