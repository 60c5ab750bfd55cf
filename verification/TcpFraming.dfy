/** Responses on the TCP stream (APS2Ethernet::read in src/lib/APS2Ethernet.cpp). Every receive is
    taken to fill its buffer. */
module TcpFraming {
  import opened Words
  import opened Datagrams

  /** The header shape depends on the command. */
  predicate HasAddress(cmd: int) {
    cmd != STATUS && cmd != FPGACONFIG_ACK && cmd != EPROMIO && cmd != CHIPCONFIGIO
  }

  predicate IsWriteAck(c: Command) { c.ack && !c.rw }

  /** A response that a device may send. */
  ghost predicate WellFormed(d: Datagram) {
    && (!HasAddress(d.cmd.cmd) ==> d.addr == 0)
    && |d.payload| == if IsWriteAck(d.cmd) then 0 else d.cmd.cnt
  }

  function Header(c: Command, addr: u32): seq<u32> {
    [Pack(c)] + if HasAddress(c.cmd) then [addr] else []
  }

  function Encode(d: Datagram): seq<u32> {
    Header(d.cmd, d.addr) + d.payload
  }

  ghost predicate AllWellFormed(ds: seq<Datagram>) {
    forall d :: d in ds ==> WellFormed(d)
  }

  function EncodeAll(ds: seq<Datagram>): seq<u32> {
    if ds == [] then [] else Encode(ds[0]) + EncodeAll(ds[1..])
  }

  /** The shape of a response, command by command: no address for EPROMIO, CHIPCONFIGIO, FPGACONFIG_ACK
      and STATUS, and no payload in the acknowledge of a write. */
  lemma ResponseShape(d: Datagram)
    requires WellFormed(d)
    ensures Encode(d) == if d.cmd.cmd in {2, 3, 5, 7} then [Pack(d.cmd)] + d.payload else [Pack(d.cmd), d.addr] + d.payload
    ensures |d.payload| == if d.cmd.ack && !d.cmd.rw then 0 else d.cmd.cnt
  {
    hide Pack;
  }

  /** The words of a response with this command word. */
  function SizeFor(c: Command): nat {
    1 + (if HasAddress(c.cmd) then 1 else 0) + if IsWriteAck(c) then 0 else c.cnt
  }

  class TcpStream {
    var pending: seq<u32>    // words that have arrived and have not been received

    constructor (words: seq<u32>)
      ensures pending == words
    {
      pending := words;
    }

    method Receive(n: nat) returns (buf: seq<u32>)
      requires n <= |pending|
      modifies this
      ensures buf == old(pending)[..n] && pending == old(pending)[n..]
    {
      buf := pending[..n];
      pending := pending[n..];
    }

    /** How many words the response at the front of the stream takes. */
    ghost function ResponseSize(): nat
      requires pending != []
      reads this
    {
      SizeFor(Unpack(pending[0]))
    }

    method Read() returns (d: Datagram)
      requires pending != [] && ResponseSize() <= |pending|
      modifies this
      ensures WellFormed(d) && old(pending) == Encode(d) + pending
    {
      hide Pack, Unpack, HasAddress, IsWriteAck;
      ghost var before := pending;
      var cmd, addr := ReadHeader();
      var payload: seq<u32> := [];
      if !(IsWriteAck(cmd)) {
        payload := Receive(cmd.cnt);
      }
      d := Datagram(cmd, addr, payload);
      assert before == Header(cmd, addr) + payload + pending;
    }

    /** The command word and, if there is one, the address. */
    method ReadHeader() returns (cmd: Command, addr: u32)
      requires pending != [] && ResponseSize() <= |pending|
      modifies this
      ensures cmd == old(Unpack(pending[0])) && (!HasAddress(cmd.cmd) ==> addr == 0)
      ensures old(pending) == Header(cmd, addr) + pending
      ensures |pending| == |old(pending)| - |Header(cmd, addr)|
    {
      hide Pack, Unpack, HasAddress, IsWriteAck;
      var buf := Receive(1);
      cmd := Unpack(buf[0]);
      PackUnpack(buf[0]);
      addr := 0;
      if HasAddress(cmd.cmd) {
        buf := Receive(1);
        addr := buf[0];
      }
    }

    /** Reading on until the stream is empty. */
    method ReadAll(ghost ds: seq<Datagram>) returns (got: seq<Datagram>)
      requires AllWellFormed(ds) && pending == EncodeAll(ds)
      modifies this
      ensures got == ds && pending == []
    {
      hide Encode;
      got := [];
      ghost var rest := ds;
      while pending != []
        invariant AllWellFormed(rest) && pending == EncodeAll(rest) && got + rest == ds
        decreases |rest|
      {
        assert rest != [];
        FrontSize(rest[0], EncodeAll(rest[1..]));
        var d := Read();
        Unambiguous(d, pending, rest[0], EncodeAll(rest[1..]));
        got := got + [d];
        rest := rest[1..];
      }
      if rest != [] { EncodeNonEmpty(rest[0]); }
    }
  }

  lemma EncodeNonEmpty(d: Datagram)
    ensures Encode(d) != []
  {
  }

  /** The first word of a response tells its size. */
  lemma FrontSize(d: Datagram, rest: seq<u32>)
    requires WellFormed(d)
    ensures
      var s := Encode(d) + rest;
      && s != [] && Unpack(s[0]) == d.cmd
      && |Encode(d)| == SizeFor(d.cmd)
  {
    hide Pack, Unpack;
    UnpackPack(d.cmd);
  }

  /** Framing is unambiguous: a stream begins with at most one response. */
  lemma Unambiguous(d: Datagram, r: seq<u32>, e: Datagram, s: seq<u32>)
    requires WellFormed(d) && WellFormed(e) && Encode(d) + r == Encode(e) + s
    ensures d == e && r == s
  {
    hide Pack, Unpack;
    FrontSize(d, r);
    FrontSize(e, s);
    var n := |Encode(d)|;
    assert |Encode(d)| == |Encode(e)|;
    assert (Encode(d) + r)[..n] == Encode(d) && (Encode(e) + s)[..n] == Encode(e);
    assert (Encode(d) + r)[n..] == r && (Encode(e) + s)[n..] == s;
    var h := if HasAddress(d.cmd.cmd) then 2 else 1;
    assert d.cmd == e.cmd && |Header(d.cmd, d.addr)| == |Header(e.cmd, e.addr)| == h;
    assert Encode(d)[h..] == d.payload && Encode(e)[h..] == e.payload;
    assert h == 2 ==> Encode(d)[1] == d.addr && Encode(e)[1] == e.addr;
  }

  /** Hence different lists of responses never look alike. */
  lemma {:induction false} StreamsDiffer(ds: seq<Datagram>, es: seq<Datagram>)
    requires AllWellFormed(ds) && AllWellFormed(es) && EncodeAll(ds) == EncodeAll(es)
    ensures ds == es
  {
    hide Encode;
    if ds != [] { EncodeNonEmpty(ds[0]); }
    if es != [] { EncodeNonEmpty(es[0]); }
    if ds != [] && es != [] {
      Unambiguous(ds[0], EncodeAll(ds[1..]), es[0], EncodeAll(es[1..]));
      StreamsDiffer(ds[1..], es[1..]);
    }
  }
}
