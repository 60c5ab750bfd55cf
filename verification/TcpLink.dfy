/** Datagrams over TCP (send and read in src/lib/APS2Ethernet.cpp): one at a time, and each
    acknowledge is read from the stream before the next datagram goes out. Sends are taken to
    succeed and answers to have arrived when the send returns. */
module TcpLink {
  import opened Words
  import opened Datagrams
  import opened TcpFraming

  /** A device: how it changes with a datagram and what it sends back. */
  datatype Device<!S> = Device(step: (S, Datagram) -> (S, seq<Datagram>))

  predicate IsAnswered(d: Datagram) { d.cmd.ack || d.cmd.rw }

  /** One well-formed answer to a datagram that wants one, none to others. */
  ghost predicate Answers<S(!new)>(dev: Device<S>) {
    forall s, d {:trigger dev.step(s, d)} ::
      var r := dev.step(s, d).1;
      |r| == (if IsAnswered(d) then 1 else 0) && AllWellFormed(r)
  }

  function After<S>(dev: Device<S>, s: S, ds: seq<Datagram>): S {
    if ds == [] then s else dev.step(After(dev, s, ds[..|ds| - 1]), ds[|ds| - 1]).0
  }

  /** What the device says to the last of these datagrams. */
  function LastAnswer<S>(dev: Device<S>, s: S, ds: seq<Datagram>): seq<Datagram>
    requires ds != []
  {
    dev.step(After(dev, s, ds[..|ds| - 1]), ds[|ds| - 1]).1
  }

  /** The first datagram whose acknowledge is bad decides; without one all is well. */
  ghost function Verdict<S(!new)>(dev: Device<S>, s: S, ds: seq<Datagram>): AckStatus
    requires Answers(dev)
  {
    if ds == [] then Accepted
    else
      var d := ds[|ds| - 1];
      var before := Verdict(dev, s, ds[..|ds| - 1]);
      if !before.Accepted? || !d.cmd.ack then before
      else
        assert |LastAnswer(dev, s, ds)| == 1;
        CheckAck(d.cmd, d.addr, LastAnswer(dev, s, ds)[0], false)
  }

  lemma {:induction false} VerdictStays<S(!new)>(dev: Device<S>, s: S, ds: seq<Datagram>, i: nat)
    requires Answers(dev) && i <= |ds| && !Verdict(dev, s, ds[..i]).Accepted?
    ensures Verdict(dev, s, ds) == Verdict(dev, s, ds[..i])
    decreases |ds|
  {
    hide CheckAck, LastAnswer, Answers;
    if i < |ds| {
      assert ds[..|ds| - 1][..i] == ds[..i];
      VerdictStays(dev, s, ds[..|ds| - 1], i);
    } else {
      assert ds[..i] == ds;
    }
  }

  /** The answer to datagram i of a transfer. */
  function AnswerTo<S>(dev: Device<S>, s: S, ds: seq<Datagram>, i: nat): seq<Datagram>
    requires i < |ds|
  {
    dev.step(After(dev, s, ds[..i]), ds[i]).1
  }

  /** A transfer of writes is accepted exactly if every acknowledge that it asks for is the right one. */
  lemma {:induction false} AcceptedIff<S(!new)>(dev: Device<S>, s: S, ds: seq<Datagram>)
    requires Answers(dev) && forall d :: d in ds ==> !d.cmd.rw
    ensures Verdict(dev, s, ds).Accepted? <==>
      forall i :: 0 <= i < |ds| && ds[i].cmd.ack ==>
        var r := AnswerTo(dev, s, ds, i);
        |r| == 1 && RightAck(ds[i].cmd.cmd, ds[i].addr, r[0].cmd.modeStat, r[0].addr, false)
  {
    hide CheckAck, RightAck;
    if ds != [] {
      var n := |ds| - 1;
      AcceptedIff(dev, s, ds[..n]);
      forall i | 0 <= i < n ensures AnswerTo(dev, s, ds[..n], i) == AnswerTo(dev, s, ds, i) {
        assert ds[..n][..i] == ds[..i];
      }
      var r := AnswerTo(dev, s, ds, n);
      assert ds[n] in ds && r == LastAnswer(dev, s, ds);
      if ds[n].cmd.ack {
        assert |r| == 1;
        AckExact(ds[n].cmd, ds[n].addr, r[0], false);
      }
    }
  }

  lemma EncodeOne(r: seq<Datagram>)
    requires |r| == 1
    ensures EncodeAll(r) == Encode(r[0])
  {
  }

  // ---------- what goes out ----------

  /** The words of a datagram on the wire. Every one has an address. */
  function Data(d: Datagram): seq<u32> { [Pack(d.cmd), d.addr] + d.payload }

  function DataAll(ds: seq<Datagram>): seq<u32> {
    if ds == [] then [] else DataAll(ds[..|ds| - 1]) + Data(ds[|ds| - 1])
  }

  /** A request carries no payload; a write carries as many words as it says. */
  predicate Counts(d: Datagram) { |d.payload| == if d.cmd.rw then 0 else d.cmd.cnt }

  /** The first word tells where a datagram ends, so the device can take the stream apart. */
  lemma DataUnambiguous(d: Datagram, r: seq<u32>, e: Datagram, s: seq<u32>)
    requires Counts(d) && Counts(e) && Data(d) + r == Data(e) + s
    ensures d == e && r == s
  {
    hide Pack;
    var a, b := Data(d) + r, Data(e) + s;
    assert a[0] == Pack(d.cmd) && b[0] == Pack(e.cmd) && a[1] == d.addr && b[1] == e.addr;
    UnpackPack(d.cmd);
    UnpackPack(e.cmd);
    var n := 2 + |d.payload|;
    assert a[2..n] == d.payload && b[2..n] == e.payload && a[n..] == r && b[n..] == s;
  }

  lemma {:induction false} DataCons(d: Datagram, ds: seq<Datagram>)
    ensures DataAll([d] + ds) == Data(d) + DataAll(ds)
    decreases |ds|
  {
    hide Data;
    if ds == [] {
      assert [d] + ds == [d] && [d][..0] == [];
    } else {
      var n := |ds| - 1;
      DataCons(d, ds[..n]);
      assert ([d] + ds)[..n + 1] == [d] + ds[..n];
    }
  }

  /** Different lists of datagrams never look alike to the device. */
  lemma {:induction false} TransfersDiffer(ds: seq<Datagram>, es: seq<Datagram>)
    requires (forall d :: d in ds ==> Counts(d)) && (forall e :: e in es ==> Counts(e))
    requires DataAll(ds) == DataAll(es)
    ensures ds == es
  {
    hide Counts;
    if ds != [] { assert ds == [ds[0]] + ds[1..]; DataCons(ds[0], ds[1..]); }
    if es != [] { assert es == [es[0]] + es[1..]; DataCons(es[0], es[1..]); }
    if ds != [] && es != [] {
      DataUnambiguous(ds[0], DataAll(ds[1..]), es[0], DataAll(es[1..]));
      TransfersDiffer(ds[1..], es[1..]);
    }
  }

  class Link<S(!new)> {
    const dev: Device<S>
    const stream: TcpStream
    var state: S
    ghost var sent: seq<Datagram>
    ghost var wire: seq<u32>         // the words of all that has been sent

    constructor (dev: Device<S>, state: S)
      ensures this.dev == dev && this.state == state && sent == [] && wire == []
      ensures fresh(stream) && stream.pending == []
    {
      this.dev, this.state, sent, wire := dev, state, [], [];
      stream := new TcpStream([]);
    }

    /** Sends one datagram and checks its acknowledge if it asks for one. */
    method SendOne(d: Datagram) returns (status: AckStatus)
      requires stream.pending == [] && Answers(dev)
      modifies this, stream
      ensures state == dev.step(old(state), d).0 && sent == old(sent) + [d] && wire == old(wire) + Data(d)
      ensures var r := dev.step(old(state), d).1;
        && |r| == (if IsAnswered(d) then 1 else 0) && AllWellFormed(r)
        && stream.pending == (if d.cmd.ack then [] else EncodeAll(r))
        && status == if d.cmd.ack then CheckAck(d.cmd, d.addr, r[0], false) else Accepted
    {
      hide CheckAck, Encode, WellFormed;
      var (s, r) := dev.step(state, d);
      state, sent, wire := s, sent + [d], wire + Data(d);
      assert AllWellFormed(r);
      stream.pending := stream.pending + EncodeAll(r);
      status := Accepted;
      if d.cmd.ack {
        EncodeOne(r);
        var ack := ReadAnswer(r[0]);
        status := CheckAck(d.cmd, d.addr, ack, false);
      }
    }

    /** Reads the one answer that is in the stream. */
    method ReadAnswer(ghost r: Datagram) returns (d: Datagram)
      requires WellFormed(r) && stream.pending == Encode(r)
      modifies stream
      ensures d == r && stream.pending == []
    {
      hide Encode, WellFormed;
      assert Encode(r) + [] == Encode(r);
      FrontSize(r, []);
      d := stream.Read();
      Unambiguous(d, stream.pending, r, []);
    }

    /** Write datagrams, up to and including the first one whose acknowledge is bad. No word of an
        answer is left over. */
    method Send(ds: seq<Datagram>) returns (status: AckStatus)
      requires stream.pending == [] && Answers(dev) && forall d :: d in ds ==> !d.cmd.rw
      modifies this, stream
      ensures stream.pending == [] && status == Verdict(dev, old(state), ds)
      ensures exists n :: 0 <= n <= |ds| && sent == old(sent) + ds[..n] && wire == old(wire) + DataAll(ds[..n]) && state == After(dev, old(state), ds[..n])
                          && Verdict(dev, old(state), ds[..n]) == status && (status.Accepted? ==> n == |ds|)
                          && (!status.Accepted? ==> n > 0 && Verdict(dev, old(state), ds[..n - 1]).Accepted?)
    {
      hide CheckAck, Answers;
      status := Accepted;
      var i := 0;
      while i < |ds|
        invariant i <= |ds| && stream.pending == [] && status.Accepted?
        invariant sent == old(sent) + ds[..i] && wire == old(wire) + DataAll(ds[..i]) && state == After(dev, old(state), ds[..i])
        invariant Verdict(dev, old(state), ds[..i]) == status
      {
        assert ds[..i + 1][..i] == ds[..i] && ds[..i + 1] == ds[..i] + [ds[i]];
        assert ds[i] in ds;
        status := SendOne(ds[i]);
        i := i + 1;
        if !status.Accepted? {
          VerdictStays(dev, old(state), ds, i);
          return;
        }
      }
      assert ds[..i] == ds;
    }

    /** A read request and its own answer. */
    method Request(d: Datagram) returns (answer: Datagram)
      requires stream.pending == [] && Answers(dev) && d.cmd.rw && !d.cmd.ack
      modifies this, stream
      ensures stream.pending == [] && sent == old(sent) + [d] && wire == old(wire) + Data(d)
      ensures state == dev.step(old(state), d).0 && [answer] == dev.step(old(state), d).1
    {
      hide Answers, Encode, WellFormed;
      ghost var r := dev.step(state, d).1;
      var status := SendOne(d);
      EncodeOne(r);
      answer := ReadAnswer(r[0]);
    }
  }
}
