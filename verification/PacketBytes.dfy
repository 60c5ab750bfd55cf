/** The bytes of a packet on the wire (src/lib/APS2EthernetPacket.cpp): big-endian fields, an
    address only for commands that carry one, zero bytes up to the smallest frame. */
module PacketBytes {
  import opened Words
  import opened Datagrams

  type MAC = s: seq<u8> | |s| == 6 witness [0, 0, 0, 0, 0, 0]

  datatype Frame = Frame(dest: MAC, src: MAC, frameType: u16, seqNum: u16, command: Command, addr: u32, payload: seq<u32>)

  const NUM_HEADER_BYTES := 24
  const MIN_BYTES := 64

  // ---------- byte order ----------

  function Bytes2(x: u16): (b: seq<u8>) ensures |b| == 2 { [x / 0x100, x % 0x100] }

  function Word2(b: seq<u8>): u16 requires |b| == 2 {
    var x: int, y: int := b[0], b[1]; 0x100 * x + y
  }

  function Bytes4(x: u32): (b: seq<u8>)
    ensures |b| == 4
  {
    [x / 0x100_0000, x / 0x1_0000 % 0x100, x / 0x100 % 0x100, x % 0x100]
  }

  function Word4(b: seq<u8>): u32 requires |b| == 4 {
    var x: int, y: int, z: int, w: int := b[0], b[1], b[2], b[3];
    0x100_0000 * x + 0x1_0000 * y + 0x100 * z + w
  }

  lemma Word2Bytes2(x: u16) ensures Word2(Bytes2(x)) == x {
  }

  lemma Word4Bytes4(x: u32)
    ensures Word4(Bytes4(x)) == x
  {
    var h := x / 0x100;
    assert h / 0x100 == x / 0x1_0000 && h / 0x1_0000 == x / 0x100_0000;
  }

  /** The most significant byte comes first. */
  lemma BigEndian(x: u32, y: u16)
    ensures var b := Bytes4(x); x == 0x100_0000 * b[0] as int + 0x1_0000 * b[1] as int + 0x100 * b[2] as int + b[3]
    ensures var b := Bytes2(y); y == 0x100 * b[0] as int + b[1]
  {
    var h := x / 0x100;
    assert h / 0x100 == x / 0x1_0000 && h / 0x1_0000 == x / 0x100_0000;
  }

  function WordsToBytes(ws: seq<u32>): (b: seq<u8>)
    ensures |b| == 4 * |ws|
  {
    if ws == [] then [] else Bytes4(ws[0]) + WordsToBytes(ws[1..])
  }

  function BytesToWords(b: seq<u8>): (ws: seq<u32>)
    requires |b| % 4 == 0
    ensures |ws| == |b| / 4
  {
    if b == [] then [] else [Word4(b[..4])] + BytesToWords(b[4..])
  }

  // ---------- serialize ----------

  function TrueSize(f: Frame): nat {
    if NeedsAddress(f.command.cmd) then NUM_HEADER_BYTES + 4 * |f.payload| else NUM_HEADER_BYTES - 4 + 4 * |f.payload|
  }

  function NumBytes(f: Frame): nat {
    if TrueSize(f) > MIN_BYTES then TrueSize(f) else MIN_BYTES
  }

  /** Only RESET and STATUS have no address; nothing is shorter than 64 bytes. */
  lemma FrameSize(f: Frame)
    ensures
      var size := 4 * |f.payload| + if f.command.cmd == 0 || f.command.cmd == 7 then 20 else 24;
      TrueSize(f) == size && NumBytes(f) == if size < 64 then 64 else size
  {
  }

  function Zeros(n: nat): (z: seq<int>) ensures |z| == n && forall i :: 0 <= i < n ==> z[i] == 0 { seq(n, _ => 0) }

  function Header(f: Frame): (h: seq<u8>)
    ensures |h| == 20
  {
    f.dest + f.src + Bytes2(f.frameType) + Bytes2(f.seqNum) + Bytes4(Pack(f.command))
  }

  /** All fields of the frame, without padding. */
  function Content(f: Frame): (b: seq<u8>)
    ensures |b| == TrueSize(f)
  {
    Header(f) + (if NeedsAddress(f.command.cmd) then Bytes4(f.addr) else []) + WordsToBytes(f.payload)
  }

  /** Copies bytes to position at of the buffer. */
  method Insert(out: array<u8>, at: nat, b: seq<u8>) returns (next: nat)
    requires at + |b| <= out.Length
    modifies out
    ensures next == at + |b|
    ensures out[..next] == old(out[..at]) + b
    ensures out[next..] == old(out[next..])
  {
    var i := 0;
    while i < |b|
      invariant i <= |b|
      invariant out[..at + i] == old(out[..at]) + b[..i]
      invariant out[at + i..] == old(out[at + i..])
    {
      ghost var before := out[..];
      out[at + i] := b[i];
      assert out[..at + i + 1] == before[..at + i] + [b[i]];
      assert out[at + i + 1..] == before[at + i..][1..];
      assert old(out[at + i + 1..]) == old(out[at + i..])[1..];
      assert b[..i + 1] == b[..i] + [b[i]];
      i := i + 1;
    }
    next := at + |b|;
    assert b[..|b|] == b;
  }

  /** The first at bytes are done, the others still zero. */
  ghost predicate Filled(out: seq<u8>, at: nat, done: seq<u8>) {
    at <= |out| && out[..at] == done && out[at..] == Zeros(|out| - at)
  }

  /** Insert, when the buffer so far holds `done` and zeros. */
  method Put(out: array<u8>, at: nat, b: seq<u8>, ghost done: seq<u8>) returns (next: nat)
    requires at + |b| <= out.Length && Filled(out[..], at, done)
    modifies out
    ensures next == at + |b| && Filled(out[..], next, done + b)
  {
    ghost var before := out[..];
    assert before[at..][|b|..] == before[at + |b|..];
    next := Insert(out, at, b);
  }

  method Serialize(f: Frame) returns (out: array<u8>)
    ensures out[..] == Content(f) + Zeros(NumBytes(f) - TrueSize(f))
  {
    hide Bytes4, Bytes2, Pack, Filled, WordsToBytes;
    out := new u8[NumBytes(f)](_ => 0);
    ghost var done: seq<u8> := [];
    assert Filled(out[..], 0, done) by { StartFilled(out[..]); }
    var at := Put(out, 0, f.dest, done);
    at := Put(out, at, f.src, f.dest);
    at := Put(out, at, Bytes2(f.frameType), f.dest + f.src);
    at := Put(out, at, Bytes2(f.seqNum), f.dest + f.src + Bytes2(f.frameType));
    at := Put(out, at, Bytes4(Pack(f.command)), f.dest + f.src + Bytes2(f.frameType) + Bytes2(f.seqNum));
    done := Header(f);
    if NeedsAddress(f.command.cmd) {
      at := Put(out, at, Bytes4(f.addr), done);
      done := done + Bytes4(f.addr);
    }
    at := PutWords(out, at, f.payload, done);
    assert done + WordsToBytes(f.payload) == Content(f);
    Whole(out[..], at, Content(f));
  }

  method PutWords(out: array<u8>, start: nat, ws: seq<u32>, ghost done: seq<u8>) returns (at: nat)
    requires start + 4 * |ws| <= out.Length && Filled(out[..], start, done)
    modifies out
    ensures at == start + 4 * |ws| && Filled(out[..], at, done + WordsToBytes(ws))
  {
    hide Bytes4, Filled;
    at := start;
    var i := 0;
    ghost var sofar := done;
    assert ws[0..] == ws;
    while i < |ws|
      invariant i <= |ws| && at == start + 4 * i
      invariant Filled(out[..], at, sofar) && sofar + WordsToBytes(ws[i..]) == done + WordsToBytes(ws)
    {
      at := Put(out, at, Bytes4(ws[i]), sofar);
      assert ws[i..][1..] == ws[i + 1..];
      sofar := sofar + Bytes4(ws[i]);
      i := i + 1;
    }
    assert sofar + WordsToBytes([]) == sofar;
  }

  lemma StartFilled(out: seq<u8>)
    requires forall i :: 0 <= i < |out| ==> out[i] == 0
    ensures Filled(out, 0, [])
  {
  }

  lemma Whole(out: seq<u8>, at: nat, done: seq<u8>)
    requires Filled(out, at, done)
    ensures out == done + Zeros(|out| - at)
  {
  }

  // ---------- parse ----------

  /** The byte constructor, for a buffer whose size leaves whole words. A missing address, or one
      not looked for because of the ack bit, reads as 0. */
  predicate Parseable(b: seq<u8>) {
    |b| >= 20 && |b| % 4 == 0 && (HasAddress(Unpack(Word4(b[16..20]))) ==> |b| >= 24)
  }

  predicate HasAddress(c: Command) { !c.ack && NeedsAddress(c.cmd) }

  function ParseOf(b: seq<u8>): Frame
    requires Parseable(b)
  {
    var command := Unpack(Word4(b[16..20]));
    var hasAddr := HasAddress(command);
    Frame(b[..6], b[6..12], Word2(b[12..14]), Word2(b[14..16]), command,
          if hasAddr then Word4(b[20..24]) else 0,
          BytesToWords(b[if hasAddr then 24 else 20..]))
  }

  method Parse(b: seq<u8>) returns (f: Frame)
    requires Parseable(b)
    ensures f == ParseOf(b)
  {
    hide Word2, Word4, Unpack, BytesToWords;
    var command := Unpack(Word4(b[16..20]));
    var addr: u32, offset := 0, 20;
    if !command.ack && NeedsAddress(command.cmd) {
      addr, offset := Word4(b[20..24]), 24;
    }
    var payload := ReadWords(b, offset);
    f := Frame(b[..6], b[6..12], Word2(b[12..14]), Word2(b[14..16]), command, addr, payload);
  }

  method ReadWords(b: seq<u8>, start: nat) returns (payload: seq<u32>)
    requires start <= |b| && (|b| - start) % 4 == 0
    ensures payload == BytesToWords(b[start..])
  {
    hide Word4;
    payload := [];
    var offset := start;
    while offset < |b|
      invariant start <= offset <= |b| && (|b| - offset) % 4 == 0
      invariant payload + BytesToWords(b[offset..]) == BytesToWords(b[start..])
    {
      assert b[offset..][..4] == b[offset..offset + 4] && b[offset..][4..] == b[offset + 4..];
      payload := payload + [Word4(b[offset..offset + 4])];
      offset := offset + 4;
    }
  }

  // ---------- round trip ----------

  lemma {:induction false} WordsBytes(ws: seq<u32>, rest: seq<u8>)
    requires |rest| % 4 == 0
    ensures BytesToWords(WordsToBytes(ws) + rest) == ws + BytesToWords(rest)
  {
    hide Bytes4, Word4;
    var b := WordsToBytes(ws) + rest;
    if ws == [] {
      assert b == rest;
    } else {
      Word4Bytes4(ws[0]);
      assert b[..4] == Bytes4(ws[0]) && b[4..] == WordsToBytes(ws[1..]) + rest;
      WordsBytes(ws[1..], rest);
    }
  }

  lemma {:induction false} ZeroWords(n: nat)
    requires n % 4 == 0
    ensures BytesToWords(Zeros(n)) == Zeros(n / 4)
  {
    if n > 0 {
      assert Zeros(n)[..4] == [0, 0, 0, 0] && Zeros(n)[4..] == Zeros(n - 4);
      ZeroWords(n - 4);
    }
  }

  /** The serialized frame, as the parser splits it. */
  lemma HeaderRead(f: Frame, tail: seq<u8>)
    ensures var b := Header(f) + tail;
      && b[..6] == f.dest && b[6..12] == f.src && Word2(b[12..14]) == f.frameType && Word2(b[14..16]) == f.seqNum
      && Unpack(Word4(b[16..20])) == f.command && b[20..] == tail
  {
    hide Bytes4, Word4, Bytes2, Word2, Pack, Unpack;
    var b := Header(f) + tail;
    assert b[12..14] == Bytes2(f.frameType) && b[14..16] == Bytes2(f.seqNum) && b[16..20] == Bytes4(Pack(f.command));
    Word2Bytes2(f.frameType);
    Word2Bytes2(f.seqNum);
    Word4Bytes4(Pack(f.command));
    UnpackPack(f.command);
  }

  /** Parsing what serialize() produced. Without the ack bit the frame comes back, its address 0 if
      the command has none; with it, an address is taken for the first payload word. Either way
      the payload is followed by zero words up to the smallest frame, and by nothing else. */
  lemma RoundTrip(f: Frame)
    ensures
      var b := Content(f) + Zeros(NumBytes(f) - TrueSize(f));
      var pad := Zeros((NumBytes(f) - TrueSize(f)) / 4);
      && Parseable(b)
      && ParseOf(b) ==
           if !NeedsAddress(f.command.cmd) then f.(addr := 0, payload := f.payload + pad)
           else if f.command.ack then f.(addr := 0, payload := [f.addr] + f.payload + pad)
           else f.(payload := f.payload + pad)
  {
    hide Bytes4, Word4, Bytes2, Word2, Pack, Unpack, Header, WordsToBytes, BytesToWords, Zeros;
    var zeros := Zeros(NumBytes(f) - TrueSize(f));
    var addr := if NeedsAddress(f.command.cmd) then Bytes4(f.addr) else [];
    var tail := addr + WordsToBytes(f.payload) + zeros;
    var b := Content(f) + zeros;
    assert b == Header(f) + tail;
    HeaderRead(f, tail);
    ZeroWords(|zeros|);
    WordsBytes(f.payload, zeros);
    if NeedsAddress(f.command.cmd) {
      Word4Bytes4(f.addr);
      assert b[20..24] == tail[..4] == Bytes4(f.addr);
      assert b[24..] == tail[4..] == WordsToBytes(f.payload) + zeros;
      WordsBytes([f.addr] + f.payload, zeros);
      AddressFirst(f.addr, f.payload);
      assert tail == WordsToBytes([f.addr] + f.payload) + zeros;
    } else {
      assert tail == WordsToBytes(f.payload) + zeros;
    }
  }

  lemma AddressFirst(a: u32, ws: seq<u32>)
    ensures WordsToBytes([a] + ws) == Bytes4(a) + WordsToBytes(ws)
  {
  }
}
