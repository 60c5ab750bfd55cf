/** Characters and their screen width in a byte string, as the usage formatter of
    src/C++/optionparser.h decodes them: a byte above 0xC1 starts a multi-byte character that
    takes all continuation bytes after it; every other byte is a character of its own. */
module Glyphs {

  newtype byte = b: int | 0 <= b < 256

  const SPACE: byte := 32

  predicate IsContinuation(b: byte) { 0x80 <= b <= 0xBF }

  predicate IsWideChar(ch: int) {
    && ch != 0x303F
    && (0x1100 <= ch <= 0x115F || 0x2329 <= ch <= 0x232A || 0x2E80 <= ch <= 0xA4C6
        || 0xA960 <= ch <= 0xA97C || 0xAC00 <= ch <= 0xD7FB || 0xF900 <= ch <= 0xFAFF
        || 0xFE10 <= ch <= 0xFE6B || 0xFF01 <= ch <= 0xFF60 || 0xFFE0 <= ch <= 0xFFE6
        || 0x1B000 <= ch)
  }

  /** A start byte without its length bits. (For 0xFF the source's bit trick is undefined.) */
  function LeadBits(b: byte): (n: nat)
    requires b > 0xC1
    ensures n <= 0x3F
  {
    (if b < 0xE0 then b - 0xC0 else if b < 0xF0 then b - 0xE0 else if b < 0xF8 then b - 0xF0
     else if b < 0xFC then b - 0xF8 else if b < 0xFE then b - 0xFC else 0) as int
  }

  /** The number of continuation bytes at the front of s. */
  function Continuations(s: seq<byte>): (n: nat)
    ensures n <= |s| && forall i :: 0 <= i < n ==> IsContinuation(s[i])
    ensures n < |s| ==> !IsContinuation(s[n])
  {
    if s == [] || !IsContinuation(s[0]) then 0 else 1 + Continuations(s[1..])
  }

  /** Adding continuation bytes to a code point, in 32 bits. */
  function AddBytes(ch: int, s: seq<byte>): int
    decreases |s|
  {
    if s == [] then ch else AddBytes((ch * 64) % 0x1_0000_0000 + (s[0] as int - 0x80), s[1..])
  }

  /** The size in bytes of the character at the front of s. */
  function CharBytes(s: seq<byte>): (n: nat)
    requires s != []
    ensures 1 <= n <= |s|
  {
    if s[0] > 0xC1 then 1 + Continuations(s[1..]) else 1
  }

  function CodePoint(s: seq<byte>): int
    requires s != [] && s[0] > 0xC1
  {
    AddBytes(LeadBits(s[0]), s[1..CharBytes(s)])
  }

  /** The screen columns of the character at the front of s. Wide ones have at least 2 bytes. */
  function CharCols(s: seq<byte>): (c: nat)
    requires s != []
    ensures 1 <= c <= 2 && c <= CharBytes(s)
  {
    if s[0] > 0xC1 && CodePoint(s) >= 0x1100 && IsWideChar(CodePoint(s)) then
      2
    else 1
  }

  /** The decoding loop: size and screen columns of the character at the front of s. */
  method Decode(s: seq<byte>) returns (n: nat, cols: nat)
    requires s != []
    ensures n == CharBytes(s) && cols == CharCols(s)
  {
    n, cols := 1, 1;
    if s[0] > 0xC1 {
      var ch: int := LeadBits(s[0]);
      while n < |s| && IsContinuation(s[n])
        invariant 1 <= n <= CharBytes(s)
        invariant AddBytes(ch, s[n..CharBytes(s)]) == CodePoint(s)
        decreases |s| - n
      {
        ContinuationsReach(s[1..], n - 1);
        assert s[n..CharBytes(s)][0] == s[n] && s[n..CharBytes(s)][1..] == s[n + 1..CharBytes(s)];
        ch := (ch * 64) % 0x1_0000_0000 + (s[n] as int - 0x80);
        n := n + 1;
      }
      assert n == CharBytes(s) by {
        assert forall i :: 0 <= i < CharBytes(s) - 1 ==> s[1..][i] == s[i + 1];
      }
      if ch >= 0x1100 && IsWideChar(ch) { cols := 2; }
    }
  }

  lemma ContinuationsReach(s: seq<byte>, i: nat)
    requires i < |s| && i <= Continuations(s) && IsContinuation(s[i])
    ensures i < Continuations(s)
  {
  }

  /** The screen columns of a byte string. */
  function Cols(s: seq<byte>): (c: nat)
    ensures c <= |s|
  {
    if s == [] then 0 else CharCols(s) + Cols(s[CharBytes(s)..])
  }

  /** i is the start of a character of s, or its end. */
  predicate Boundary(s: seq<byte>, i: nat) {
    i == 0 || (s != [] && i >= CharBytes(s) && Boundary(s[CharBytes(s)..], i - CharBytes(s)))
  }

  lemma {:induction false} ContinuationsCut(s: seq<byte>, i: nat)
    requires i <= |s|
    ensures Continuations(s) <= i ==> Continuations(s[..i]) == Continuations(s)
    ensures Continuations(s) > i ==> Continuations(s[..i]) == i
  {
  }

  /** The character at the front does not see what comes after a boundary. */
  lemma FirstCharCut(s: seq<byte>, i: nat)
    requires s != [] && CharBytes(s) <= i <= |s|
    ensures CharBytes(s[..i]) == CharBytes(s) && CharCols(s[..i]) == CharCols(s)
  {
    assert s[..i][1..] == s[1..][..i - 1];
    ContinuationsCut(s[1..], i - 1);
    assert s[..i][1..CharBytes(s)] == s[1..CharBytes(s)];
  }

  /** Cutting at a boundary splits the width. */
  lemma {:induction false} ColsCut(s: seq<byte>, i: nat)
    requires Boundary(s, i) && i <= |s|
    ensures Cols(s) == Cols(s[..i]) + Cols(s[i..])
  {
    hide CharCols, CharBytes;
    if i == 0 {
      assert s[0..] == s;
    } else {
      var n := CharBytes(s);
      FirstCharCut(s, i);
      ColsCut(s[n..], i - n);
      assert s[n..][..i - n] == s[..i][n..] && s[n..][i - n..] == s[i..];
    }
  }

  lemma CharTail(s: seq<byte>)
    requires s != []
    ensures forall j :: 1 <= j < CharBytes(s) ==> IsContinuation(s[j])
  {
  }

  /** A byte that is not a continuation starts a character. */
  lemma {:induction false} StartIsBoundary(s: seq<byte>, i: nat)
    requires i < |s| && !IsContinuation(s[i])
    ensures Boundary(s, i)
  {
    if i > 0 {
      CharTail(s);
      StartIsBoundary(s[CharBytes(s)..], i - CharBytes(s));
    }
  }

  // ---------- what the bytes of a character stand for ----------

  /** The UTF-8 form of a code point (section 3 of RFC 3629). */
  function Encoded(ch: nat): (s: seq<byte>)
    requires ch < 0x11_0000
    ensures s != []
  {
    if ch < 0x80 then [ch as byte]
    else if ch < 0x800 then [(0xC0 + ch / 0x40) as byte, Tail(ch)]
    else if ch < 0x1_0000 then [(0xE0 + ch / 0x1000) as byte, Tail(ch / 0x40), Tail(ch)]
    else [(0xF0 + ch / 0x4_0000) as byte, Tail(ch / 0x1000), Tail(ch / 0x40), Tail(ch)]
  }

  function Tail(ch: nat): (b: byte)
    ensures IsContinuation(b) && b as int == 0x80 + ch % 0x40
  {
    (0x80 + ch % 0x40) as byte
  }

  /** Decoding undoes it: the size of the form and the width of the code point, whatever character
      follows. */
  lemma EncodedDecodes(ch: nat, rest: seq<byte>)
    requires ch < 0x11_0000 && (rest != [] ==> !IsContinuation(rest[0]))
    ensures CharBytes(Encoded(ch) + rest) == |Encoded(ch)|
    ensures ch >= 0x80 ==> (Encoded(ch) + rest)[0] > 0xC1 && CodePoint(Encoded(ch) + rest) == ch
    ensures CharCols(Encoded(ch) + rest) == if ch >= 0x1100 && IsWideChar(ch) then 2 else 1
  {
    var e := Encoded(ch);
    var s := e + rest;
    if ch >= 0x80 {
      assert s[1..] == e[1..] + rest;
      TailsCount(e[1..], rest);
      assert s[1..|e|] == e[1..];
      Decoded(ch);
    }
  }

  lemma {:induction false} TailsCount(a: seq<byte>, rest: seq<byte>)
    requires (forall i :: 0 <= i < |a| ==> IsContinuation(a[i])) && (rest != [] ==> !IsContinuation(rest[0]))
    ensures Continuations(a + rest) == |a|
  {
    if a == [] {
      assert a + rest == rest;
    } else {
      assert (a + rest)[1..] == a[1..] + rest;
      TailsCount(a[1..], rest);
    }
  }

  /** One continuation byte. */
  lemma AddOne(hi: nat, ch: nat, rest: seq<byte>)
    requires hi == ch / 0x40 && ch < 0x11_0000
    ensures AddBytes(hi, [Tail(ch)] + rest) == AddBytes(ch, rest)
  {
    assert ([Tail(ch)] + rest)[1..] == rest;
    assert hi * 64 + ch % 0x40 == ch;
  }

  lemma Decoded(ch: nat)
    requires 0x80 <= ch < 0x11_0000
    ensures Encoded(ch)[0] > 0xC1 && AddBytes(LeadBits(Encoded(ch)[0]), Encoded(ch)[1..]) == ch
  {
    hide AddBytes, Tail;
    var s := Encoded(ch);
    var x, y, z := Tail(ch / 0x1000), Tail(ch / 0x40), Tail(ch);
    AddOne(ch / 0x40, ch, []);
    AddNone(ch);
    assert [z] + [] == [z] && [y] + [z] == [y, z] && [x] + [y, z] == [x, y, z];
    if ch < 0x800 {
      assert s[1..] == [z];
    } else if ch < 0x1_0000 {
      assert s[1..] == [y, z];
      Shifted(ch);
      AddOne(ch / 0x1000, ch / 0x40, [z]);
    } else {
      assert s[1..] == [x, y, z];
      Shifted(ch);
      AddOne(ch / 0x1000, ch / 0x40, [z]);
      AddOne(ch / 0x4_0000, ch / 0x1000, [y, z]);
    }
  }

  lemma Shifted(ch: nat)
    ensures ch / 0x40 / 0x40 == ch / 0x1000 && ch / 0x1000 / 0x40 == ch / 0x4_0000
  {
  }

  lemma AddNone(ch: int)
    ensures AddBytes(ch, []) == ch
  {
  }
}
