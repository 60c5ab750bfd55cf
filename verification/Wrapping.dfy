/** Where LineWrapper::process of src/C++/optionparser.h breaks a chunk of text. */
module Wrapping {
  import opened Glyphs

  /** One output line; spaceAfter says that a space of the text was dropped at its end. */
  datatype Line = Line(text: seq<byte>, spaceAfter: bool)

  /** The most bytes, in whole characters, that fit into `room` columns. */
  function Fit(d: seq<byte>, room: nat): (n: nat)
    ensures n <= |d|
    decreases |d|
  {
    if d == [] || CharCols(d) > room then 0
    else CharBytes(d) + Fit(d[CharBytes(d)..], room - CharCols(d))
  }

  /** Fit is a character boundary, its prefix fits, and the next character would not. */
  lemma {:induction false} FitMeaning(d: seq<byte>, room: nat)
    ensures Boundary(d, Fit(d, room))
    ensures Cols(d[..Fit(d, room)]) <= room
    ensures Fit(d, room) < |d| ==>
      Cols(d[..Fit(d, room)]) + CharCols(d[Fit(d, room)..]) > room
    decreases |d|
  {
    hide CharCols, CharBytes;
    var m := Fit(d, room);
    if m > 0 {
      var n := CharBytes(d);
      FitMeaning(d[n..], room - CharCols(d));
      FirstCharCut(d, m);
      assert d[..m][n..] == d[n..][..m - n] && d[m..] == d[n..][m - n..];
    } else {
      assert d[..0] == [] && d[0..] == d;
    }
  }

  /** A text that fits altogether. */
  lemma {:induction false} FitWhole(d: seq<byte>, room: nat)
    ensures Fit(d, room) == |d| <==> Cols(d) <= room
    decreases |d|
  {
    if d != [] && CharCols(d) <= room {
      FitWhole(d[CharBytes(d)..], room - CharCols(d));
    }
  }

  /** Any prefix that ends at a boundary and fits is within Fit. */
  lemma {:induction false} FitLargest(d: seq<byte>, room: nat, i: nat)
    requires Boundary(d, i) && i <= |d| && Cols(d[..i]) <= room
    ensures i <= Fit(d, room)
    decreases |d|
  {
    hide CharCols, CharBytes;
    if i > 0 {
      var n := CharBytes(d);
      FirstCharCut(d, i);
      assert d[..i][n..] == d[n..][..i - n];
      FitLargest(d[n..], room - CharCols(d), i - n);
    }
  }

  /** The last space at or before m, or -1. */
  function LastSpace(d: seq<byte>, m: int): (i: int)
    requires -1 <= m < |d|
    ensures -1 <= i <= m && (i >= 0 ==> d[i] == SPACE)
    ensures forall j :: i < j <= m ==> d[j] != SPACE
    decreases m + 1
  {
    if m < 0 || d[m] == SPACE then m else LastSpace(d, m - 1)
  }

  /** Where the next line of d ends. */
  function Cut(d: seq<byte>, width: nat): (c: (nat, bool))
    requires width >= 2 && d != []
    ensures c.0 <= |d| && (c.1 ==> c.0 < |d| && d[c.0] == SPACE) && (c.0 == 0 ==> c.1)
  {
    var m := Fit(d, width);
    if m == |d| then (m, false)
    else
      var i := LastSpace(d, m);
      if i >= 0 then (i, true) else (m, false)
  }

  /** The break rule: no break if the text fits; otherwise at the last space up to which the
      text fits; without such a space, after the last character that fits. */
  lemma CutMeaning(d: seq<byte>, width: nat)
    requires width >= 2 && d != []
    ensures
      var (n, space) := Cut(d, width);
      && Boundary(d, n) && Cols(d[..n]) <= width
      && (Cols(d) <= width <==> n == |d|)
      && (space ==> forall j :: n < j < |d| && d[j] == 32 ==> Cols(d[..j]) > width)
      && (!space && n < |d| ==>
            && (forall j :: 0 <= j < |d| && d[j] == 32 ==> Cols(d[..j]) > width)
            && (forall j :: n < j <= |d| && Boundary(d, j) ==> Cols(d[..j]) > width))
  {
    hide CharCols, CharBytes, Fit, LastSpace, Cols;
    var m := Fit(d, width);
    var (n, space) := Cut(d, width);
    FitMeaning(d, width);
    FitWhole(d, width);
    forall j | 0 <= j <= |d| && Boundary(d, j) && Cols(d[..j]) <= width ensures j <= m {
      FitLargest(d, width, j);
    }
    forall j | 0 <= j < |d| && d[j] == SPACE ensures Boundary(d, j) {
      StartIsBoundary(d, j);
    }
    if space {
      ColsCut(d[..m], n) by { BoundaryPrefix(d, n, m); }
      assert d[..m][..n] == d[..n];
    } else {
      assert d[..|d|] == d;
    }
  }

  lemma {:induction false} BoundaryPrefix(d: seq<byte>, i: nat, m: nat)
    requires Boundary(d, i) && i <= m <= |d|
    ensures Boundary(d[..m], i)
  {
    hide CharBytes;
    if i > 0 {
      var n := CharBytes(d);
      FirstCharCut(d, m);
      BoundaryPrefix(d[n..], i - n, m - n);
      assert d[..m][n..] == d[n..][..m - n];
    }
  }

  /** The lines of a chunk. */
  function Wrap(d: seq<byte>, width: nat): seq<Line>
    requires width >= 2
    decreases |d|
  {
    if d == [] then []
    else
      var (n, space) := Cut(d, width);
      [Line(d[..n], space)] + Wrap(d[if space then n + 1 else n..], width)
  }

  function Joined(ls: seq<Line>): seq<byte> {
    if ls == [] then []
    else ls[0].text + (if ls[0].spaceAfter then [32] else []) + Joined(ls[1..])
  }

  /** The lines rejoin to the text: one space is lost per break at a space, nothing per forced
      break. */
  lemma {:induction false} WrapRejoins(d: seq<byte>, width: nat)
    requires width >= 2
    ensures Joined(Wrap(d, width)) == d
    decreases |d|
  {
    hide Cut;
    if d != [] {
      var (n, space) := Cut(d, width);
      var rest := d[if space then n + 1 else n..];
      WrapRejoins(rest, width);
      assert d == d[..n] + (if space then [SPACE] else []) + rest;
    }
  }

  /** Every line fits into the width. */
  lemma {:induction false} WrapFits(d: seq<byte>, width: nat)
    requires width >= 2
    ensures forall l :: l in Wrap(d, width) ==> Cols(l.text) <= width
    decreases |d|
  {
    if d != [] {
      var (n, space) := Cut(d, width);
      CutMeaning(d, width);
      WrapFits(d[if space then n + 1 else n..], width);
    }
  }
}
