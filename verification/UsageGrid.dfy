/** The rows of a usage text as a grid (src/C++/optionparser.h, LinePartIterator): a row is a list
    of cells separated by tabs, a cell a list of lines separated by vertical tabs. */
module UsageGrid {
  import opened Glyphs

  const TAB: byte := 9
  const NL: byte := 10
  const VT: byte := 11

  type Cell = seq<seq<byte>>
  type Grid = seq<Cell>

  /** The character at p of a C string. */
  function At(h: seq<byte>, p: nat): byte { if p < |h| then h[p] else 0 }

  predicate IsBreak(b: byte) { b == 0 || b == VT || b == TAB || b == NL }

  predicate EndsRow(b: byte) { b == 0 || b == NL }

  /** Where the part that starts at p ends. */
  function PartEnd(h: seq<byte>, p: nat): (e: nat)
    requires p <= |h|
    ensures p <= e <= |h| && IsBreak(At(h, e)) && forall i :: p <= i < e ==> !IsBreak(h[i])
    decreases |h| - p
  {
    if IsBreak(At(h, p)) then p else PartEnd(h, p + 1)
  }

  /** Where the cell that starts at p ends. */
  function CellEnd(h: seq<byte>, p: nat): (e: nat)
    requires p <= |h|
    ensures p <= e <= |h| && (At(h, e) == TAB || EndsRow(At(h, e)))
    decreases |h| - p
  {
    var e := PartEnd(h, p);
    if At(h, e) == VT then CellEnd(h, e + 1) else e
  }

  /** The lines of the cell that starts at p, and the row that starts at p. */
  function ParseCell(h: seq<byte>, p: nat): Cell
    requires p <= |h|
    decreases |h| - p
  {
    var e := PartEnd(h, p);
    [h[p..e]] + if At(h, e) == VT then ParseCell(h, e + 1) else []
  }

  /** The space that the first l lines of a cell, or the first c cells of a row, take in the text,
      each with the character after it. */
  function LinesLen(cell: Cell, l: nat): nat
    requires l <= |cell|
  {
    if l == 0 then 0 else LinesLen(cell, l - 1) + |cell[l - 1]| + 1
  }

  function CellsLen(g: Grid, c: nat): nat
    requires c <= |g|
  {
    if c == 0 then 0 else CellsLen(g, c - 1) + LinesLen(g[c - 1], |g[c - 1]|)
  }

  function Off(g: Grid, c: nat, l: nat): nat
    requires c < |g| && l <= |g[c]|
  {
    CellsLen(g, c) + LinesLen(g[c], l)
  }

  /** What follows line l of a cell that is, or is not, the last one of its row. */
  predicate Follows(b: byte, lastLine: bool, lastCell: bool) {
    if !lastLine then b == VT else if !lastCell then b == TAB else EndsRow(b)
  }

  /** The part seg, and nothing of what separates parts, stands at p. */
  predicate PieceAt(h: seq<byte>, p: nat, seg: seq<byte>) {
    && p + |seg| <= |h| && h[p..p + |seg|] == seg
    && forall i :: p <= i < p + |seg| ==> !IsBreak(h[i])
  }

  /** Line l of cell c stands where it should in the text h of a row that starts at rs. */
  predicate SegAt(h: seq<byte>, rs: nat, g: Grid, c: nat, l: nat)
    requires c < |g| && l < |g[c]|
  {
    var p := rs + Off(g, c, l);
    PieceAt(h, p, g[c][l]) && Follows(At(h, p + |g[c][l]|), l == |g[c]| - 1, c == |g| - 1)
  }

  /** g is the row of h that starts at rs. */
  ghost predicate RowAt(h: seq<byte>, rs: nat, g: Grid) {
    && g != []
    && (forall c :: 0 <= c < |g| ==> g[c] != [])
    && (forall c, l :: 0 <= c < |g| && 0 <= l < |g[c]| ==> SegAt(h, rs, g, c, l))
  }

  // ---------- every text has such a row ----------

  ghost predicate CellAt(h: seq<byte>, p: nat, cell: Cell) {
    && cell != []
    && forall l :: 0 <= l < |cell| ==> LineAt(h, p, cell, l)
  }

  ghost predicate LineAt(h: seq<byte>, p: nat, cell: Cell, l: nat)
    requires l < |cell|
  {
    var q := p + LinesLen(cell, l);
    var b := At(h, q + |cell[l]|);
    PieceAt(h, q, cell[l]) && if l < |cell| - 1 then b == VT else b == TAB || EndsRow(b)
  }

  lemma {:induction false} LinesLenCons(x: seq<byte>, cell: Cell, l: nat)
    requires l <= |cell|
    ensures LinesLen([x] + cell, l + 1) == |x| + 1 + LinesLen(cell, l)
  {
    if l > 0 {
      LinesLenCons(x, cell, l - 1);
      assert ([x] + cell)[l] == cell[l - 1];
    } else {
      assert LinesLen([x] + cell, 0) == 0;
    }
  }

  lemma LineShift(h: seq<byte>, p: nat, x: seq<byte>, rest: Cell, l: nat)
    requires l < |rest| && LineAt(h, p + |x| + 1, rest, l)
    ensures LineAt(h, p, [x] + rest, l + 1)
  {
    hide LinesLen, PieceAt;
    LinesLenCons(x, rest, l);
  }

  /** One more line in front. */
  lemma CellCons(h: seq<byte>, p: nat, e: nat, rest: Cell)
    requires p <= e < |h| && At(h, e) == VT && PieceAt(h, p, h[p..e])
    requires CellAt(h, e + 1, rest)
    ensures CellAt(h, p, [h[p..e]] + rest)
  {
    hide PieceAt, At;
    var cell := [h[p..e]] + rest;
    assert LineAt(h, p, cell, 0);
    hide LineAt;
    forall l | 0 <= l < |cell| ensures LineAt(h, p, cell, l) {
      if l > 0 { LineShift(h, p, h[p..e], rest, l - 1); }
    }
  }

  lemma {:induction false} ParseCellAt(h: seq<byte>, p: nat)
    requires p <= |h|
    ensures CellAt(h, p, ParseCell(h, p))
    ensures p + LinesLen(ParseCell(h, p), |ParseCell(h, p)|) == CellEnd(h, p) + 1
    decreases |h| - p
  {
    hide LinesLen, PartEnd;
    var e := PartEnd(h, p);
    var cell := ParseCell(h, p);
    hide CellAt, PieceAt, At;
    PartPiece(h, p);
    if At(h, e) == VT {
      ParseCellAt(h, e + 1);
      var rest := ParseCell(h, e + 1);
      assert cell == [h[p..e]] + rest;
      LinesLenCons(h[p..e], rest, |rest|);
      CellCons(h, p, e, rest);
    } else {
      assert cell == [h[p..e]];
      OneLine(h, p, e);
    }
  }

  lemma PartPiece(h: seq<byte>, p: nat)
    requires p <= |h|
    ensures var e := PartEnd(h, p); PieceAt(h, p, h[p..e]) && (At(h, e) == VT ==> e < |h|)
  {
    hide PartEnd;
  }

  lemma OneLine(h: seq<byte>, p: nat, e: nat)
    requires p <= e <= |h| && PieceAt(h, p, h[p..e]) && (At(h, e) == TAB || EndsRow(At(h, e)))
    ensures CellAt(h, p, [h[p..e]]) && LinesLen([h[p..e]], 1) == e - p + 1
  {
    hide PieceAt;
    LastLine([h[p..e]]);
    assert LinesLen([h[p..e]], 0) == 0;
  }

  /** The row that starts at p. */
  function ParseRow(h: seq<byte>, p: nat): Grid
    requires p <= |h|
    decreases |h| - p
  {
    var e := CellEnd(h, p);
    [ParseCell(h, p)] + if At(h, e) == TAB then ParseRow(h, e + 1) else []
  }

  lemma {:induction false} CellsLenCons(x: Cell, g: Grid, c: nat)
    requires c <= |g|
    ensures CellsLen([x] + g, c + 1) == LinesLen(x, |x|) + CellsLen(g, c)
  {
    if c > 0 {
      CellsLenCons(x, g, c - 1);
      assert ([x] + g)[c] == g[c - 1];
    } else {
      assert CellsLen([x] + g, 0) == 0;
    }
  }

  lemma LastLine(cell: Cell)
    requires cell != []
    ensures LinesLen(cell, |cell|) == LinesLen(cell, |cell| - 1) + |cell[|cell| - 1]| + 1
  {
  }

  lemma SegShift(h: seq<byte>, p: nat, x: Cell, rest: Grid, c: nat, l: nat)
    requires c < |rest| && l < |rest[c]| && SegAt(h, p + LinesLen(x, |x|), rest, c, l)
    ensures SegAt(h, p, [x] + rest, c + 1, l)
  {
    hide LinesLen, CellsLen, PieceAt, At;
    CellsLenCons(x, rest, c);
    assert ([x] + rest)[c + 1] == rest[c];
  }

  lemma FirstCell(h: seq<byte>, p: nat, x: Cell, rest: Grid, l: nat)
    requires l < |x| && CellAt(h, p, x)
    requires 0 < LinesLen(x, |x|) && (At(h, p + LinesLen(x, |x|) - 1) == TAB <==> rest != [])
    ensures SegAt(h, p, [x] + rest, 0, l)
  {
    hide LinesLen, PieceAt, At;
    var g := [x] + rest;
    assert g[0] == x && CellsLen(g, 0) == 0;
    assert LineAt(h, p, x, l);
    LastLine(x);
  }

  lemma RowCons(h: seq<byte>, p: nat, x: Cell, rest: Grid)
    requires CellAt(h, p, x) && 0 < LinesLen(x, |x|)
    requires At(h, p + LinesLen(x, |x|) - 1) == TAB <==> rest != []
    requires rest != [] ==> RowAt(h, p + LinesLen(x, |x|), rest)
    ensures RowAt(h, p, [x] + rest)
  {
    hide SegAt, LinesLen, CellAt;
    var g := [x] + rest;
    assert x != [] by { NonEmptyCell(h, p, x); }
    forall c, l | 0 <= c < |g| && 0 <= l < |g[c]| ensures SegAt(h, p, g, c, l) {
      if c == 0 {
        FirstCell(h, p, x, rest, l);
      } else {
        assert g[c] == rest[c - 1];
        SegShift(h, p, x, rest, c - 1, l);
      }
    }
  }

  lemma NonEmptyCell(h: seq<byte>, p: nat, x: Cell)
    requires CellAt(h, p, x)
    ensures x != []
  {
  }

  /** Every text is such a row, from any position on. */
  lemma {:induction false} ParseRowAt(h: seq<byte>, p: nat)
    requires p <= |h|
    ensures RowAt(h, p, ParseRow(h, p))
    decreases |h| - p
  {
    hide SegAt, LinesLen, ParseCell, CellEnd, CellAt, RowAt;
    var e := CellEnd(h, p);
    ParseCellAt(h, p);
    if At(h, e) == TAB {
      ParseRowAt(h, e + 1);
    }
    RowCons(h, p, ParseCell(h, p), if At(h, e) == TAB then ParseRow(h, e + 1) else []);
  }
}
