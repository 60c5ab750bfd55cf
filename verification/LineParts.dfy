/** LinePartIterator of src/C++/optionparser.h: it walks a usage text several times to hand out
    the parts of a row line by line, although they stand in the text cell by cell. */
module LineParts {
  import opened Arguments
  import opened Glyphs
  import opened UsageGrid

  /** The greatest line index in the first c cells. */
  function MaxUpto(g: Grid, c: nat): nat
    requires c <= |g|
  {
    if c == 0 then 0 else var m := MaxUpto(g, c - 1); if |g[c - 1]| - 1 > m then |g[c - 1]| - 1 else m
  }

  function MaxLine(g: Grid): nat { MaxUpto(g, |g|) }

  lemma {:induction false} MaxUptoBounds(g: Grid, c: nat, d: nat)
    requires c <= d <= |g|
    ensures MaxUpto(g, c) <= MaxUpto(g, d)
    ensures forall j :: c <= j < d ==> |g[j]| <= MaxUpto(g, d) + 1
  {
    if c < d { MaxUptoBounds(g, c, d - 1); }
  }

  /** The greatest line index is reached by some cell. */
  lemma {:induction false} MaxUptoReached(g: Grid, c: nat)
    requires c <= |g|
    ensures MaxUpto(g, c) == 0 || exists j :: 0 <= j < c && |g[j]| == MaxUpto(g, c) + 1
  {
    if c > 0 { MaxUptoReached(g, c - 1); }
  }

  /** What the iterator shows for line t of cell c: that line, or a part without text if the cell
      is shorter. `joined` says that a tab or vertical tab follows. */
  datatype Part = Part(column: nat, line: nat, text: seq<byte>, joined: bool)

  function PartOf(g: Grid, t: nat, c: nat): Part
    requires c < |g|
  {
    Part(c, t, if t < |g[c]| then g[c][t] else [], t + 1 < |g[c]| || c + 1 < |g|)
  }

  /** Where that part stands, relative to the start of the row. */
  function PartOff(g: Grid, t: nat, c: nat): nat
    requires c < |g| && g[c] != []
  {
    if t < |g[c]| then Off(g, c, t) else Off(g, c, |g[c]| - 1) + |g[c][|g[c]| - 1]|
  }

  // ---------- moving along the text ----------

  lemma SegFacts(h: seq<byte>, rs: nat, g: Grid, c: nat, l: nat)
    requires RowAt(h, rs, g) && c < |g| && l < |g[c]|
    ensures var p := rs + Off(g, c, l);
      && PieceAt(h, p, g[c][l]) && Follows(At(h, p + |g[c][l]|), l == |g[c]| - 1, c == |g| - 1)
  {
    assert SegAt(h, rs, g, c, l);
  }

  lemma NextSeg(g: Grid, c: nat, l: nat)
    requires c < |g| && l < |g[c]|
    ensures l + 1 < |g[c]| ==> Off(g, c, l + 1) == Off(g, c, l) + |g[c][l]| + 1
    ensures l + 1 == |g[c]| && c + 1 < |g| ==> Off(g, c + 1, 0) == Off(g, c, l) + |g[c][l]| + 1
    ensures Off(g, 0, 0) == 0
  {
  }

  lemma RowShape(h: seq<byte>, rs: nat, g: Grid)
    requires RowAt(h, rs, g)
    ensures g != [] && forall c :: 0 <= c < |g| ==> g[c] != []
  {
  }

  class LinePartIterator {
    const usage: seq<Maybe<seq<byte>>>   // the help of each descriptor; the last, all-zero one is left out
    var tablestart: nat
    var rowdesc: int                     // -1 is NULL
    var rowstart: int                    // -1 is NULL, else a position in the help of rowdesc
    var ptr: int                         // likewise
    var col: int
    var len: nat
    var screenlen: nat
    var maxLine: nat
    var lineInBlock: nat
    var targetLine: nat
    var hitTarget: bool
    ghost var grid: Grid                 // the current row

    function Help(d: int): Maybe<seq<byte>> {
      if 0 <= d < |usage| then usage[d] else Nothing
    }

    function Text(): seq<byte> reads this {
      if Help(rowdesc).Just? then Help(rowdesc).value else []
    }

    /** A row has been chosen. */
    ghost predicate OnRow() reads this {
      Help(rowdesc).Just? && 0 <= rowstart <= |Text()| && RowAt(Text(), rowstart, grid)
    }

    /** The iterator shows a part: line targetLine of cell col. */
    ghost predicate OnPart()
      reads this
    {
      && OnRow() && 0 <= col < |grid| && grid[col] != []
      && targetLine <= MaxLine(grid) && hitTarget
      && ptr == rowstart + PartOff(grid, targetLine, col)
      && lineInBlock == (if targetLine < |grid[col]| then targetLine else |grid[col]| - 1)
      && len == |PartOf(grid, targetLine, col).text| && screenlen == Cols(PartOf(grid, targetLine, col).text)
      && maxLine == if targetLine == 0 then MaxUpto(grid, col) else MaxLine(grid)
    }

    ghost predicate AtRowStart() reads this {
      && OnRow() && ptr == rowstart && col == -1 && len == 0 && maxLine == lineInBlock == targetLine == 0
      && hitTarget
    }

    /** The last part of the row has been shown. */
    ghost predicate AtRowEnd() reads this {
      && OnRow() && rowstart <= ptr <= |Text()| && EndsRow(At(Text(), ptr))
      && forall i :: rowstart <= i < ptr ==> !EndsRow(Text()[i])
    }

    constructor (usage: seq<Maybe<seq<byte>>>)
      ensures this.usage == usage && tablestart == 0 && rowdesc == -1
    {
      this.usage := usage;
      tablestart, rowdesc, rowstart, ptr, col := 0, -1, -1, -1, -1;
      len, screenlen, maxLine, lineInBlock, targetLine, hitTarget, grid := 0, 0, 0, 0, 0, true, [];
    }

    method RestartTable()
      modifies this`rowdesc, this`rowstart, this`ptr
      ensures rowdesc == tablestart && ptr == -1
      ensures rowstart == if Help(tablestart).Just? then 0 else -1
    {
      rowdesc, ptr := tablestart, -1;
      rowstart := if Help(tablestart).Just? then 0 else -1;
    }

    method RestartRow()
      requires rowstart == -1 || (Help(rowdesc).Just? && 0 <= rowstart <= |Text()|)
      modifies this`ptr, this`col, this`len, this`screenlen, this`maxLine, this`lineInBlock, this`targetLine, this`hitTarget, this`grid
      ensures rowstart == -1 ==> ptr == -1
      ensures rowstart >= 0 ==> AtRowStart() && grid == ParseRow(Text(), rowstart)
    {
      hide ParseRow, RowAt;
      ptr, col, len, screenlen := rowstart, -1, 0, 0;
      maxLine, lineInBlock, targetLine, hitTarget := 0, 0, 0, true;
      if rowstart >= 0 {
        grid := ParseRow(Text(), rowstart);
        ParseRowAt(Text(), rowstart);
      }
    }

    /** The iterator is somewhere in a row and the row does not end before ptr. */
    ghost predicate InRow() reads this {
      && OnRow() && rowstart <= ptr <= |Text()|
      && forall i :: rowstart <= i < ptr ==> !EndsRow(Text()[i])
    }

    /** The next row of the table, or the first one after restartTable(). */
    method NextRow() returns (more: bool)
      requires (ptr == -1 && (rowstart == -1 || (rowstart == 0 && Help(rowdesc).Just?))) || InRow()
      modifies this`rowdesc, this`rowstart, this`ptr, this`col, this`len, this`screenlen, this`maxLine, this`lineInBlock, this`targetLine, this`hitTarget, this`grid
      ensures old(ptr) == -1 ==> more == (rowstart != -1) && rowstart == old(rowstart) && rowdesc == old(rowdesc)
      ensures old(ptr) != -1 ==>
        var next := NextPos(usage, old(rowdesc), old(rowstart));
        && more == next.Just?
        && (more ==> (rowdesc, rowstart) == (next.value.0 as int, next.value.1 as int))
      ensures more ==> AtRowStart() && 0 <= rowdesc && Help(rowdesc).Just? && grid == ParseRow(Text(), rowstart)
    {
      hide ParseRow, RowAt;
      if ptr == -1 {
        RestartRow();
        return rowstart != -1;
      }
      var text := Text();
      while At(text, ptr) != 0 && At(text, ptr) != NL
        invariant text == Text() && 0 <= rowstart <= ptr <= |text|
        invariant forall i :: rowstart <= i < ptr ==> !EndsRow(text[i])
        invariant rowdesc == old(rowdesc) && rowstart == old(rowstart)
        decreases |text| - ptr
      {
        ptr := ptr + 1;
      }
      RowEndIs(text, rowstart, ptr);
      if At(text, ptr) == 0 {
        if Help(rowdesc + 1).Nothing? { return false; }
        rowdesc := rowdesc + 1;
        rowstart := 0;
      } else {
        rowstart := ptr + 1;
      }
      RestartRow();
      return true;
    }

    /** The next table: a maximal stretch of descriptors with a help text. */
    method NextTable() returns (more: bool)
      requires tablestart <= |usage|
      modifies this`tablestart, this`rowdesc, this`rowstart, this`ptr
      ensures
        var from := if old(rowdesc) == -1 then old(tablestart) else Skip(usage, old(tablestart), true);
        tablestart == Skip(usage, from, false) && more == (tablestart < |usage|)
      ensures rowdesc == tablestart <= |usage| && ptr == -1 && rowstart == if more then 0 else -1
      ensures more ==> Help(rowdesc).Just?
    {
      ghost var t0 := tablestart;
      if rowdesc != -1 {
        while tablestart < |usage| && Help(tablestart).Just?
          invariant t0 <= tablestart <= |usage| && Skip(usage, tablestart, true) == Skip(usage, t0, true)
        {
          tablestart := tablestart + 1;
        }
      }
      ghost var t1 := tablestart;
      while tablestart < |usage| && Help(tablestart).Nothing?
        invariant t1 <= tablestart <= |usage| && Skip(usage, tablestart, false) == Skip(usage, t1, false)
      {
        tablestart := tablestart + 1;
      }
      RestartTable();
      more := rowstart != -1;
    }

    /** What the accessors say about the part that is shown. */
    method Current() returns (p: Part)
      requires OnPart()
      ensures p == PartOf(grid, targetLine, col)
    {
      hide RowAt, Off, PieceAt, Cols, MaxUpto, Help;
      ghost var c: nat := col;
      ghost var l := if targetLine < |grid[c]| then targetLine else |grid[c]| - 1;
      SegFacts(Text(), rowstart, grid, c, l);
      PieceText(Text(), rowstart + Off(grid, c, l), grid[c][l]);
      var text := Text();
      assert 0 <= ptr && ptr + len <= |text|;
      assert text[ptr..ptr + len] == PartOf(grid, targetLine, c).text;
      var b := At(text, ptr + len);
      p := Part(col, targetLine, text[ptr..ptr + len], b == TAB || b == VT);
    }

    /** All parts of a row: every line of the grid, cell by cell, then the end. */
    method RestOfRow() returns (parts: seq<Part>)
      requires AtRowStart()
      modifies this`ptr, this`col, this`len, this`screenlen, this`maxLine, this`lineInBlock, this`targetLine, this`hitTarget
      ensures parts == RowParts(grid) && AtRowEnd()
    {
      hide RowAt, OnPart;
      parts := [];
      RowShape(Text(), rowstart, grid);
      var more := Next();
      PartBounds();
      while more
        invariant more ==> OnPart() && 0 <= col < |grid| && targetLine <= MaxLine(grid) && ptr >= 0
        invariant more ==> parts == GridParts(grid, targetLine) + LineOf(grid, targetLine)[..col]
        invariant !more ==> AtRowEnd() && parts == RowParts(grid)
        decreases if more then 1 else 0, MaxLine(grid) - targetLine, |grid| - col
      {
        var p := Current();
        parts := parts + [p];
        PartsStep(grid, targetLine, col);
        ghost var t, c: nat := targetLine, col;
        more := Next();
        PartBounds();
      }
    }

    lemma PartBounds()
      ensures OnPart() ==> 0 <= col < |grid| && targetLine <= MaxLine(grid) && ptr >= 0
    {
    }

    /** Length and screen width of the part at ptr. */
    method UpdateLength()
      requires 0 <= ptr <= |Text()|
      modifies this`len, this`screenlen
      ensures len == PartEnd(Text(), ptr) - ptr
      ensures screenlen == Cols(Text()[ptr..ptr + len])
    {
      hide Cols, CharBytes, CharCols, PartEnd, At;
      var text := Text();
      ghost var e := PartEnd(text, ptr);
      InPart(text, ptr);
      len, screenlen := 0, 0;
      while !IsBreak(At(text, ptr + len))
        invariant ptr + len <= e && text == Text()
        invariant screenlen + Cols(text[ptr + len..e]) == Cols(text[ptr..e])
        decreases e - len
      {
        var q := ptr + len;
        var n, c := Decode(text[q..]);
        ColsStep(text, q, e);
        len, screenlen := len + n, screenlen + c;
      }
      ColsEmpty();
      assert text[e..e] == [];
    }

    /** ptr is in, or at the end of, line l of cell c. */
    ghost predicate InSeg(c: nat, l: nat) reads this {
      && OnRow() && c < |grid| && l < |grid[c]|
      && rowstart + Off(grid, c, l) <= ptr <= rowstart + Off(grid, c, l) + |grid[c][l]|
      && col == c && lineInBlock == l
    }

    /** Between two steps of next(), which was called on line t of cell c and is now in line l of
        cell d. With hitTarget set it is still leaving cell c; otherwise it has turned to the
        following cell, or to the next line of the first one, and has not found that line yet. */
    ghost predicate Seeking(t: nat, c: nat, d: nat, l: nat) reads this {
      && InSeg(d, l) && c < |grid| && t <= MaxLine(grid)
      && if hitTarget then
           && d == c && targetLine == t && (l >= t || l == |grid[c]| - 1)
           && maxLine == (if t > 0 then MaxLine(grid) else if l > MaxUpto(grid, c) then l else MaxUpto(grid, c))
         else
           && maxLine == MaxLine(grid) && l < targetLine <= MaxLine(grid)
           && (d, targetLine) == if c + 1 < |grid| then (c + 1, t) else (0, t + 1)
    }

    /** What a call of next() on line t of cell c comes to. */
    ghost predicate Moved(more: bool, t: nat, c: nat) reads this {
      if c + 1 < |grid| then more && OnPart() && col == c + 1 && targetLine == t
      else if t < MaxLine(grid) then more && OnPart() && col == 0 && targetLine == t + 1
      else !more && AtRowEnd()
    }

    /** Shows the part at ptr. */
    method Show(ghost d: nat, ghost l: nat)
      requires InSeg(d, l) && targetLine <= MaxLine(grid)
      requires maxLine == if targetLine == 0 then MaxUpto(grid, d) else MaxLine(grid)
      requires if l == targetLine then ptr == rowstart + Off(grid, d, l)
               else l < targetLine && l == |grid[d]| - 1 && ptr == rowstart + Off(grid, d, l) + |grid[d][l]|
      modifies this`len, this`screenlen, this`hitTarget
      ensures OnPart()
    {
      hide RowAt, PartEnd, Cols, MaxUpto, Off, IsBreak, Help;
      var text := Text();
      SegFacts(text, rowstart, grid, d, l);
      ghost var seg := if l == targetLine then grid[d][l] else [];
      PieceEnd(text, ptr, seg);
      assert PieceAt(text, ptr, seg);
      UpdateLength();
      hitTarget := true;
    }

    lemma SeekFacts(t: nat, c: nat, d: nat, l: nat)
      requires Seeking(t, c, d, l)
      ensures 0 <= ptr <= |Text()| && d < |grid| && l < |grid[d]|
      ensures
        var b := At(Text(), ptr);
        var e := rowstart + Off(grid, d, l) + |grid[d][l]|;
        && (ptr < e ==> !IsBreak(b) && b != VT && b != TAB && !EndsRow(b))
        && (ptr == e ==> Follows(b, l == |grid[d]| - 1, d == |grid| - 1))
      ensures forall i :: rowstart <= i < ptr ==> !EndsRow(Text()[i])
    {
      SegFacts(Text(), rowstart, grid, d, l);
      SegInside(Text(), rowstart, grid, d, l);
      forall i | rowstart <= i < ptr ensures !EndsRow(Text()[i]) {
        assert !EndsRow(At(Text(), i));
      }
    }

    /** After a break: the line just entered is the one to show, or the search goes on. */
    ghost predicate Entered(t: nat, c: nat, d: nat, l: nat) reads this {
      && (lineInBlock != targetLine ==> Seeking(t, c, d, l))
      && (lineInBlock == targetLine ==>
            && InSeg(d, l) && ptr == rowstart + Off(grid, d, l) && targetLine <= MaxLine(grid)
            && maxLine == (if targetLine == 0 then MaxUpto(grid, d) else MaxLine(grid))
            && (d, targetLine) == if c + 1 < |grid| then (c + 1, t) else (0, t + 1))
    }

    /** case '\v' */
    method StepLine(ghost t: nat, ghost c: nat, ghost d: nat, ghost l: nat)
      requires Seeking(t, c, d, l) && At(Text(), ptr) == VT
      modifies this`ptr, this`maxLine, this`lineInBlock
      ensures ptr == old(ptr) + 1 && l + 1 < |grid[d]| && Entered(t, c, d, l + 1)
    {
      hide RowAt, MaxUpto, Off, PieceAt;
      SeekFacts(t, c, d, l);
      NextSeg(grid, d, l);
      MaxUptoBounds(grid, d, |grid|);
      lineInBlock := lineInBlock + 1;
      if lineInBlock > maxLine { maxLine := lineInBlock; }
      ptr := ptr + 1;
    }

    /** case '\t', when the cell has shown its part */
    method StepCell(ghost t: nat, ghost c: nat, ghost d: nat, ghost l: nat)
      requires Seeking(t, c, d, l) && hitTarget && At(Text(), ptr) == TAB
      modifies this`ptr, this`col, this`lineInBlock, this`hitTarget
      ensures ptr == old(ptr) + 1 && !hitTarget && d + 1 < |grid| && Entered(t, c, d + 1, 0)
    {
      hide RowAt, MaxUpto, Off, PieceAt;
      SeekFacts(t, c, d, l);
      RowShape(Text(), rowstart, grid);
      NextSeg(grid, d, l);
      MaxStep(grid, d);
      hitTarget := false;
      lineInBlock := 0;
      col := col + 1;
      ptr := ptr + 1;
    }

    /** case 0 and '\n', when the cell has shown its part */
    method StepRow(ghost t: nat, ghost c: nat, ghost d: nat, ghost l: nat) returns (more: bool)
      requires Seeking(t, c, d, l) && hitTarget && EndsRow(At(Text(), ptr))
      modifies this`ptr, this`col, this`len, this`screenlen, this`lineInBlock, this`targetLine, this`hitTarget
      ensures if more then !hitTarget && Seeking(t, c, 0, 0) else Moved(more, t, c)
    {
      hide RowAt, MaxUpto, Off, PieceAt;
      SeekFacts(t, c, d, l);
      RowShape(Text(), rowstart, grid);
      NextSeg(grid, 0, 0);
      MaxStep(grid, d);
      targetLine := targetLine + 1;
      if targetLine > maxLine {
        UpdateLength();
        return false;
      }
      hitTarget := false;
      lineInBlock := 0;
      col := 0;
      ptr := rowstart;
      return true;
    }

    /** Any other character. */
    method StepChar(ghost t: nat, ghost c: nat, ghost d: nat, ghost l: nat)
      requires Seeking(t, c, d, l) && !IsBreak(At(Text(), ptr))
      modifies this`ptr
      ensures ptr == old(ptr) + 1 && Seeking(t, c, d, l)
    {
      hide RowAt, Off, PieceAt;
      SeekFacts(t, c, d, l);
      ptr := ptr + 1;
    }

    method ShowEntered(ghost t: nat, ghost c: nat, ghost d: nat, ghost l: nat)
      requires Entered(t, c, d, l) && lineInBlock == targetLine
      modifies this`len, this`screenlen, this`hitTarget
      ensures Moved(true, t, c)
    {
      hide RowAt, Off, PieceAt, MaxUpto, OnPart;
      Show(d, l);
    }

    /** The cell ended before the line to show: a part without text. */
    method ShowMissing(ghost t: nat, ghost c: nat, ghost d: nat, ghost l: nat)
      requires Seeking(t, c, d, l) && !hitTarget && IsBreak(At(Text(), ptr)) && At(Text(), ptr) != VT
      modifies this`len, this`screenlen, this`hitTarget
      ensures Moved(true, t, c)
    {
      hide RowAt, Off, PieceAt, MaxUpto, OnPart;
      SeekFacts(t, c, d, l);
      Show(d, l);
    }

    /** The loop of next(). */
    method Seek(ghost t: nat, ghost c: nat, ghost d0: nat, ghost l0: nat) returns (more: bool)
      requires Seeking(t, c, d0, l0)
      modifies this`ptr, this`col, this`len, this`screenlen, this`maxLine, this`lineInBlock, this`targetLine, this`hitTarget
      ensures Moved(more, t, c)
    {
      hide RowAt, Off, PieceAt, OnPart, At, Moved, InSeg;
      var text := Text();
      ghost var d, l := d0, l0;
      while true
        invariant text == Text() && Seeking(t, c, d, l)
        decreases hitTarget, |text| - ptr
      {
        SeekFacts(t, c, d, l);
        var b := At(text, ptr);
        if b == VT {
          StepLine(t, c, d, l);
          l := l + 1;
        } else if (b == TAB || b == 0 || b == NL) && !hitTarget {
          ShowMissing(t, c, d, l);
          return true;
        } else if b == TAB {
          StepCell(t, c, d, l);
          d, l := d + 1, 0;
        } else if b == 0 || b == NL {
          more := StepRow(t, c, d, l);
          if !more { return; }
          d, l := 0, 0;
          continue;
        } else {
          StepChar(t, c, d, l);
          continue;
        }
        if lineInBlock == targetLine {
          ShowEntered(t, c, d, l);
          return true;
        }
      }
    }

    method Next() returns (more: bool)
      requires ptr == -1 || AtRowStart() || OnPart()
      modifies this`ptr, this`col, this`len, this`screenlen, this`maxLine, this`lineInBlock, this`targetLine, this`hitTarget
      ensures old(ptr) == -1 ==> !more && ptr == -1
      ensures old(ptr) != -1 && old(col) == -1 ==> more && OnPart() && col == 0 && targetLine == 0
      ensures old(ptr) != -1 && old(col) >= 0 ==> Moved(more, old(targetLine), old(col))
    {
      hide RowAt, PartEnd, Cols, MaxUpto, Off, PieceAt, LinesLen, CellsLen;
      if ptr == -1 { return false; }
      var text := Text();
      RowShape(text, rowstart, grid);
      NextSeg(grid, 0, 0);
      MaxStart(grid);
      if col == -1 {
        col := 0;
        Show(0, 0);
        return true;
      }
      ghost var t, c := targetLine, col as nat;
      ghost var d, l := c, lineInBlock;
      SegFacts(text, rowstart, grid, d, l);
      MaxUptoBounds(grid, c, |grid|);
      ptr := ptr + len;
      more := Seek(t, c, d, l);
    }
  }

  lemma MaxStep(g: Grid, c: nat)
    requires c < |g|
    ensures MaxUpto(g, c + 1) == if |g[c]| - 1 > MaxUpto(g, c) then |g[c]| - 1 else MaxUpto(g, c)
  {
  }

  lemma InPart(text: seq<byte>, p: nat)
    requires p <= |text|
    ensures forall i :: p <= i < PartEnd(text, p) ==> !IsBreak(At(text, i))
    ensures IsBreak(At(text, PartEnd(text, p)))
  {
    hide PartEnd;
  }

  lemma MaxStart(g: Grid)
    ensures MaxUpto(g, 0) == 0
  {
  }

  /** Line t of the grid, over all its cells; and its first n lines. */
  function LineOf(g: Grid, t: nat): seq<Part> {
    seq(|g|, c requires 0 <= c < |g| => PartOf(g, t, c))
  }

  function GridParts(g: Grid, n: nat): seq<Part> {
    if n == 0 then [] else GridParts(g, n - 1) + LineOf(g, n - 1)
  }

  function RowParts(g: Grid): seq<Part> { GridParts(g, MaxLine(g) + 1) }

  /** A row with C cells, none with more than M breaks and one with M, has C * (M + 1) parts. */
  lemma RowPartsCount(g: Grid)
    ensures |RowParts(g)| == |g| * (MaxLine(g) + 1)
  {
    GridPartsCount(g, MaxLine(g) + 1);
  }

  lemma {:induction false} GridPartsCount(g: Grid, n: nat)
    ensures |GridParts(g, n)| == n * |g|
  {
    if n > 0 {
      GridPartsCount(g, n - 1);
      assert n * |g| == (n - 1) * |g| + |g|;
    }
  }

  /** Part t * C + c of a row is line t of cell c. */
  lemma {:induction false} GridPartAt(g: Grid, n: nat, t: nat, c: nat)
    requires t < n && c < |g|
    ensures 0 <= t * |g| + c < |GridParts(g, n)|
    ensures GridParts(g, n)[t * |g| + c] == PartOf(g, t, c)
  {
    GridPartsCount(g, n - 1);
    GridPartsCount(g, n);
    if t == n - 1 {
      assert t * |g| + c == |GridParts(g, n - 1)| + c;
    } else {
      GridPartAt(g, n - 1, t, c);
    }
  }

  lemma PartsStep(g: Grid, t: nat, c: nat)
    requires c < |g|
    ensures
      var done := GridParts(g, t) + LineOf(g, t)[..c] + [PartOf(g, t, c)];
      && (c + 1 < |g| ==> done == GridParts(g, t) + LineOf(g, t)[..c + 1])
      && (c + 1 == |g| ==> done == GridParts(g, t + 1) + LineOf(g, t + 1)[..0])
      && (c + 1 == |g| && t == MaxLine(g) ==> done == RowParts(g))
    ensures GridParts(g, 0) + LineOf(g, 0)[..0] == []
  {
    assert LineOf(g, t)[..c] + [PartOf(g, t, c)] == LineOf(g, t)[..c + 1];
    assert LineOf(g, t)[..|g|] == LineOf(g, t);
  }

  lemma PieceText(h: seq<byte>, p: nat, seg: seq<byte>)
    requires PieceAt(h, p, seg)
    ensures p + |seg| <= |h| && h[p..p + |seg|] == seg
  {
  }

  /** Where the row that starts at p ends. */
  function RowEnd(h: seq<byte>, p: nat): (e: nat)
    requires p <= |h|
    ensures p <= e <= |h| && EndsRow(At(h, e)) && forall i :: p <= i < e ==> !EndsRow(h[i])
    decreases |h| - p
  {
    if EndsRow(At(h, p)) then p else RowEnd(h, p + 1)
  }

  /** The start of the row after the one that starts at rs: behind its newline, or at the front of
      the next help text; a descriptor without help text ends the table. */
  function NextPos(usage: seq<Maybe<seq<byte>>>, d: int, rs: int): (r: Maybe<(nat, nat)>)
    requires 0 <= d < |usage| && usage[d].Just? && 0 <= rs <= |usage[d].value|
  {
    var e := RowEnd(usage[d].value, rs);
    if At(usage[d].value, e) != 0 then Just((d, e + 1))
    else if d + 1 < |usage| && usage[d + 1].Just? then Just((d + 1, 0)) else Nothing
  }

  /** The first index at or after d whose entry has no help text, or has one. */
  function Skip(usage: seq<Maybe<seq<byte>>>, d: nat, texts: bool): (e: nat)
    requires d <= |usage|
    ensures d <= e <= |usage| && (e < |usage| ==> usage[e].Just? != texts)
    ensures forall i :: d <= i < e ==> usage[i].Just? == texts
    decreases |usage| - d
  {
    if d == |usage| || usage[d].Just? != texts then d else Skip(usage, d + 1, texts)
  }

  // ---------- which rows a table has ----------

  /** The lines of a text, which end at its newlines. */
  function Lines(h: seq<byte>): (ls: seq<seq<byte>>)
    ensures ls != []
  {
    if h == [] then [[]]
    else
      var ls := Lines(h[1..]);
      if h[0] == 10 then [[]] + ls else [[h[0]] + ls[0]] + ls[1..]
  }

  function Unlines(ls: seq<seq<byte>>): seq<byte>
    requires ls != []
  {
    if |ls| == 1 then ls[0] else ls[0] + [10] + Unlines(ls[1..])
  }

  /** No line contains a newline, and with newlines between them they are the text. */
  lemma {:induction false} LinesRejoin(h: seq<byte>)
    ensures Unlines(Lines(h)) == h && forall l :: l in Lines(h) ==> NL !in l
  {
    if h != [] {
      var ls := Lines(h[1..]);
      LinesRejoin(h[1..]);
      assert h == [h[0]] + h[1..];
      if h[0] == 10 { EmptyFirst(ls); } else { LongerFirst(h[0], ls); }
    }
  }

  lemma EmptyFirst(ls: seq<seq<byte>>)
    requires ls != []
    ensures Unlines([[]] + ls) == [10] + Unlines(ls)
  {
    assert ([[]] + ls)[1..] == ls && [] + [10] == [10];
  }

  lemma LongerFirst(b: byte, ls: seq<seq<byte>>)
    requires ls != [] && b != 10 && forall l :: l in ls ==> NL !in l
    ensures var ms := [[b] + ls[0]] + ls[1..];
      Unlines(ms) == [b] + Unlines(ls) && forall l :: l in ms ==> NL !in l
  {
    var ms := [[b] + ls[0]] + ls[1..];
    assert ms[1..] == ls[1..];
    assert ls[0] in ls && forall l :: l in ls[1..] ==> l in ls;
  }

  /** The first line ends where the first row does. */
  lemma {:induction false} FirstLine(h: seq<byte>, e: nat)
    requires e <= |h| && 10 !in h[..e] && (e < |h| ==> h[e] == 10)
    ensures Lines(h) == if e < |h| then [h[..e]] + Lines(h[e + 1..]) else [h]
  {
    if e > 0 {
      assert h[..e] == [h[0]] + h[1..][..e - 1];
      FirstLine(h[1..], e - 1);
      if e < |h| {
        var rest := Lines(h[e + 1..]);
        assert h[1..][e..] == h[e + 1..];
        assert ([h[1..][..e - 1]] + rest)[1..] == rest;
      } else {
        assert [h[1..]][1..] == [] && h == [h[0]] + h[1..];
      }
    } else if h != [] {
      assert h[..0] == [];
    }
  }

  /** The parts of all rows of a help text. */
  function LinesParts(ls: seq<seq<byte>>): seq<Part> {
    if ls == [] then [] else RowParts(ParseRow(ls[0], 0)) + LinesParts(ls[1..])
  }

  lemma LinesPartsCons(l: seq<byte>, ls: seq<seq<byte>>)
    ensures LinesParts([l] + ls) == RowParts(ParseRow(l, 0)) + LinesParts(ls)
  {
    hide RowParts, ParseRow;
    assert ([l] + ls)[1..] == ls;
  }

  /** All parts of the help texts from entry d up to the first one without a help text. */
  function HelpsParts(usage: seq<Maybe<seq<byte>>>, d: nat): seq<Part>
    decreases |usage| - d
  {
    if d < |usage| && usage[d].Just? then LinesParts(Lines(usage[d].value)) + HelpsParts(usage, d + 1) else []
  }

  /** The stretch from rs to e is a row of h. */
  predicate IsRow(h: seq<byte>, rs: nat, e: nat) {
    rs <= e <= |h| && EndsRow(At(h, e)) && forall i :: rs <= i < e ==> !EndsRow(h[i])
  }

  /** A row is parsed like a text of its own. */
  lemma {:induction false} PartLocal(h: seq<byte>, rs: nat, e: nat, p: nat)
    requires IsRow(h, rs, e) && rs <= p <= e
    ensures PartEnd(h, p) <= e && PartEnd(h[rs..e], p - rs) == PartEnd(h, p) - rs
    decreases e - p
  {
    if p < e { PartLocal(h, rs, e, p + 1); }
  }

  lemma RowBounds(h: seq<byte>, rs: nat, e: nat)
    requires IsRow(h, rs, e)
    ensures e <= |h|
  {
  }

  lemma SliceOf(h: seq<byte>, rs: nat, e: nat, p: nat, q: nat)
    requires rs <= p <= q <= e <= |h|
    ensures h[rs..e][p - rs..q - rs] == h[p..q]
  {
    var s := h[rs..e];
    forall k | 0 <= k < q - p ensures s[p - rs..q - rs][k] == h[p..q][k] {
      assert s[p - rs + k] == h[p + k];
    }
  }

  lemma AtLocal(h: seq<byte>, rs: nat, e: nat, q: nat)
    requires IsRow(h, rs, e) && rs <= q <= e
    ensures At(h[rs..e], q - rs) == VT <==> At(h, q) == VT
    ensures At(h[rs..e], q - rs) == TAB <==> At(h, q) == TAB
    ensures At(h, q) == VT || At(h, q) == TAB ==> q < e
  {
  }

  lemma {:induction false} CellLocal(h: seq<byte>, rs: nat, e: nat, p: nat)
    requires IsRow(h, rs, e) && rs <= p <= e
    ensures CellEnd(h, p) <= e && CellEnd(h[rs..e], p - rs) == CellEnd(h, p) - rs
    ensures ParseCell(h[rs..e], p - rs) == ParseCell(h, p)
    decreases e - p
  {
    hide PartEnd, At, IsRow;
    PartLocal(h, rs, e, p);
    var q := PartEnd(h, p);
    RowBounds(h, rs, e);
    AtLocal(h, rs, e, q);
    SliceOf(h, rs, e, p, q);
    if At(h, q) == VT { CellLocal(h, rs, e, q + 1); }
  }

  lemma {:induction false} RowLocal(h: seq<byte>, rs: nat, e: nat, p: nat)
    requires IsRow(h, rs, e) && rs <= p <= e
    ensures ParseRow(h[rs..e], p - rs) == ParseRow(h, p)
    decreases e - p
  {
    hide CellEnd, ParseCell, At, IsRow;
    CellLocal(h, rs, e, p);
    RowBounds(h, rs, e);
    AtLocal(h, rs, e, CellEnd(h, p));
    if At(h, CellEnd(h, p)) == TAB { RowLocal(h, rs, e, CellEnd(h, p) + 1); }
  }

  /** Whether a tab or vertical tab follows the part in the text. */
  lemma PartJoined(h: seq<byte>, rs: nat, g: Grid, t: nat, c: nat)
    requires RowAt(h, rs, g) && c < |g|
    ensures g[c] != []
    ensures var p := PartOf(g, t, c); p.joined <==> At(h, rs + PartOff(g, t, c) + |p.text|) in {9, 11}
  {
    hide Off;
    var l := if t < |g[c]| then t else |g[c]| - 1;
    SegFacts(h, rs, g, c, l);
  }

  lemma {:induction false} RowEndIs(h: seq<byte>, p: nat, e: nat)
    requires p <= e <= |h| && EndsRow(At(h, e)) && forall i :: p <= i < e ==> !EndsRow(h[i])
    ensures RowEnd(h, p) == e
    decreases e - p
  {
  }

  lemma ColsEmpty()
    ensures Cols([]) == 0
  {
  }

  /** The next character of a part lies within it. */
  lemma ColsStep(h: seq<byte>, q: nat, e: nat)
    requires q < e <= |h| && forall i :: q <= i < e ==> !IsBreak(h[i])
    requires IsBreak(At(h, e))
    ensures CharBytes(h[q..]) <= e - q
    ensures Cols(h[q..e]) == CharCols(h[q..]) + Cols(h[q + CharBytes(h[q..])..e])
  {
    hide CharBytes, CharCols;
    var s := h[q..];
    CharTail(s);
    assert e < |h| ==> s[e - q] == h[e];
    assert s[..e - q] == h[q..e];
    FirstCharCut(s, e - q);
    assert h[q..e][CharBytes(s)..] == h[q + CharBytes(s)..e];
  }

  lemma {:induction false} PieceEnd(h: seq<byte>, p: nat, seg: seq<byte>)
    requires PieceAt(h, p, seg) && IsBreak(At(h, p + |seg|))
    ensures PartEnd(h, p) == p + |seg|
    decreases |seg|
  {
  }

  /** Nothing in front of a part of the row ends the row. */
  lemma {:induction false} SegInside(h: seq<byte>, rs: nat, g: Grid, c: nat, l: nat)
    requires RowAt(h, rs, g) && c < |g| && l < |g[c]|
    ensures forall i :: rs <= i < rs + Off(g, c, l) + |g[c][l]| ==> !EndsRow(At(h, i))
    decreases c, l
  {
    SegFacts(h, rs, g, c, l);
    if l > 0 {
      SegInside(h, rs, g, c, l - 1);
      SegFacts(h, rs, g, c, l - 1);
      NextSeg(g, c, l - 1);
    } else if c > 0 {
      var k := |g[c - 1]| - 1;
      SegInside(h, rs, g, c - 1, k);
      SegFacts(h, rs, g, c - 1, k);
      NextSeg(g, c - 1, k);
    }
  }
}
