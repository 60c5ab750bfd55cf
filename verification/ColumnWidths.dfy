/** The column widths of a usage table: the do-while loop of printUsage in
    src/C++/optionparser.h, which leaves out ever shorter parts until the columns fit. */
module ColumnWidths {
  import opened Arguments
  import opened Glyphs
  import opened UsageGrid
  import opened LineParts

  const MAXCOLUMNS := 8
  const NO_LIMIT := 10000

  /** All parts of the table whose next row starts at rs in the help of entry d. */
  ghost function TableParts(usage: seq<Maybe<seq<byte>>>, d: nat, rs: nat): seq<Part>
    requires d < |usage| && usage[d].Just? && rs <= |usage[d].value|
    decreases |usage| - d, |usage[d].value| - rs
  {
    RowParts(ParseRow(usage[d].value, rs)) +
    match NextPos(usage, d, rs)
    case Just((d', rs')) => TableParts(usage, d', rs')
    case Nothing => []
  }

  ghost predicate CStrings(usage: seq<Maybe<seq<byte>>>) {
    forall i :: 0 <= i < |usage| && usage[i].Just? ==> 0 !in usage[i].value
  }

  /** A table has all rows of all its help texts: of every descriptor from the first one up to the next
      one without help text, every line, in order. */
  lemma TableRows(usage: seq<Maybe<seq<byte>>>, d: nat)
    requires d < |usage| && usage[d].Just? && CStrings(usage)
    ensures TableParts(usage, d, 0) == HelpsParts(usage, d)
  {
    hide RowParts, ParseRow, RowEnd, Lines, LinesParts;
    RowsFrom(usage, d, 0);
    assert usage[d].value[0..] == usage[d].value;
  }

  lemma {:induction false} RowsFrom(usage: seq<Maybe<seq<byte>>>, d: nat, rs: nat)
    requires d < |usage| && usage[d].Just? && rs <= |usage[d].value| && CStrings(usage)
    ensures TableParts(usage, d, rs) == LinesParts(Lines(usage[d].value[rs..])) + HelpsParts(usage, d + 1)
    decreases |usage| - d, |usage[d].value| - rs
  {
    hide RowParts, ParseRow, RowEnd, Lines, LinesParts, NextPos;
    var h := usage[d].value;
    var e := RowEnd(h, rs);
    RowOfLine(h, rs, e);
    NextIs(usage, d, rs, e);
    if e < |h| {
      RowsFrom(usage, d, e + 1);
    } else if d + 1 < |usage| && usage[d + 1].Just? {
      RowsFrom(usage, d + 1, 0);
      assert usage[d + 1].value[0..] == usage[d + 1].value;
    }
  }

  /** The row at rs is the first line of what stands there. */
  lemma RowOfLine(h: seq<byte>, rs: nat, e: nat)
    requires IsRow(h, rs, e) && 0 !in h
    ensures LinesParts(Lines(h[rs..])) ==
      RowParts(ParseRow(h, rs)) + if e < |h| then LinesParts(Lines(h[e + 1..])) else []
  {
    hide RowParts, ParseRow, Lines, LinesParts;
    RowLocal(h, rs, e, rs);
    assert h[rs..][..e - rs] == h[rs..e];
    FirstLine(h[rs..], e - rs);
    if e < |h| {
      assert h[rs..][e - rs + 1..] == h[e + 1..];
      LinesPartsCons(h[rs..e], Lines(h[e + 1..]));
    } else {
      assert h[rs..] == h[rs..e] && [h[rs..]] + [] == [h[rs..]];
      LinesPartsCons(h[rs..e], []);
      NoLines();
    }
  }

  lemma NoLines()
    ensures LinesParts([]) == []
  {
  }

  lemma NextIs(usage: seq<Maybe<seq<byte>>>, d: nat, rs: nat, e: nat)
    requires d < |usage| && usage[d].Just? && rs <= |usage[d].value| && CStrings(usage)
    requires e == RowEnd(usage[d].value, rs)
    ensures IsRow(usage[d].value, rs, e)
    ensures NextPos(usage, d, rs) ==
      if e < |usage[d].value| then Just((d, e + 1))
      else if d + 1 < |usage| && usage[d + 1].Just? then Just((d + 1, 0)) else Nothing
  {
    hide RowEnd;
  }

  /** Whether a part has a say in the width of its column when parts of th columns or more are
      ignored. A part of column 0 on a line of its own, without tabs, has none. */
  predicate Counts(p: Part, th: nat) {
    p.column < MAXCOLUMNS && Cols(p.text) < th && (p.column > 0 || p.line > 0 || p.joined)
  }

  /** In the first eight columns, narrower than the limit, and not alone on a row without tabs. */
  lemma CountsIf(p: Part, th: nat)
    ensures Counts(p, th) <==> p.column < 8 && Cols(p.text) < th && !(p.column == 0 && p.line == 0 && !p.joined)
  {
  }

  function Max(a: nat, b: nat): nat { if a >= b then a else b }

  /** The greatest width in column i. */
  function Width(ps: seq<Part>, th: nat, i: nat): (w: nat)
    ensures w == 0 || w < th
  {
    if ps == [] then 0
    else
      var n := |ps| - 1;
      var w := Width(ps[..n], th, i);
      if ps[n].column == i && Counts(ps[n], th) then Max(w, Cols(ps[n].text)) else w
  }

  /** It is the maximum over the counted parts. */
  lemma {:induction false} WidthIsMaximum(ps: seq<Part>, th: nat, i: nat)
    ensures forall j :: 0 <= j < |ps| && ps[j].column == i && Counts(ps[j], th) ==> Cols(ps[j].text) <= Width(ps, th, i)
    ensures Width(ps, th, i) == 0 ||
      exists j :: 0 <= j < |ps| && ps[j].column == i && Counts(ps[j], th) && Width(ps, th, i) == Cols(ps[j].text)
  {
    hide Cols;
    if ps != [] { WidthIsMaximum(ps[..|ps| - 1], th, i); }
  }

  function LastColumn(ps: seq<Part>): (c: nat)
    ensures c < MAXCOLUMNS
  {
    if ps == [] then 0
    else
      var n := |ps| - 1;
      if ps[n].column < MAXCOLUMNS then Max(LastColumn(ps[..n]), ps[n].column) else LastColumn(ps[..n])
  }

  /** The greatest column among the first eight; 0 if there is none. */
  lemma {:induction false} LastColumnIsMaximum(ps: seq<Part>)
    ensures forall j :: 0 <= j < |ps| && ps[j].column < 8 ==> ps[j].column <= LastColumn(ps)
    ensures LastColumn(ps) == 0 || exists j :: 0 <= j < |ps| && ps[j].column == LastColumn(ps)
  {
    if ps != [] { LastColumnIsMaximum(ps[..|ps| - 1]); }
  }

  function Total(widths: seq<nat>): nat {
    if widths == [] then 0 else Total(widths[..|widths| - 1]) + widths[|widths| - 1]
  }

  lemma {:induction false} SumIsTotal(ps: seq<Part>, th: nat, widths: seq<nat>, n: nat)
    requires n <= |widths| && forall i :: 0 <= i < n ==> widths[i] == Width(ps, th, i)
    ensures Sum(ps, th, n) == Total(widths[..n])
  {
    hide Width;
    if n > 0 {
      SumIsTotal(ps, th, widths, n - 1);
      assert widths[..n][..n - 1] == widths[..n - 1];
    }
  }

  /** Sum and maximum of the widths of the first n columns. */
  function Sum(ps: seq<Part>, th: nat, n: nat): nat {
    if n == 0 then 0 else Sum(ps, th, n - 1) + Width(ps, th, n - 1)
  }

  function Widest(ps: seq<Part>, th: nat, n: nat): nat {
    if n == 0 then 0 else Max(Widest(ps, th, n - 1), Width(ps, th, n - 1))
  }

  lemma WidthAppend(ps: seq<Part>, p: Part, th: nat, i: nat)
    ensures Width(ps + [p], th, i) ==
            if p.column == i && Counts(p, th) then Max(Width(ps, th, i), Cols(p.text)) else Width(ps, th, i)
    ensures LastColumn(ps + [p]) ==
            if p.column < MAXCOLUMNS then Max(LastColumn(ps), p.column) else LastColumn(ps)
  {
  }

  /** Columns counted below th are narrower than th, and the widest of them decides the rest. */
  lemma {:induction false} WidestBounds(ps: seq<Part>, th: nat, n: nat)
    ensures Widest(ps, th, n) < th || Widest(ps, th, n) == 0
    ensures forall i :: 0 <= i < n ==> Width(ps, th, i) <= Widest(ps, th, n)
    ensures Sum(ps, th, n) > 0 ==> Widest(ps, th, n) > 0
  {
    if n > 0 { WidestBounds(ps, th, n - 1); }
  }

  /** Lowering the threshold changes nothing until it reaches the widest counted part. */
  lemma {:induction false} WidthSame(ps: seq<Part>, th: nat, lower: nat, i: nat)
    requires Width(ps, th, i) < lower <= th
    ensures Width(ps, lower, i) == Width(ps, th, i)
  {
    hide Cols;
    if ps != [] {
      WidthSame(ps[..|ps| - 1], th, lower, i);
    }
  }

  lemma {:induction false} SumSame(ps: seq<Part>, th: nat, n: nat, lower: nat, m: nat)
    requires n <= m && Widest(ps, th, m) < lower <= th
    ensures Sum(ps, lower, n) == Sum(ps, th, n)
  {
    hide Width, Counts;
    if n > 0 {
      SumSame(ps, th, n - 1, lower, m);
      WidestBounds(ps, th, m);
      WidthSame(ps, th, lower, n - 1);
    }
  }

  /** One row: every part is looked at once. */
  method MeasureRow(it: LinePartIterator, th: nat, colWidth: array<nat>, last: nat, ghost done: seq<Part>) returns (last': nat)
    requires it.AtRowStart() && colWidth.Length == MAXCOLUMNS
    requires last == LastColumn(done) && forall i :: 0 <= i < MAXCOLUMNS ==> colWidth[i] == Width(done, th, i)
    modifies it`ptr, it`col, it`len, it`screenlen, it`maxLine, it`lineInBlock, it`targetLine, it`hitTarget, colWidth
    ensures it.AtRowEnd()
    ensures last' == LastColumn(done + RowParts(it.grid))
    ensures forall i :: 0 <= i < MAXCOLUMNS ==> colWidth[i] == Width(done + RowParts(it.grid), th, i)
  {
    hide Cols, Width, LastColumn, LinePartIterator.OnPart, RowAt;
    last' := last;
    ghost var g := it.grid;
    ghost var seen: seq<Part> := [];
    var more := it.Next();
    it.PartBounds();
    PartsStep(g, 0, 0);
    assert done + [] == done;
    while more
      invariant it.grid == g && last' == LastColumn(done + seen)
      invariant forall i :: 0 <= i < MAXCOLUMNS ==> colWidth[i] == Width(done + seen, th, i)
      invariant more ==> it.OnPart() && 0 <= it.col < |g| && it.targetLine <= MaxLine(g) && it.ptr >= 0
      invariant more ==> seen == GridParts(g, it.targetLine) + LineOf(g, it.targetLine)[..it.col]
      invariant !more ==> it.AtRowEnd() && seen == RowParts(g)
      decreases if more then 1 else 0, MaxLine(g) - it.targetLine, |g| - it.col
    {
      var p := it.Current();
      PartsStep(g, it.targetLine, it.col);
      last' := MeasurePart(it, p, th, colWidth, last', done + seen);
      seen := seen + [p];
      assert done + seen == done + seen[..|seen| - 1] + [p];
      more := it.Next();
      it.PartBounds();
    }
  }

  /** One part. */
  method MeasurePart(it: LinePartIterator, p: Part, th: nat, colWidth: array<nat>, last: nat, ghost done: seq<Part>)
    returns (last': nat)
    requires it.OnPart() && p == PartOf(it.grid, it.targetLine, it.col) && colWidth.Length == MAXCOLUMNS
    requires last == LastColumn(done) && forall i :: 0 <= i < MAXCOLUMNS ==> colWidth[i] == Width(done, th, i)
    modifies colWidth
    ensures last' == LastColumn(done + [p])
    ensures forall i :: 0 <= i < MAXCOLUMNS ==> colWidth[i] == Width(done + [p], th, i)
  {
    hide Cols, Width, LastColumn, RowAt, PartOff;
    forall i: nat ensures Width(done + [p], th, i) ==
      if p.column == i && Counts(p, th) then Max(Width(done, th, i), Cols(p.text)) else Width(done, th, i)
    {
      WidthAppend(done, p, th, i);
    }
    WidthAppend(done, p, th, 0);
    last' := last;
    if p.column < MAXCOLUMNS {
      last' := Max(last', p.column);
      if it.screenlen < th {
        if p.column > 0 || p.line > 0 || p.joined {
          colWidth[p.column] := Max(colWidth[p.column], it.screenlen);
        }
      }
    }
  }

  method Clear(colWidth: array<nat>)
    requires colWidth.Length == MAXCOLUMNS
    modifies colWidth
    ensures forall i :: 0 <= i < MAXCOLUMNS ==> colWidth[i] == 0
  {
    for i := 0 to MAXCOLUMNS
      invariant forall j :: 0 <= j < i ==> colWidth[j] == 0
    {
      colWidth[i] := 0;
    }
  }

  /** One pass over the table. */
  method MeasureTable(it: LinePartIterator, th: nat, colWidth: array<nat>) returns (last: nat)
    requires it.tablestart < |it.usage| && it.Help(it.tablestart).Just? && colWidth.Length == MAXCOLUMNS
    modifies it`rowdesc, it`rowstart, it`ptr, it`col, it`len, it`screenlen, it`maxLine, it`lineInBlock, it`targetLine, it`hitTarget, it`grid, colWidth
    ensures var ps := TableParts(it.usage, it.tablestart, 0);
      last == LastColumn(ps) && forall i :: 0 <= i < MAXCOLUMNS ==> colWidth[i] == Width(ps, th, i)
  {
    hide Cols, Width, LastColumn, RowParts, ParseRow, RowAt, TableParts, IsBreak, RowEnd;
    last := 0;
    Clear(colWidth);
    ghost var ps := TableParts(it.usage, it.tablestart, 0);
    ghost var done: seq<Part> := [];
    NoParts(th);
    it.RestartTable();
    var more := it.NextRow();
    while more
      invariant last == LastColumn(done) && forall i :: 0 <= i < MAXCOLUMNS ==> colWidth[i] == Width(done, th, i)
      invariant more ==> it.AtRowStart() && 0 <= it.rowdesc && it.grid == ParseRow(it.Text(), it.rowstart)
      invariant more ==> ps == done + TableParts(it.usage, it.rowdesc, it.rowstart)
      invariant !more ==> ps == done
      decreases more, |it.usage| - it.rowdesc, |it.Text()| - it.rowstart
    {
      TableUnfold(it.usage, it.rowdesc, it.rowstart);
      last := MeasureRow(it, th, colWidth, last, done);
      ghost var parts := RowParts(it.grid);
      ghost var rest := match NextPos(it.usage, it.rowdesc, it.rowstart)
        case Just((d, rs)) => TableParts(it.usage, d, rs)
        case Nothing => [];
      assert done + (parts + rest) == done + parts + rest;
      done := done + parts;
      assert done + [] == done;
      more := it.NextRow();
    }
  }

  lemma NoParts(th: nat)
    ensures LastColumn([]) == 0 && forall i :: Width([], th, i) == 0
  {
  }

  lemma TableUnfold(usage: seq<Maybe<seq<byte>>>, d: nat, rs: nat)
    requires d < |usage| && usage[d].Just? && rs <= |usage[d].value|
    ensures TableParts(usage, d, rs) ==
      RowParts(ParseRow(usage[d].value, rs)) +
      match NextPos(usage, d, rs)
      case Just((d', rs')) => TableParts(usage, d', rs')
      case Nothing => []
  {
  }

  /** The loop over the threshold. It ends, the columns left of the last one then fit into the
      width, and no greater threshold would have made them fit: as little as possible is ignored. */
  method ChooseWidths(it: LinePartIterator, width: nat) returns (colWidth: array<nat>, last: nat, leftwidth: nat, ghost th: nat)
    requires it.tablestart < |it.usage| && it.Help(it.tablestart).Just? && width >= 1
    modifies it`rowdesc, it`rowstart, it`ptr, it`col, it`len, it`screenlen, it`maxLine, it`lineInBlock, it`targetLine, it`hitTarget, it`grid
    ensures colWidth.Length == MAXCOLUMNS && last < MAXCOLUMNS && th <= 10000
    ensures
      var ps := TableParts(it.usage, it.tablestart, 0);
      && last == LastColumn(ps)
      && (forall i :: 0 <= i < MAXCOLUMNS ==> colWidth[i] == Width(ps, th, i))
      && leftwidth == Sum(ps, th, last) == Total(colWidth[..last]) <= width
      && (forall t :: th < t <= 10000 ==> Sum(ps, t, last) > width)
  {
    hide Width, LastColumn, TableParts;
    ghost var ps := TableParts(it.usage, it.tablestart, 0);
    colWidth := new nat[MAXCOLUMNS];
    var threshold := NO_LIMIT;
    th := NO_LIMIT;
    last := MeasureTable(it, threshold, colWidth);
    leftwidth, threshold := AddUp(colWidth, last, ps, th);
    while leftwidth > width
      invariant th <= NO_LIMIT && last == LastColumn(ps)
      invariant forall i :: 0 <= i < MAXCOLUMNS ==> colWidth[i] == Width(ps, th, i)
      invariant leftwidth == Sum(ps, th, last) && threshold == Widest(ps, th, last)
      invariant forall t :: th < t <= NO_LIMIT ==> Sum(ps, t, last) > width
      invariant fresh(colWidth)
      decreases th
    {
      WidestBounds(ps, th, last);
      forall t | threshold < t <= th ensures Sum(ps, t, last) > width {
        SumSame(ps, th, last, t, last);
      }
      th := threshold;
      last := MeasureTable(it, threshold, colWidth);
      leftwidth, threshold := AddUp(colWidth, last, ps, th);
    }
    SumIsTotal(ps, th, colWidth[..], last);
    assert colWidth[..][..last] == colWidth[..last];
  }

  method AddUp(colWidth: array<nat>, last: nat, ghost ps: seq<Part>, ghost th: nat) returns (leftwidth: nat, widest: nat)
    requires colWidth.Length == MAXCOLUMNS && last < MAXCOLUMNS
    requires forall i :: 0 <= i < MAXCOLUMNS ==> colWidth[i] == Width(ps, th, i)
    ensures leftwidth == Sum(ps, th, last) && widest == Widest(ps, th, last)
  {
    leftwidth, widest := 0, 0;
    for i := 0 to last
      invariant leftwidth == Sum(ps, th, i) && widest == Widest(ps, th, i)
    {
      leftwidth := leftwidth + colWidth[i];
      widest := Max(widest, colWidth[i]);
    }
  }
}
