/** LineWrapper of src/C++/optionparser.h: a ring of 16 slots that holds wrapped lines until the
    next row of the screen is written. It behaves as an unbounded queue of lines. */
module LineWrapping {
  import opened Glyphs
  import opened Wrapping

  /** What is sent to the writer: a line of text, a line break, an indentation. */
  datatype Event = Text(s: seq<byte>) | NewLine | Indent(x: int)

  const SLOTS := 16
  const CAPACITY := 15

  function Texts(ls: seq<Line>): (ts: seq<seq<byte>>)
    ensures |ts| == |ls| && forall i :: 0 <= i < |ls| ==> ts[i] == ls[i].text
  {
    seq(|ls|, i requires 0 <= i < |ls| => ls[i].text)
  }

  /** The first line as it is, the following ones on new rows. */
  function Rows(ts: seq<seq<byte>>, x: int): seq<Event> {
    if ts == [] then []
    else if |ts| == 1 then [Text(ts[0])]
    else Rows(ts[..|ts| - 1], x) + [NewLine, Indent(x), Text(ts[|ts| - 1])]
  }

  lemma RowsAppend(ts: seq<seq<byte>>, t: seq<byte>, x: int)
    ensures Rows(ts + [t], x) ==
            Rows(ts, x) + (if ts == [] then [] else [NewLine, Indent(x)]) + [Text(t)]
  {
    assert (ts + [t])[..|ts|] == ts;
  }

  /** Event by event: the lines in order, a line break and an indentation between two of them. */
  lemma {:induction false} RowsLayout(ts: seq<seq<byte>>, x: int)
    requires ts != []
    ensures |Rows(ts, x)| == 3 * |ts| - 2
    ensures forall i :: 0 <= i < |ts| ==> Rows(ts, x)[3 * i] == Text(ts[i])
    ensures forall i :: 0 <= i < |ts| - 1 ==> Rows(ts, x)[3 * i + 1] == NewLine && Rows(ts, x)[3 * i + 2] == Indent(x)
  {
    var n := |ts| - 1;
    if n > 0 {
      var before := Rows(ts[..n], x);
      RowsLayout(ts[..n], x);
      assert Rows(ts, x) == before + [NewLine, Indent(x), Text(ts[n])];
      assert |before| == 3 * n - 2;
      forall i | 0 <= i <= n ensures Rows(ts, x)[3 * i] == Text(ts[i]) {
        assert i < n ==> Rows(ts, x)[3 * i] == before[3 * i];
      }
      forall i | 0 <= i < n ensures Rows(ts, x)[3 * i + 1] == NewLine && Rows(ts, x)[3 * i + 2] == Indent(x) {
        assert i < n - 1 ==> Rows(ts, x)[3 * i + 1] == before[3 * i + 1] && Rows(ts, x)[3 * i + 2] == before[3 * i + 2];
      }
    }
  }

  lemma Ends(t: seq<byte>, x: int, width: nat)
    requires width >= 2
    ensures Rows([], x) == [] && Rows([t], x) == [Text(t)] && Texts(Wrap([], width)) == []
  {
  }

  lemma TextsCons(l: Line, ls: seq<Line>)
    ensures Texts([l] + ls) == [l.text] + Texts(ls)
  {
  }

  lemma WrapFirst(d: seq<byte>, width: nat)
    requires width >= 2 && d != []
    ensures
      var (n, space) := Cut(d, width);
      Texts(Wrap(d, width)) == [d[..n]] + Texts(Wrap(d[n + if space then 1 else 0..], width))
  {
    hide Cut, Texts;
    var (n, space) := Cut(d, width);
    TextsCons(Line(d[..n], space), Wrap(d[n + if space then 1 else 0..], width));
  }

  /** The text that a list of events shows, in order. */
  function Shown(es: seq<Event>): seq<seq<byte>> {
    if es == [] then []
    else
      var n := |es| - 1;
      Shown(es[..n]) + if es[n].Text? then [es[n].s] else []
  }

  lemma {:induction false} ShownConcat(a: seq<Event>, b: seq<Event>)
    ensures Shown(a + b) == Shown(a) + Shown(b)
  {
    if b == [] {
      assert a + b == a;
    } else {
      assert (a + b)[..|a + b| - 1] == a + b[..|b| - 1];
      ShownConcat(a, b[..|b| - 1]);
    }
  }

  lemma ShownOne(e: Event)
    ensures Shown([e]) == if e.Text? then [e.s] else []
  {
  }

  lemma ShownRow(t: seq<byte>, x: int)
    ensures Shown([NewLine, Indent(x), Text(t)]) == [t]
  {
    hide Shown;
    assert [NewLine, Indent(x), Text(t)] == [NewLine] + [Indent(x)] + [Text(t)];
    ShownConcat([NewLine] + [Indent(x)], [Text(t)]);
    ShownConcat([NewLine], [Indent(x)]);
    ShownOne(NewLine);
    ShownOne(Indent(x));
    ShownOne(Text(t));
  }

  lemma {:induction false} ShownRows(ts: seq<seq<byte>>, x: int)
    ensures Shown(Rows(ts, x)) == ts
  {
    if |ts| == 1 {
      ShownOne(Text(ts[0]));
    } else if ts != [] {
      hide Shown;
      var n := |ts| - 1;
      ShownRows(ts[..n], x);
      ShownConcat(Rows(ts[..n], x), [NewLine, Indent(x), Text(ts[n])]);
      ShownRow(ts[n], x);
    }
  }

  /** How many lines one call writes when `total` lines are then waiting: as many as do not fit
      into the ring, but at least one if there is any. */
  function Due(total: nat): nat {
    if total > CAPACITY then total - CAPACITY else if total > 0 then 1 else 0
  }

  /** Of the lines, those in left are still waiting, and the others have been written. If there is any
      line the first one came first, without a line break; and if more than that one was written,
      15 are left. */
  ghost predicate WritesFirst(lines: seq<seq<byte>>, before: seq<Event>, after: seq<Event>, left: seq<seq<byte>>) {
    && (lines == [] ==> after == before && left == [])
    && (lines != [] ==> |left| < |lines| && |after| > |before| && after[|before|] == Text(lines[0]))
    && |left| <= 15 && (|left| + 1 < |lines| ==> |left| == 15)
  }

  lemma FirstWritten(lines: seq<seq<byte>>, before: seq<Event>, x: int)
    ensures var e := Due(|lines|); WritesFirst(lines, before, before + Rows(lines[..e], x), lines[e..])
  {
    if lines != [] { RowsLayout(lines[..Due(|lines|)], x); }
  }

  class Writer {
    var events: seq<Event>
    constructor () ensures events == [] { events := []; }
    method Write(e: Event)
      modifies this
      ensures events == old(events) + [e]
    {
      events := events + [e];
    }
  }

  function Slot(tail: nat, k: nat): (i: nat) ensures i < SLOTS { (tail + 1 + k) % SLOTS }

  /** The k-th slot after tail, counting up to head, holds the k-th waiting line. */
  predicate Ring(lens: seq<int>, dats: seq<seq<byte>>, head: nat, tail: nat, queue: seq<seq<byte>>)
    requires |lens| == |dats| == SLOTS
  {
    && |queue| == (head - tail - 1) % SLOTS
    && forall k :: 0 <= k < |queue| ==>
         && 0 <= lens[Slot(tail, k)] <= |dats[Slot(tail, k)]|
         && dats[Slot(tail, k)][..lens[Slot(tail, k)]] == queue[k]
  }

  lemma RingPush(lens: seq<int>, dats: seq<seq<byte>>, head: nat, tail: nat, queue: seq<seq<byte>>, data: seq<byte>, len: nat)
    requires |lens| == |dats| == SLOTS && head < SLOTS && tail < SLOTS && tail != head && len <= |data|
    requires Ring(lens, dats, head, tail, queue)
    ensures Ring(lens[head := len], dats[head := data], (head + 1) % SLOTS, tail, queue + [data[..len]])
  {
    var q := queue + [data[..len]];
    forall k | 0 <= k < |q|
      ensures 0 <= lens[head := len][Slot(tail, k)] <= |dats[head := data][Slot(tail, k)]|
      ensures dats[head := data][Slot(tail, k)][..lens[head := len][Slot(tail, k)]] == q[k]
    {
      SlotOrder(head, tail, k);
      assert k < |queue| ==> q[k] == queue[k];
    }
    SlotOrder(head, tail, 0);
  }

  lemma SlotOrder(head: nat, tail: nat, k: nat)
    requires head < SLOTS && tail < SLOTS && tail != head
    ensures k < (head - tail - 1) % SLOTS ==> Slot(tail, k) != head
    ensures k == (head - tail - 1) % SLOTS ==> Slot(tail, k) == head
    ensures ((head + 1) % SLOTS - tail - 1) % SLOTS == (head - tail - 1) % SLOTS + 1
  {
    assert (head - tail - 1) % SLOTS == if tail < head then head - tail - 1 else head - tail - 1 + SLOTS;
    assert (head + 1) % SLOTS == if head == SLOTS - 1 then 0 else head + 1;
  }

  lemma RingPop(lens: seq<int>, dats: seq<seq<byte>>, head: nat, tail: nat, queue: seq<seq<byte>>)
    requires |lens| == |dats| == SLOTS && head < SLOTS && tail < SLOTS && queue != []
    requires Ring(lens, dats, head, tail, queue)
    ensures Slot(tail, 0) == (tail + 1) % SLOTS
    ensures 0 <= lens[(tail + 1) % SLOTS] <= |dats[(tail + 1) % SLOTS]|
    ensures dats[(tail + 1) % SLOTS][..lens[(tail + 1) % SLOTS]] == queue[0]
    ensures Ring(lens, dats, head, (tail + 1) % SLOTS, queue[1..])
  {
    var t := (tail + 1) % SLOTS;
    assert queue[0] == queue[0];
    SlotsAdvance(head, tail, 0);
    forall k | 0 <= k < |queue| - 1
      ensures 0 <= lens[Slot(t, k)] <= |dats[Slot(t, k)]| && dats[Slot(t, k)][..lens[Slot(t, k)]] == queue[1..][k]
    {
      SlotsAdvance(head, tail, k);
      assert queue[1..][k] == queue[k + 1];
    }
  }

  lemma SlotsAdvance(head: nat, tail: nat, k: nat)
    requires head < SLOTS && tail < SLOTS
    ensures Slot((tail + 1) % SLOTS, k) == Slot(tail, k + 1)
    ensures Slot(tail, 0) == (tail + 1) % SLOTS
    ensures (head - tail - 1) % SLOTS > 0 ==> (head - (tail + 1) % SLOTS - 1) % SLOTS == (head - tail - 1) % SLOTS - 1
  {
    SlotShift(tail + 1, k + 1);
    if tail == SLOTS - 1 {
      assert (tail + 1) % SLOTS == 0 && (head - tail - 1) % SLOTS == head;
    } else {
      assert (tail + 1) % SLOTS == tail + 1;
      if (head - tail - 1) % SLOTS > 0 { SlotsLess(head - tail - 1); }
    }
  }

  lemma SlotShift(a: nat, b: nat)
    ensures (a % SLOTS + b) % SLOTS == (a + b) % SLOTS
  {
  }

  lemma SlotsLess(d: int)
    requires d % SLOTS > 0
    ensures (d - 1) % SLOTS == d % SLOTS - 1
  {
  }

  class LineWrapper {
    const lenbuf: array<int>
    const datbuf: array<seq<byte>>
    const x: int
    const width: nat
    var head: nat                     // index for next write
    var tail: nat                     // index for next read - 1
    var wroteSomething: bool
    ghost var queue: seq<seq<byte>>   // the waiting lines

    ghost predicate Valid()
      reads this, lenbuf, datbuf
    {
      && lenbuf.Length == SLOTS && datbuf.Length == SLOTS && width >= 2
      && head < SLOTS && tail < SLOTS
      && Ring(lenbuf[..], datbuf[..], head, tail, queue)
    }

    constructor (x1: int, x2: int)
      ensures Valid() && queue == [] && fresh(lenbuf) && fresh(datbuf)
      ensures x == x1 && width == if x2 - x1 < 2 then 2 else x2 - x1
    {
      lenbuf, datbuf := new int[SLOTS], new seq<byte>[SLOTS](_ => []);
      x, width := x1, if x2 - x1 < 2 then 2 else x2 - x1;
      head, tail := 0, SLOTS - 1;
      wroteSomething := false;
      queue := [];
    }

    predicate BufEmpty() reads this { (tail + 1) % SLOTS == head }
    predicate BufFull() reads this { tail == head }

    lemma BufMeaning()
      requires Valid()
      ensures BufEmpty() <==> queue == []
      ensures BufFull() <==> |queue| == CAPACITY
      ensures |queue| <= CAPACITY
    {
    }

    method BufStore(data: seq<byte>, len: nat)
      requires Valid() && !BufFull() && len <= |data|
      modifies this`head, this`queue, lenbuf, datbuf
      ensures Valid() && queue == old(queue) + [data[..len]]
    {
      RingPush(lenbuf[..], datbuf[..], head, tail, queue, data, len);
      lenbuf[head] := len;
      datbuf[head] := data;
      queue := queue + [data[..len]];
      head := (head + 1) % SLOTS;
    }

    /** One waiting line, on a new row unless it is the first of this call. */
    method WriteOneLine(w: Writer)
      requires Valid()
      modifies this`tail, this`queue, this`wroteSomething, w
      ensures Valid() && wroteSomething
      ensures queue == if old(queue) == [] then [] else old(queue)[1..]
      ensures w.events == old(w.events) + (if old(wroteSomething) then [NewLine, Indent(x)] else [])
                          + (if old(queue) == [] then [] else [Text(old(queue)[0])])
    {
      BufMeaning();
      if wroteSomething {
        w.Write(NewLine);
        w.Write(Indent(x));
      }
      if !BufEmpty() {
        RingPop(lenbuf[..], datbuf[..], head, tail, queue);
        tail := (tail + 1) % SLOTS;
        w.Write(Text(datbuf[tail][..lenbuf[tail]]));
        queue := queue[1..];
      }
      wroteSomething := true;
    }

    /** The state of a call in terms of the lines it has seen: `lines` are those that were waiting
        plus those produced so far; the first e of them have been written. */
    ghost predicate During(w: Writer, events0: seq<Event>, lines: seq<seq<byte>>, e: nat)
      reads this, w
    {
      && e <= |lines| && queue == lines[e..]
      && (wroteSomething <==> e > 0)
      && w.events == events0 + Rows(lines[..e], x)
    }

    method Output(w: Writer, data: seq<byte>, len: nat, ghost events0: seq<Event>, ghost lines: seq<seq<byte>>, ghost e: nat)
      requires Valid() && len <= |data|
      requires During(w, events0, lines, e) && (|lines| > CAPACITY ==> e == |lines| - CAPACITY)
      requires |lines| <= CAPACITY ==> e == 0
      modifies this, lenbuf, datbuf, w
      ensures Valid()
      ensures During(w, events0, lines + [data[..len]], if |lines| >= CAPACITY then e + 1 else e)
    {
      hide Rows, Ring;
      BufMeaning();
      if BufFull() {
        WriteOneLine(w);
        RowsAppend(lines[..e], lines[e], x);
        assert lines[..e + 1] == lines[..e] + [lines[e]];
        BufMeaning();
      }
      BufStore(data, len);
      assert forall i :: 0 <= i <= |lines| ==> (lines + [data[..len]])[..i] == lines[..i];
    }

    /** The scan for the next break of d. */
    method FindCut(d: seq<byte>) returns (len: nat, skip: nat)
      requires width >= 2 && d != []
      ensures (len, skip == 1) == Cut(d, width) && skip <= 1
    {
      hide CharCols, CharBytes, Cols;
      if |d| <= width {
        FitWhole(d, width);
        return |d|, 0;
      }
      var cols, maxi := 0, 0;
      assert d[0..] == d;
      while maxi < |d| && cols < width
        invariant maxi <= |d| && cols <= width
        invariant maxi + Fit(d[maxi..], width - cols) == Fit(d, width)
        decreases |d| - maxi
      {
        var n, c := Decode(d[maxi..]);
        if cols + c > width { break; }
        assert d[maxi..][n..] == d[maxi + n..];
        cols, maxi := cols + c, maxi + n;
      }
      assert maxi == Fit(d, width);
      if maxi == |d| { return maxi, 0; }
      var i: int := maxi;
      while i >= 0 && d[i] != SPACE
        invariant -1 <= i <= maxi && LastSpace(d, i) == LastSpace(d, maxi)
        decreases i + 1
      {
        i := i - 1;
      }
      if i >= 0 { return i, 1; }
      return maxi, 0;
    }

    /** Every chunk is cut into the lines of Wrap. They join the queue, and the lines that are due
        leave it, in order. If there is any line, the first one is written at once and on the
        current row; further ones only if the ring would overflow, which leaves it full. */
    method Process(w: Writer, data: seq<byte>)
      requires Valid()
      modifies this, lenbuf, datbuf, w
      ensures Valid()
      ensures
        var lines := old(queue) + Texts(Wrap(data, width));
        var e := Due(|lines|);
        queue == lines[e..] && w.events == old(w.events) + Rows(lines[..e], x)
      ensures WritesFirst(old(queue) + Texts(Wrap(data, width)), old(w.events), w.events, queue)
    {
      hide Wrap, Rows, Texts, Cut, Ring, WritesFirst;
      wroteSomething := false;
      var rest := data;
      ghost var lines := queue;
      ghost var events0 := w.events;
      ghost var e := 0;
      BufMeaning();
      Ends([], x, width);
      while rest != []
        invariant Valid()
        invariant lines + Texts(Wrap(rest, width)) == old(queue) + Texts(Wrap(data, width))
        invariant e == if |lines| > CAPACITY then |lines| - CAPACITY else 0
        invariant During(w, events0, lines, e)
        decreases |rest|
      {
        var len, skip := FindCut(rest);
        WrapFirst(rest, width);
        Output(w, rest, len, events0, lines, e);
        if |lines| >= CAPACITY { e := e + 1; }
        lines := lines + [rest[..len]];
        rest := rest[len + skip..];
      }
      assert lines + [] == lines;
      if !wroteSomething {
        Ends(if lines == [] then [] else lines[0], x, width);
        assert lines != [] ==> lines[..1] == [lines[0]];
        WriteOneLine(w);
      }
      FirstWritten(lines, events0, x);
    }

    /** Everything that is still waiting, every line on a row of its own. */
    method Flush(w: Writer)
      requires Valid()
      modifies this`tail, this`queue, this`wroteSomething, w
      ensures Valid() && queue == []
      ensures w.events == old(w.events) +
        if old(queue) == [] then [] else [Indent(x)] + Rows(old(queue), x) + [NewLine]
    {
      hide Rows, Ring;
      BufMeaning();
      if BufEmpty() { return; }
      ghost var lines := queue;
      w.Write(Indent(x));
      ghost var events0 := w.events;
      wroteSomething := false;
      ghost var e := 0;
      Ends([], x, width);
      while !BufEmpty()
        invariant Valid() && During(w, events0, lines, e)
        decreases |lines| - e
      {
        BufMeaning();
        WriteOneLine(w);
        RowsAppend(lines[..e], lines[e], x);
        assert lines[..e + 1] == lines[..e] + [lines[e]];
        e := e + 1;
        BufMeaning();
      }
      BufMeaning();
      assert lines[..e] == lines;
      w.Write(NewLine);
    }

    /** A whole run: any chunks, in any number, then flush. Whatever was waiting and every line of
        every chunk is shown exactly once and in order. */
    method Run(w: Writer, chunks: seq<seq<byte>>)
      requires Valid()
      modifies this, lenbuf, datbuf, w
      ensures Valid() && queue == []
      ensures Shown(w.events) == Shown(old(w.events)) + old(queue) + AllTexts(chunks, width)
    {
      hide Wrap, Ring, Rows, Texts, WritesFirst;
      var i := 0;
      while i < |chunks|
        invariant i <= |chunks| && Valid()
        invariant Shown(w.events) + queue == Shown(old(w.events)) + old(queue) + AllTexts(chunks[..i], width)
      {
        ghost var added := Texts(Wrap(chunks[i], width));
        ghost var lines, events0 := queue + added, w.events;
        assert Shown(events0) + lines == Shown(events0) + queue + added;
        Process(w, chunks[i]);
        ghost var e := Due(|lines|);
        ShownConcat(events0, Rows(lines[..e], x));
        ShownRows(lines[..e], x);
        assert Shown(events0) + lines[..e] + lines[e..] == Shown(events0) + lines;
        assert chunks[..i + 1][..i] == chunks[..i];
        i := i + 1;
      }
      assert chunks[..i] == chunks;
      ghost var events0, lines := w.events, queue;
      Flush(w);
      FlushShows(events0, lines, x);
      assert lines == [] ==> w.events == events0;
    }
  }

  /** The lines of all chunks, one after the other. */
  function AllTexts(chunks: seq<seq<byte>>, width: nat): seq<seq<byte>>
    requires width >= 2
  {
    if chunks == [] then []
    else
      var n := |chunks| - 1;
      AllTexts(chunks[..n], width) + Texts(Wrap(chunks[n], width))
  }

  lemma FlushShows(events0: seq<Event>, lines: seq<seq<byte>>, x: int)
    ensures Shown(events0 + ([Indent(x)] + Rows(lines, x) + [NewLine])) == Shown(events0) + lines
  {
    hide Rows, Shown;
    ShownConcat(events0, [Indent(x)] + Rows(lines, x) + [NewLine]);
    ShownConcat([Indent(x)] + Rows(lines, x), [NewLine]);
    ShownConcat([Indent(x)], Rows(lines, x));
    ShownRows(lines, x);
    ShownOne(Indent(x));
    ShownOne(NewLine);
  }
}
