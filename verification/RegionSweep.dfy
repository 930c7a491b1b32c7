/** What the sweep over two regions has settled when it stands at a scan line. */
module RegionSweep {
  import opened Spans
  import opened Bands

  /** On scan line `y`, `r` is the result of the operation. */
  ghost predicate LineIs(op: Op, r: seq<Span>, a: seq<Band>, b: seq<Band>, y: int)
  {
    Is(op, r, RowAt(a, y), RowAt(b, y))
  }

  /** All scan lines above `lo` are settled, and the result ends there. */
  ghost predicate Settled(op: Op, r: seq<Band>, a: seq<Band>, b: seq<Band>, lo: int)
  {
    Canonical(r) && EndsBy(r, lo) && forall y | y < lo :: LineIs(op, RowAt(r, y), a, b, y)
  }

  predicate EndsBy(r: seq<Band>, lo: int) { r != [] ==> r[|r| - 1].y2 <= lo }

  /** The result of the operation on whole regions. */
  ghost predicate ResultOf(op: Op, r: seq<Band>, a: seq<Band>, b: seq<Band>)
  {
    Canonical(r) && forall y :: LineIs(op, RowAt(r, y), a, b, y)
  }

  lemma ResultPoints(op: Op, r: seq<Band>, a: seq<Band>, b: seq<Band>, x: int, y: int)
    requires ResultOf(op, r, a, b)
    ensures Contains(r, x, y) <==> op.Holds(Contains(a, x, y), Contains(b, x, y))
  {
    hide In, RowAt, Canonical;
    assert LineIs(op, RowAt(r, y), a, b, y);
  }

  /** Bands from `i` on are still to be dealt with below `lo`. */
  predicate Ahead(a: seq<Band>, i: nat, lo: int)
  {
    i <= |a| && (i > 0 ==> a[i - 1].y2 <= lo) && (i < |a| ==> lo < a[i].y2)
  }

  /** Where the sweep stands between two rounds. */
  ghost predicate Sweeping(op: Op, r: seq<Band>, a: seq<Band>, i: nat, b: seq<Band>, j: nat, lo: int)
  {
    && Canonical(a) && Canonical(b) && Settled(op, r, a, b, lo) && Ahead(a, i, lo) && Ahead(b, j, lo)
    && (i < |a| && j < |b| ==> lo <= a[i].y1 || lo <= b[j].y1)
  }

  /** Scan lines `lo` to `hi` of the result are all `s`. */
  ghost predicate LinesAre(op: Op, a: seq<Band>, b: seq<Band>, lo: int, hi: int, s: seq<Span>)
  {
    forall y | lo <= y < hi :: LineIs(op, s, a, b, y)
  }

  /** `r'` is `r` with `s` on the scan lines from `y1` to `y2`. */
  ghost predicate With(r': seq<Band>, r: seq<Band>, y1: int, y2: int, s: seq<Span>)
  {
    Canonical(r') && EndsBy(r', y2) && forall y :: RowAt(r', y) == if y1 <= y < y2 then s else RowAt(r, y)
  }

  lemma SettleWith(op: Op, r: seq<Band>, a: seq<Band>, b: seq<Band>, lo: int, y1: int, y2: int, s: seq<Span>,
        r': seq<Band>)
    requires Settled(op, r, a, b, lo) && lo <= y1 <= y2 && LinesAre(op, a, b, lo, y1, [])
        && LinesAre(op, a, b, y1, y2, s)
    requires With(r', r, y1, y2, s)
    ensures Settled(op, r', a, b, y2)
  {
    hide Canonical, LineIs, RowAt;
    forall y | y < y2
      ensures LineIs(op, RowAt(r', y), a, b, y)
    {
      if lo <= y < y1 {
        BelowEnd(r, lo, y);
      }
    }
  }

  lemma BelowEnd(r: seq<Band>, lo: int, y: int)
    requires Canonical(r) && EndsBy(r, lo) && lo <= y
    ensures RowAt(r, y) == []
  {
    RowAtBetween(r, |r|, y);
  }

  /** Moving on over scan lines on which the result is empty. */
  lemma SettleEmpty(op: Op, r: seq<Band>, a: seq<Band>, b: seq<Band>, lo: int, hi: int)
    requires Settled(op, r, a, b, lo) && lo <= hi && LinesAre(op, a, b, lo, hi, [])
    ensures Settled(op, r, a, b, hi)
  {
    hide Canonical, LineIs, RowAt;
    forall y | y < hi
      ensures LineIs(op, RowAt(r, y), a, b, y)
    {
      if lo <= y {
        BelowEnd(r, lo, y);
      }
    }
  }

  // ---------------------------------------------------------------- the rows on a scan line

  /** Above band `i`, nothing; on it, its row. */
  lemma RowAhead(a: seq<Band>, i: nat, lo: int, y: int)
    requires Canonical(a) && Ahead(a, i, lo) && lo <= y
    ensures i < |a| && y < a[i].y1 ==> RowAt(a, y) == []
    ensures i < |a| && a[i].y1 <= y < a[i].y2 ==> RowAt(a, y) == a[i].row
    ensures i == |a| ==> RowAt(a, y) == []
  {
    hide RowAt;
    if i < |a| && a[i].y1 <= y < a[i].y2 {
      RowAtBand(a, i, y);
    } else if i == |a| || y < a[i].y1 {
      RowAtBetween(a, i, y);
    }
  }

  lemma EmptyOp(op: Op, y: int)
    ensures Is(op, [], [], [])
  {
  }

  /** An operation on one row alone. */
  lemma OneRow(op: Op, s: seq<Span>)
    ensures op != Intersect ==> Is(op, s, s, [])
    ensures op == Intersect ==> Is(op, [], s, [])
    ensures op == Union ==> Is(op, s, [], s)
    ensures op != Union ==> Is(op, [], [], s)
  {
  }

  /** What remains on scan lines that only the first region has points on. */
  function KeptFirst(op: Op, s: seq<Span>): seq<Span> { if op == Intersect then [] else s }

  function KeptSecond(op: Op, s: seq<Span>): seq<Span> { if op == Union then s else [] }

  /** The first region's band comes first: its part above the other's. */
  lemma FirstAlone(op: Op, a: seq<Band>, i: nat, b: seq<Band>, j: nat, lo: int, top: int, bot: int)
    requires Canonical(a) && Canonical(b) && Ahead(a, i, lo) && Ahead(b, j, lo) && i < |a|
        && (j < |b| ==> bot <= b[j].y1)
    requires top == (if a[i].y1 > lo then a[i].y1 else lo) && bot <= a[i].y2
    ensures LinesAre(op, a, b, lo, if top < bot then top else bot, [])
    ensures LinesAre(op, a, b, top, bot, KeptFirst(op, a[i].row))
  {
    hide RowAt, Is;
    forall y | lo <= y < bot
      ensures y < top ==> LineIs(op, [], a, b, y)
      ensures top <= y ==> LineIs(op, KeptFirst(op, a[i].row), a, b, y)
    {
      RowAhead(a, i, lo, y);
      RowAhead(b, j, lo, y);
      EmptyOp(op, y);
      OneRow(op, a[i].row);
    }
  }

  lemma SecondAlone(op: Op, a: seq<Band>, i: nat, b: seq<Band>, j: nat, lo: int, top: int, bot: int)
    requires Canonical(a) && Canonical(b) && Ahead(a, i, lo) && Ahead(b, j, lo) && j < |b|
        && (i < |a| ==> bot <= a[i].y1)
    requires top == (if b[j].y1 > lo then b[j].y1 else lo) && bot <= b[j].y2
    ensures LinesAre(op, a, b, lo, if top < bot then top else bot, [])
    ensures LinesAre(op, a, b, top, bot, KeptSecond(op, b[j].row))
  {
    hide RowAt, Is;
    forall y | lo <= y < bot
      ensures y < top ==> LineIs(op, [], a, b, y)
      ensures top <= y ==> LineIs(op, KeptSecond(op, b[j].row), a, b, y)
    {
      RowAhead(a, i, lo, y);
      RowAhead(b, j, lo, y);
      EmptyOp(op, y);
      OneRow(op, b[j].row);
    }
  }

  /** Two bands side by side. */
  lemma Together(op: Op, a: seq<Band>, i: nat, b: seq<Band>, j: nat, lo: int, top: int, bot: int, s: seq<Span>)
    requires Canonical(a) && Canonical(b) && Ahead(a, i, lo) && Ahead(b, j, lo) && i < |a| && j < |b|
    requires lo <= top && a[i].y1 <= top && b[j].y1 <= top && bot <= a[i].y2 && bot <= b[j].y2
    requires Is(op, s, a[i].row, b[j].row)
    ensures LinesAre(op, a, b, top, bot, s)
  {
    hide RowAt, Is;
    forall y | top <= y < bot
      ensures LineIs(op, s, a, b, y)
    {
      RowAhead(a, i, lo, y);
      RowAhead(b, j, lo, y);
    }
  }
}
