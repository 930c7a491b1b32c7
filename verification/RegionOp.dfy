/** miRegionOp: one sweep over the bands of two regions, for any of the three operations. */
module RegionOp {
  import opened Spans
  import opened SpanOps
  import opened Bands
  import opened RegionModel
  import opened RegionKernels
  import opened Coalesce
  import opened RegionSweep

  function LastStartOf(r: seq<Band>): nat { if r == [] then 0 else StartOf(r, |r| - 1) }

  /** The region under construction: canonical so far, `prevBand` its last band. */
  ghost predicate Growing(reg: Region, prevBand: nat)
    reads reg
  {
    reg.Banded() && prevBand == LastStartOf(reg.bands)
  }

  /** A band appended to canonical ones, then merged with the last if possible. */
  lemma AppendedBand(r: seq<Band>, y1: int, y2: int, s: seq<Span>)
    requires Canonical(r) && EndsBy(r, y1) && y1 < y2 && s != [] && Row(s)
    ensures var r' := r + [Band(y1, y2, s)];
      Sorted(r') && |r'| == |r| + 1 && Flatten(r') == Flatten(r) + BoxesOf(Band(y1, y2, s))
          && With(MergedAt(r', |r|), r, y1, y2, s)
    ensures StartOf(r + [Band(y1, y2, s)], |r|) == |Flatten(r)|
    ensures |r| > 0 ==> StartOf(r + [Band(y1, y2, s)], |r| - 1) == StartOf(r, |r| - 1)
    ensures MergedAt(r + [Band(y1, y2, s)], |r|) != []
  {
    hide Canonical, Sorted, Row, BoxesOf, RowAt;
    var b := Band(y1, y2, s);
    var r' := r + [b];
    assert r'[..|r|] == r;
    FlattenSnoc(r, b);
    CanonicalSorted(r);
    SortedSnoc(r, b);
    if |r| > 0 {
      assert r'[..|r| - 1] == r[..|r| - 1];
    }
    if |r| > 0 && Mergeable(r[|r| - 1], b) {
      assert MergedAt(r', |r|) == Stretch(r, b);
      StretchCanonical(r, b);
      forall y
        ensures RowAt(Stretch(r, b), y) == if y1 <= y < y2 then s else RowAt(r, y)
      {
        StretchCovers(r, b, y);
        RowAtSnoc(r, b, y);
      }
    } else {
      CanonicalSnoc(r, b);
      forall y
        ensures RowAt(r', y) == if y1 <= y < y2 then s else RowAt(r, y)
      {
        RowAtSnoc(r, b, y);
      }
    }
  }

  /** Nothing appended. */
  lemma NothingAppended(r: seq<Band>, y1: int, y2: int)
    requires Canonical(r) && EndsBy(r, y1) && y1 <= y2
    ensures With(r, r, y1, y2, [])
  {
    hide Canonical, RowAt;
    forall y
      ensures RowAt(r, y) == if y1 <= y < y2 then [] else RowAt(r, y)
    {
      if y1 <= y < y2 {
        BelowEnd(r, y1, y);
      }
    }
  }

  /** After a band routine: coalesce, if it has added anything. */
  method FinishBand(reg: Region, prevBand0: nat, curBand: nat, ghost y1: int, ghost y2: int, ghost s: seq<Span>)
    returns (prevBand: nat)
    requires Canonical(reg.bands) && EndsBy(reg.bands, y1) && y1 < y2 && Row(s)
    requires Extended(reg.rects, Flatten(reg.bands), y1, y2, s) && curBand == |Flatten(reg.bands)|
    requires prevBand0 == LastStartOf(reg.bands)
    modifies reg`rects, reg`bands
    ensures Growing(reg, prevBand) && With(reg.bands, old(reg.bands), y1, y2, s)
  {
    hide Canonical, Sorted, Row, BoxesOf, RowAt, Flatten, MergedAt, With;
    ghost var r := reg.bands;
    prevBand := prevBand0;
    BandSize(y1, y2, s);
    if |reg.rects| != curBand {
      AppendedBand(r, y1, y2, s);
      reg.bands := r + [Band(y1, y2, s)];
      prevBand := CoalesceBands(reg, prevBand0, curBand, |r|);
      WithCanonical(reg.bands, r, y1, y2, s);
    } else {
      NothingAppended(r, y1, y2);
      assert Flatten(r) + [] == Flatten(r);
    }
  }

  lemma BandSize(y1: int, y2: int, s: seq<Span>)
    ensures |BoxesOf(Band(y1, y2, s))| == |s|
  {
  }

  lemma WithCanonical(r': seq<Band>, r: seq<Band>, y1: int, y2: int, s: seq<Span>)
    requires With(r', r, y1, y2, s)
    ensures Canonical(r') && EndsBy(r', y2)
  {
  }

  // ---------------------------------------------------------------- one round

  /** The part of a band that lies on scan lines of one region only; `keep` if the operation keeps
      such points. */
  method AddAlone(reg: Region, prevBand0: nat, keep: bool, boxes: seq<Box>, top: int, bot: int,
                  ghost op: Op, ghost a: seq<Band>, ghost b: seq<Band>, ghost lo: int, ghost row: seq<Span>)
    returns (prevBand: nat)
    requires Growing(reg, prevBand0) && Settled(op, reg.bands, a, b, lo) && lo <= top <= bot
    requires LinesAre(op, a, b, lo, top, []) && LinesAre(op, a, b, top, bot, if keep then row else [])
    requires RowOf(boxes, row) && Row(row)
    modifies reg`rects, reg`bands
    ensures Growing(reg, prevBand) && Settled(op, reg.bands, a, b, bot)
  {
    hide Canonical, Row, RowOf, LinesAre, With, LineIs, Flatten;
    ghost var r := reg.bands;
    EndsLater(r, lo, top);
    NoRow();
    prevBand := prevBand0;
    if top != bot {
      var curBand := |reg.rects|;
      if keep {
        NonOverlap(reg, boxes, top, bot, row);
        prevBand := FinishBand(reg, prevBand, curBand, top, bot, row);
        SettleWith(op, r, a, b, lo, top, bot, row, reg.bands);
      } else {
        ExtendedNone(reg.rects, top, bot);
        prevBand := FinishBand(reg, prevBand, curBand, top, bot, []);
        SettleWith(op, r, a, b, lo, top, bot, [], reg.bands);
      }
    } else {
      SettleEmpty(op, r, a, b, lo, bot);
    }
  }

  lemma EndsLater(r: seq<Band>, lo: int, hi: int)
    requires EndsBy(r, lo) && lo <= hi
    ensures EndsBy(r, hi)
  {
  }

  /** Two overlapping bands. */
  method AddTogether(reg: Region, prevBand0: nat, op: Op, boxes1: seq<Box>, boxes2: seq<Box>, top: int, bot: int,
                     ghost a: seq<Band>, ghost i: nat, ghost b: seq<Band>, ghost j: nat, ghost lo: int)
    returns (prevBand: nat)
    requires Growing(reg, prevBand0) && Settled(op, reg.bands, a, b, top) && lo <= top < bot
    requires Canonical(a) && Canonical(b) && Ahead(a, i, lo) && Ahead(b, j, lo) && i < |a| && j < |b|
    requires a[i].y1 <= top && b[j].y1 <= top && bot <= a[i].y2 && bot <= b[j].y2
    requires boxes1 == BoxesOf(a[i]) && boxes2 == BoxesOf(b[j])
    modifies reg`rects, reg`bands
    ensures Growing(reg, prevBand) && Settled(op, reg.bands, a, b, bot)
  {
    hide Canonical, Row, LinesAre, With, LineIs, Flatten, Is, BoxesOf;
    ghost var r := reg.bands;
    BandRow(a, i);
    BandRow(b, j);
    EndOfArray(r, top);
    var curBand := |reg.rects|;
    ghost var s;
    match op {
      case Union => s := UnionO(reg, boxes1, boxes2, top, bot, a[i].row, b[j].row);
      case Intersect => s := IntersectO(reg, boxes1, boxes2, top, bot, a[i].row, b[j].row);
      case Subtract => s := SubtractO(reg, boxes1, boxes2, top, bot, a[i].row, b[j].row);
    }
    Together(op, a, i, b, j, lo, top, bot, s);
    prevBand := FinishBand(reg, prevBand0, curBand, top, bot, s);
    NoLines(op, a, b, top);
    SettleWith(op, r, a, b, top, top, bot, s, reg.bands);
  }

  lemma NoLines(op: Op, a: seq<Band>, b: seq<Band>, y: int)
    ensures LinesAre(op, a, b, y, y, [])
  {
  }

  lemma BandRow(a: seq<Band>, i: nat)
    requires Canonical(a) && i < |a|
    ensures Row(a[i].row) && RowOf(BoxesOf(a[i]), a[i].row) && BoxesOf(a[i]) != [] && a[i].y1 < a[i].y2
  {
    hide Row, BoxesOf;
    BandsApart(a, i, i);
    BoxesRow(a[i]);
    BandSize(a[i].y1, a[i].y2, a[i].row);
  }

  lemma EndOfArray(r: seq<Band>, y1: int)
    requires Canonical(r) && EndsBy(r, y1)
    ensures EndsAbove(Flatten(r), y1)
  {
    hide BoxesOf, Row;
    if r != [] {
      CanonicalSorted(r);
      LastBox(r);
    }
  }

  /** One round: the part that only one region has, then the part that both have. */
  method Round(reg: Region, prevBand0: nat, op: Op, boxes1: seq<Box>, boxes2: seq<Box>, ybot0: int,
               ghost a: seq<Band>, ghost i: nat, ghost b: seq<Band>, ghost j: nat)
    returns (prevBand: nat, ybot: int)
    requires Growing(reg, prevBand0) && Sweeping(op, reg.bands, a, i, b, j, ybot0) && i < |a| && j < |b|
    requires boxes1 == BoxesOf(a[i]) && boxes2 == BoxesOf(b[j]) && boxes1 != [] && boxes2 != []
    modifies reg`rects, reg`bands
    ensures Growing(reg, prevBand) && ybot == Min(a[i].y2, b[j].y2)
    ensures Settled(op, reg.bands, a, b, ybot) && ybot0 < ybot
  {
    hide Canonical, Row, RowOf, LinesAre, LineIs, Settled, Growing, BoxesOf;
    BandRow(a, i);
    BandRow(b, j);
    BoxesRow(a[i]);
    BoxesRow(b[j]);
    var y11, y12, y21, y22 := boxes1[0].y1, boxes1[0].y2, boxes2[0].y1, boxes2[0].y2;
    var ytop: int;
    prevBand := prevBand0;
    ghost var settled;
    if y11 < y21 {
      var top, bot := Max(y11, ybot0), Min(y12, y21);
      FirstAlone(op, a, i, b, j, ybot0, top, bot);
      prevBand := AddAlone(reg, prevBand, op != Intersect, boxes1, top, bot, op, a, b, ybot0, a[i].row);
      ytop := y21;
      settled := bot;
    } else if y21 < y11 {
      var top, bot := Max(y21, ybot0), Min(y22, y11);
      SecondAlone(op, a, i, b, j, ybot0, top, bot);
      prevBand := AddAlone(reg, prevBand, op == Union, boxes2, top, bot, op, a, b, ybot0, b[j].row);
      ytop := y11;
      settled := bot;
    } else {
      FirstAlone(op, a, i, b, j, ybot0, y11, y11);
      SettleEmpty(op, reg.bands, a, b, ybot0, y11);
      ytop := y11;
      settled := ytop;
    }
    ybot := Min(y12, y22);
    if ybot > ytop {
      prevBand := AddTogether(reg, prevBand, op, boxes1, boxes2, ytop, ybot, a, i, b, j, ybot0);
    }
  }

  /** The bands that end at `ybot` are done with. */
  lemma Advance(op: Op, r: seq<Band>, a: seq<Band>, i: nat, b: seq<Band>, j: nat, lo: int, ybot: int)
    requires Sweeping(op, r, a, i, b, j, lo) || (Canonical(a) && Canonical(b) && Ahead(a, i, lo) && Ahead(b, j, lo))
    requires i < |a| && j < |b| && lo < ybot == Min(a[i].y2, b[j].y2)
    ensures Ahead(a, if a[i].y2 == ybot then i + 1 else i, ybot) && Ahead(b, if b[j].y2 == ybot then j + 1 else j, ybot)
    ensures var i', j' := if a[i].y2 == ybot then i + 1 else i, if b[j].y2 == ybot then j + 1 else j;
      i' < |a| && j' < |b| ==> ybot <= a[i'].y1 || ybot <= b[j'].y1
  {
    hide Settled;
    BandsApart(a, i, if i + 1 < |a| then i + 1 else i);
    BandsApart(b, j, if j + 1 < |b| then j + 1 else j);
    BandsApart(a, if i + 1 < |a| then i + 1 else i, i);
    BandsApart(b, if j + 1 < |b| then j + 1 else j, j);
  }

  /** The regions start no higher than their first bands. */
  lemma SweepStarts(op: Op, a: seq<Band>, b: seq<Band>, lo: int)
    requires Canonical(a) && Canonical(b) && a != [] && b != [] && lo == Min(a[0].y1, b[0].y1)
    ensures Sweeping(op, [], a, 0, b, 0, lo) && Canonical([])
  {
    hide RowAt, In, Row;
    BandsApart(a, 0, 0);
    BandsApart(b, 0, 0);
    forall y | y < lo
      ensures LineIs(op, RowAt([], y), a, b, y)
    {
      RowAtBetween(a, 0, y);
      RowAtBetween(b, 0, y);
      RowAtGap([], y);
      EmptyOp(op, y);
    }
  }

  /** The result once both regions are used up. */
  lemma SweepEnds(op: Op, r: seq<Band>, a: seq<Band>, b: seq<Band>, lo: int)
    requires Settled(op, r, a, b, lo) && Canonical(a) && Canonical(b) && Ahead(a, |a|, lo) && Ahead(b, |b|, lo)
    ensures ResultOf(op, r, a, b)
  {
    hide RowAt, Canonical, Is;
    forall y
      ensures LineIs(op, RowAt(r, y), a, b, y)
    {
      if lo <= y {
        RowAhead(a, |a|, lo, y);
        RowAhead(b, |b|, lo, y);
        BelowEnd(r, lo, y);
        EmptyOp(op, y);
      }
    }
  }

  // ---------------------------------------------------------------- what is left of one region

  /** Band `i` with its part above `lo` cut off, and the bands after it up to `k`. */
  function Rest(a: seq<Band>, i: nat, k: nat, lo: int): seq<Band>
    requires i <= k <= |a|
  {
    if i == k then [] else [Band(SpanOps.Max(a[i].y1, lo), a[i].y2, a[i].row)] + a[i + 1..k]
  }

  lemma RestSnoc(a: seq<Band>, i: nat, k: nat, lo: int)
    requires Canonical(a) && Ahead(a, i, lo) && i <= k < |a|
    ensures Rest(a, i, k + 1, lo) == Rest(a, i, k, lo) + [Band(SpanOps.Max(a[k].y1, lo), a[k].y2, a[k].row)]
    ensures SpanOps.Max(a[k].y1, lo) < a[k].y2
  {
    hide Row;
    BandsApart(a, i, k);
    if i < k {
      assert a[i + 1..k + 1] == a[i + 1..k] + [a[k]];
    } else {
      assert a[i + 1..k + 1] == [];
    }
  }

  lemma ClipCanonical(c: seq<Band>, y1: int)
    requires Canonical(c) && c != [] && c[0].y1 <= y1 < c[0].y2
    ensures Canonical(c[0 := c[0].(y1 := y1)])
  {
    hide Row;
    var c' := c[0 := c[0].(y1 := y1)];
    assert forall k | 0 <= k < |c| :: Proper(c'[k]) by {
      forall k | 0 <= k < |c|
        ensures Proper(c'[k])
      {
        assert Proper(c[k]);
      }
    }
    forall k | 0 < k < |c|
      ensures !Mergeable(c'[k - 1], c'[k])
    {
      assert !Mergeable(c[k - 1], c[k]);
    }
  }

  lemma RestCanonical(a: seq<Band>, i: nat, lo: int)
    requires Canonical(a) && Ahead(a, i, lo)
    ensures Canonical(Rest(a, i, |a|, lo))
  {
    hide Canonical;
    PrefixCanonical(a, i);
    if i < |a| {
      BandRow(a, i);
      var y1 := SpanOps.Max(a[i].y1, lo);
      ClipCanonical(a[i..], y1);
      assert Rest(a, i, |a|, lo) == a[i..][0 := a[i].(y1 := y1)];
    } else {
      assert a[i..] == [];
    }
  }

  /** The rest of a region is the region from `lo` on. */
  lemma {:induction false} RestRows(a: seq<Band>, i: nat, k: nat, lo: int, y: int)
    requires Canonical(a) && Ahead(a, i, lo) && i <= k <= |a|
    ensures RowAt(Rest(a, i, k, lo), y) == if lo <= y then RowAt(a[..k], y) else []
    decreases k
  {
    hide Canonical, RowAt, Rest;
    if k == i {
      PrefixCanonical(a, i);
      RestNone(a, i, lo, y);
      if lo <= y {
        BelowEnd(a[..i], lo, y);
      }
    } else {
      RestSnoc(a, i, k - 1, lo);
      RestRows(a, i, k - 1, lo, y);
      RowAtSnoc(Rest(a, i, k - 1, lo), Band(SpanOps.Max(a[k - 1].y1, lo), a[k - 1].y2, a[k - 1].row), y);
      assert a[..k] == a[..k - 1] + [a[k - 1]];
      RowAtSnoc(a[..k - 1], a[k - 1], y);
    }
  }

  lemma RestNone(a: seq<Band>, i: nat, lo: int, y: int)
    requires i <= |a|
    ensures Rest(a, i, i, lo) == [] && RowAt([], y) == []
  {
  }

  lemma CanonicalConcat(p: seq<Band>, q: seq<Band>)
    requires Canonical(p) && Canonical(q)
    requires p != [] && q != [] ==> p[|p| - 1].y2 <= q[0].y1 && !Mergeable(p[|p| - 1], q[0])
    ensures Canonical(p + q)
    decreases |q|
  {
    hide Row, Mergeable;
    if q == [] {
      assert p + q == p;
    } else if p == [] {
      assert p + q == q;
    } else if |q| == 1 {
      assert Proper(q[0]);
      CanonicalSnoc(p, q[0]);
      assert p + q == p + [q[0]];
    } else {
      var n := |q| - 1;
      PrefixCanonical(q, n);
      CanonicalConcat(p, q[..n]);
      BandsApart(q, n - 1, n);
      assert Proper(q[n]) && !Mergeable(q[n - 1], q[n]);
      CanonicalSnoc(p + q[..n], q[n]);
      assert p + q == (p + q[..n]) + [q[n]];
    }
  }

  /** The row of the lower of two stacks of bands, or of the upper one where that has none. */
  function Below(lower: seq<Span>, upper: seq<Span>): seq<Span> { if lower != [] then lower else upper }

  lemma {:induction false} RowAtConcat(p: seq<Band>, q: seq<Band>, y: int)
    requires Canonical(q)
    ensures RowAt(p + q, y) == Below(RowAt(q, y), RowAt(p, y))
    decreases |q|
  {
    hide OnLine, Row;
    if q == [] {
      assert p + q == p;
    } else {
      var n := |q| - 1;
      PrefixCanonical(q, n);
      BandsApart(q, n, n);
      RowAtConcat(p, q[..n], y);
      RowAtSnoc(p + q[..n], q[n], y);
      assert p + q == (p + q[..n]) + [q[n]];
    }
  }

  /** Bands `rest` below canonical bands `r`, after the one merge that is possible. */
  lemma TailMerged(r: seq<Band>, rest: seq<Band>)
    requires Canonical(r) && Canonical(rest) && rest != [] && EndsBy(r, rest[0].y1)
    ensures Canonical(MergedAt(r + rest, |r|))
    ensures forall y :: RowAt(MergedAt(r + rest, |r|), y) == Below(RowAt(rest, y), RowAt(r, y))
  {
    hide Canonical, RowAt, OnLine, Stretch;
    var n := |r|;
    assert (r + rest)[..n] == r && (r + rest)[n + 1..] == rest[1..];
    if n > 0 && Mergeable(r[n - 1], rest[0]) {
      TailStretched(r, rest);
    } else {
      CanonicalConcat(r, rest);
      forall y
        ensures RowAt(r + rest, y) == Below(RowAt(rest, y), RowAt(r, y))
      {
        RowAtConcat(r, rest, y);
      }
    }
  }

  lemma TailStretched(r: seq<Band>, rest: seq<Band>)
    requires Canonical(r) && Canonical(rest) && rest != [] && r != [] && Mergeable(r[|r| - 1], rest[0])
    ensures Canonical(Stretch(r, rest[0]) + rest[1..])
    ensures forall y :: RowAt(Stretch(r, rest[0]) + rest[1..], y) == Below(RowAt(rest, y), RowAt(r, y))
  {
    hide Canonical, RowAt, OnLine, Stretch;
    PrefixCanonical(rest, 1);
    FirstProper(rest);
    StretchCanonical(r, rest[0]);
    StretchEnd(r, rest);
    CanonicalConcat(Stretch(r, rest[0]), rest[1..]);
    forall y
      ensures RowAt(Stretch(r, rest[0]) + rest[1..], y) == Below(RowAt(rest, y), RowAt(r, y))
    {
      RowAtConcat(Stretch(r, rest[0]), rest[1..], y);
      StretchCovers(r, rest[0], y);
      RowAtSnoc(r, rest[0], y);
      FirstRow(rest, y);
    }
  }

  lemma FirstRow(rest: seq<Band>, y: int)
    requires Canonical(rest) && rest != []
    ensures RowAt(rest, y) == if RowAt(rest[1..], y) != [] then RowAt(rest[1..], y)
        else if OnLine(rest[0], y) then rest[0].row else []
    ensures OnLine(rest[0], y) ==> rest[0].row != []
  {
    hide Canonical, RowAt, OnLine;
    PrefixCanonical(rest, 1);
    FirstProper(rest);
    assert [rest[0]] + rest[1..] == rest;
    RowAtConcat([rest[0]], rest[1..], y);
    assert [] + [rest[0]] == [rest[0]];
    RowAtSnoc([], rest[0], y);
    RowAtNothing(y);
  }

  lemma RowAtNothing(y: int)
    ensures RowAt([], y) == []
  {
  }

  lemma FirstProper(rest: seq<Band>)
    requires Canonical(rest) && rest != []
    ensures Proper(rest[0])
  {
  }

  lemma StretchEnd(r: seq<Band>, rest: seq<Band>)
    requires Canonical(rest) && rest != [] && r != [] && r[|r| - 1].row == rest[0].row
    ensures |Stretch(r, rest[0])| == |r|
    ensures |rest| > 1 ==>
        Stretch(r, rest[0])[|r| - 1].y2 <= rest[1].y1 && !Mergeable(Stretch(r, rest[0])[|r| - 1], rest[1])
  {
    hide Row;
    if |rest| > 1 {
      BandsApart(rest, 0, 1);
      assert !Mergeable(rest[0], rest[1]);
    }
  }

  /** The rest of one region completes the result, if the operation keeps such points. */
  lemma RestResult(op: Op, r: seq<Band>, a: seq<Band>, i: nat, b: seq<Band>, lo: int, r': seq<Band>)
    requires Settled(op, r, a, b, lo) && Canonical(a) && Canonical(b) && Ahead(a, i, lo) && Ahead(b, |b|, lo)
    requires Canonical(r') && op != Intersect
    requires forall y :: RowAt(r', y) == Below(RowAt(Rest(a, i, |a|, lo), y), RowAt(r, y))
    ensures ResultOf(op, r', a, b)
  {
    hide RowAt, Canonical, Is, Rest;
    assert a[..|a|] == a;
    forall y
      ensures LineIs(op, RowAt(r', y), a, b, y)
    {
      RestRows(a, i, |a|, lo, y);
      if lo <= y {
        BelowEnd(r, lo, y);
        RowAhead(b, |b|, lo, y);
        OneRow(op, RowAt(a, y));
      }
    }
  }

  lemma ResultSwap(r: seq<Band>, a: seq<Band>, b: seq<Band>)
    ensures ResultOf(Union, r, a, b) ==> ResultOf(Union, r, b, a)
    ensures forall lo :: Settled(Union, r, a, b, lo) ==> Settled(Union, r, b, a, lo)
  {
    hide RowAt, Canonical, In;
    forall y
      ensures LineIs(Union, RowAt(r, y), a, b, y) ==> LineIs(Union, RowAt(r, y), b, a, y)
    {
    }
  }

  /** Append all that is left of one region, then coalesce once: the appended bands are canonical
      already, so that only the first of them can merge. */
  method AppendRest(reg: Region, prevBand: nat, rects: seq<Box>, r0: nat, ybot: int, ghost a: seq<Band>, ghost i: nat)
    requires Growing(reg, prevBand) && EndsBy(reg.bands, ybot)
    requires Canonical(a) && rects == Flatten(a) && i < |a| && r0 == StartOf(a, i) && Ahead(a, i, ybot)
    modifies reg`rects, reg`bands
    ensures reg.Banded()
    ensures forall y :: RowAt(reg.bands, y) == Below(RowAt(Rest(a, i, |a|, ybot), y), RowAt(old(reg.bands), y))
  {
    hide Canonical, RowAt, Flatten, BoxesOf, Rest, StartOf, MergedAt, Row;
    CanonicalSorted(a);
    StartWithin(a, i);
    ghost var r := reg.bands;
    var curBand := |reg.rects|;
    ghost var k := i;
    var r1 := r0;
    AppendStarts(r, a, i, ybot);
    StartEnd(a);
    while r1 != |rects|
      invariant i <= k <= |a| && r1 == StartOf(a, k) <= |rects|
      invariant reg.bands == r && reg.rects == Flatten(r + Rest(a, i, k, ybot))
      decreases |a| - k
    {
      StartBelow(a, k);
      var end := BandEnd(rects, r1, a, k);
      BandRow(a, k);
      ghost var before := reg.rects;
      var top := Max(rects[r1].y1, ybot);
      FirstBox(a, k, rects, r1, end);
      NonOverlap(reg, rects[r1..end], top, rects[r1].y2, a[k].row);
      AppendNext(r, a, i, k, ybot);
      k := k + 1;
      r1 := end;
    }
    StartIsEnd(a, k);
    RestCanonical(a, i, ybot);
    RestStarts(a, i, ybot);
    ghost var rest := Rest(a, i, |a|, ybot);
    reg.bands := r + rest;
    TailReady(r, rest, ybot);
    TailMerged(r, rest);
    var last := CoalesceBands(reg, prevBand, curBand, |r|);
  }

  lemma StartWithin(a: seq<Band>, i: nat)
    requires i <= |a|
    ensures StartOf(a, i) <= |Flatten(a)|
  {
    hide Flatten;
    StartEnd(a);
    if i < |a| {
      StartNext(a, i);
    }
  }

  lemma StartBelow(a: seq<Band>, k: nat)
    requires k <= |a| && StartOf(a, k) != |Flatten(a)|
    ensures k < |a|
  {
    StartEnd(a);
  }

  lemma StartIsEnd(a: seq<Band>, k: nat)
    requires Canonical(a) && k <= |a| && StartOf(a, k) == |Flatten(a)|
    ensures k == |a|
  {
    hide Flatten;
    if k < |a| {
      StartNext(a, k);
      BandsApart(a, k, k);
    }
  }

  lemma FirstBox(a: seq<Band>, k: nat, rects: seq<Box>, r1: nat, end: nat)
    requires Canonical(a) && k < |a| && r1 < end <= |rects| && rects[r1..end] == BoxesOf(a[k])
    ensures rects[r1].y1 == a[k].y1 && rects[r1].y2 == a[k].y2
  {
    hide BoxesOf;
    BandRow(a, k);
    BoxesRow(a[k]);
    assert rects[r1] == rects[r1..end][0];
  }

  lemma AppendStarts(r: seq<Band>, a: seq<Band>, i: nat, lo: int)
    requires i <= |a|
    ensures r + Rest(a, i, i, lo) == r
  {
  }

  lemma AppendNext(r: seq<Band>, a: seq<Band>, i: nat, k: nat, lo: int)
    requires Canonical(a) && Ahead(a, i, lo) && i <= k < |a|
    ensures Flatten(r + Rest(a, i, k + 1, lo))
        == Flatten(r + Rest(a, i, k, lo)) + BoxesOf(Band(SpanOps.Max(a[k].y1, lo), a[k].y2, a[k].row))
  {
    hide Canonical, Rest, Flatten, BoxesOf;
    RestSnoc(a, i, k, lo);
    var b := Band(SpanOps.Max(a[k].y1, lo), a[k].y2, a[k].row);
    assert r + (Rest(a, i, k, lo) + [b]) == (r + Rest(a, i, k, lo)) + [b];
    FlattenSnoc(r + Rest(a, i, k, lo), b);
  }

  lemma RestStarts(a: seq<Band>, i: nat, lo: int)
    requires i < |a|
    ensures Rest(a, i, |a|, lo) != [] && Rest(a, i, |a|, lo)[0].y1 >= lo
  {
  }

  lemma TailReady(r: seq<Band>, rest: seq<Band>, lo: int)
    requires Canonical(r) && Canonical(rest) && rest != [] && EndsBy(r, lo) && lo <= rest[0].y1
    ensures Sorted(r + rest) && EndsBy(r, rest[0].y1)
    ensures StartOf(r + rest, |r|) == |Flatten(r)|
    ensures |r| > 0 ==> StartOf(r + rest, |r| - 1) == StartOf(r, |r| - 1)
  {
    hide Row, Mergeable;
    assert (r + rest)[..|r|] == r;
    if |r| > 0 {
      assert (r + rest)[..|r| - 1] == r[..|r| - 1];
    }
    SortedConcat(r, rest);
  }

  lemma SortedConcat(r: seq<Band>, rest: seq<Band>)
    requires Sorted(r) && Sorted(rest) && rest != [] && EndsBy(r, rest[0].y1)
    ensures Sorted(r + rest)
  {
    hide Proper;
    var c := r + rest;
    forall k, l | 0 <= k < l < |c|
      ensures c[k].y2 <= c[l].y1
    {
      if k < |r| <= l {
        BandsApart(r, k, |r| - 1);
        BandsApart(rest, 0, l - |r|);
      }
    }
  }

  // ---------------------------------------------------------------- the operation

  /** miRegionOp, on nonempty regions.  The destination may be one of the sources. */
  method CombineRegions(reg: Region, reg1: Region, reg2: Region, op: Op)
    requires reg1.Valid() && reg2.Valid() && reg1.rects != [] && reg2.rects != []
    modifies reg
    ensures reg.Banded() && ResultOf(op, reg.bands, old(reg1.bands), old(reg2.bands)) && reg.extents == old(reg.extents)
  {
    hide Canonical, RowAt, Flatten, BoxesOf, Rest, StartOf, Row, Tight, Settled, LineIs;
    ghost var a, b := reg1.bands, reg2.bands;
    var rects1, rects2 := reg1.rects, reg2.rects;
    TightTop(reg1.extents, a);
    TightTop(reg2.extents, b);
    var ybot := Min(reg1.extents.y1, reg2.extents.y1);
    reg.rects, reg.bands := [], [];
    SweepStarts(op, a, b, ybot);
    CanonicalSorted(a);
    CanonicalSorted(b);
    StartEnd(a);
    StartEnd(b);
    NothingYet();
    var r1, r2, prevBand := 0, 0, 0;
    ghost var i: nat, j: nat := 0, 0;
    while r1 != |rects1| && r2 != |rects2|
      invariant Growing(reg, prevBand) && Sweeping(op, reg.bands, a, i, b, j, ybot)
      invariant reg.extents == old(reg.extents)
      invariant 0 <= r1 == StartOf(a, i) <= |rects1| && 0 <= r2 == StartOf(b, j) <= |rects2|
      decreases |a| - i + |b| - j
    {
      StartBelow(a, i);
      StartBelow(b, j);
      var end1 := BandEnd(rects1, r1, a, i);
      var end2 := BandEnd(rects2, r2, b, j);
      FirstBox(a, i, rects1, r1, end1);
      FirstBox(b, j, rects2, r2, end2);
      ghost var ybot0 := ybot;
      prevBand, ybot := Round(reg, prevBand, op, rects1[r1..end1], rects2[r2..end2], ybot, a, i, b, j);
      Advance(op, reg.bands, a, i, b, j, ybot0, ybot);
      var done1, done2 := rects1[r1].y2 == ybot, rects2[r2].y2 == ybot;
      if done1 {
        r1 := end1;
        i := i + 1;
      }
      if done2 {
        r2 := end2;
        j := j + 1;
      }
    }
    EndRegion(reg, prevBand, op, rects1, r1, rects2, r2, ybot, a, i, b, j);
  }

  lemma NothingYet()
    ensures Flatten([]) == [] && Canonical([])
  {
  }

  lemma TightTop(e: Box, a: seq<Band>)
    requires Canonical(a) && Flatten(a) != [] && Tight(e, a)
    ensures a != [] && e.y1 == a[0].y1
  {
    hide RowAt, Row;
    BandsApart(a, 0, 0);
    var x :| Contains(a, x, e.y1);
    NoPoint(x);
    RowAtBand(a, 0, a[0].y1);
    if e.y1 < a[0].y1 {
      RowAtBetween(a, 0, e.y1);
    }
    FirstInRow(a[0].row);
    assert Contains(a, a[0].row[0].x1, a[0].y1);
  }

  lemma FirstInRow(s: seq<Span>)
    requires Row(s) && s != []
    ensures At(s[0], s[0].x1)
  {
  }

  /** Deal with whichever region still has boxes left. */
  method EndRegion(reg: Region, prevBand: nat, op: Op, rects1: seq<Box>, r1: nat, rects2: seq<Box>, r2: nat, ybot: int,
                   ghost a: seq<Band>, ghost i: nat, ghost b: seq<Band>, ghost j: nat)
    requires Growing(reg, prevBand) && Sweeping(op, reg.bands, a, i, b, j, ybot)
    requires rects1 == Flatten(a) && rects2 == Flatten(b) && r1 == StartOf(a, i) && r2 == StartOf(b, j)
    requires r1 == |rects1| || r2 == |rects2|
    modifies reg`rects, reg`bands
    ensures reg.Banded() && ResultOf(op, reg.bands, a, b)
  {
    hide Canonical, RowAt, Flatten, BoxesOf, Rest, StartOf, Row, Settled, LineIs;
    ghost var r := reg.bands;
    SettledEnds(op, r, a, b, ybot);
    if r1 != |rects1| {
      StartBelow(a, i);
      StartIsEnd(b, j);
      if op != Intersect {
        AppendRest(reg, prevBand, rects1, r1, ybot, a, i);
        RestResult(op, r, a, i, b, ybot, reg.bands);
      } else {
        NoneKept(op, r, a, b, ybot);
      }
    } else if r2 != |rects2| {
      StartBelow(b, j);
      StartIsEnd(a, i);
      if op == Union {
        ResultSwap(r, a, b);
        AppendRest(reg, prevBand, rects2, r2, ybot, b, j);
        RestResult(op, r, b, j, a, ybot, reg.bands);
        ResultSwap(reg.bands, b, a);
      } else {
        NoneKept(op, r, a, b, ybot);
      }
    } else {
      StartIsEnd(a, i);
      StartIsEnd(b, j);
      SweepEnds(op, r, a, b, ybot);
    }
  }

  lemma SettledEnds(op: Op, r: seq<Band>, a: seq<Band>, b: seq<Band>, lo: int)
    requires Settled(op, r, a, b, lo)
    ensures EndsBy(r, lo)
  {
  }

  /** An operation that keeps nothing of the points below `lo`. */
  lemma NoneKept(op: Op, r: seq<Band>, a: seq<Band>, b: seq<Band>, lo: int)
    requires Settled(op, r, a, b, lo) && Canonical(a) && Canonical(b)
    requires (op == Intersect && Ahead(b, |b|, lo)) || (op != Union && Ahead(a, |a|, lo))
    ensures ResultOf(op, r, a, b)
  {
    hide RowAt, Canonical, Row;
    forall y
      ensures LineIs(op, RowAt(r, y), a, b, y)
    {
      if lo <= y {
        BelowEnd(r, lo, y);
        if Ahead(b, |b|, lo) {
          RowAhead(b, |b|, lo, y);
        }
        if Ahead(a, |a|, lo) {
          RowAhead(a, |a|, lo, y);
        }
        OneRow(op, RowAt(a, y));
        OneRow(op, RowAt(b, y));
      }
    }
  }
}
