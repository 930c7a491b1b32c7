/** The routines that handle one band of a region operation: each appends the boxes of the combined
    band to the region under construction. */
module RegionKernels {
  import opened Spans
  import opened SpanOps
  import opened Bands
  import opened RegionModel

  /** `out` is `before` with the boxes of one more band. */
  predicate Extended(out: seq<Box>, before: seq<Box>, y1: int, y2: int, s: seq<Span>)
  {
    out == before + BoxesOf(Band(y1, y2, s))
  }

  lemma ExtendedNone(before: seq<Box>, y1: int, y2: int)
    ensures Extended(before, before, y1, y2, [])
  {
    assert before + [] == before;
  }

  lemma ExtendedOne(out: seq<Box>, before: seq<Box>, y1: int, y2: int, s: seq<Span>, p: Span)
    requires Extended(out, before, y1, y2, s)
    ensures Extended(out + [Box(p.x1, y1, p.x2, y2)], before, y1, y2, s + [p])
  {
    hide BoxesOf;
    BoxesSnoc(y1, y2, s, p);
    assert (before + BoxesOf(Band(y1, y2, s))) + [Box(p.x1, y1, p.x2, y2)]
        == before + (BoxesOf(Band(y1, y2, s)) + [Box(p.x1, y1, p.x2, y2)]);
  }

  /** miUnionNonO and miSubtractNonO1: a band that only one region has. */
  method NonOverlap(reg: Region, r: seq<Box>, y1: int, y2: int, ghost a: seq<Span>)
    requires RowOf(r, a)
    modifies reg`rects
    ensures Extended(reg.rects, old(reg.rects), y1, y2, a)
  {
    hide Extended;
    ExtendedNone(reg.rects, y1, y2);
    var i := 0;
    assert a[..0] == [];
    while i < |r|
      invariant 0 <= i <= |r| && Extended(reg.rects, old(reg.rects), y1, y2, a[..i])
    {
      ExtendedOne(reg.rects, old(reg.rects), y1, y2, a[..i], a[i]);
      assert a[..i + 1] == a[..i] + [a[i]];
      reg.rects := reg.rects + [Box(r[i].x1, y1, r[i].x2, y2)];
      i := i + 1;
    }
    assert a[..|r|] == a;
  }

  // ---------------------------------------------------------------- union

  /** The array so far ends above the band at `y1`. */
  predicate EndsAbove(before: seq<Box>, y1: int) { before != [] ==> before[|before| - 1].y2 <= y1 }

  /** MERGERECT. */
  method MergeRect(reg: Region, b: Box, y1: int, y2: int, ghost before: seq<Box>, ghost s: seq<Span>)
    requires Extended(reg.rects, before, y1, y2, s) && EndsAbove(before, y1) && y1 < y2
    modifies reg`rects
    ensures Extended(reg.rects, before, y1, y2, Merge(s, Span(b.x1, b.x2)))
  {
    ghost var p, out := Span(b.x1, b.x2), reg.rects;
    var n := |reg.rects|;
    ExtendedOne(out, before, y1, y2, s, p);
    MergedBoxes(out, before, y1, y2, s, p);
    if n != 0 && reg.rects[n - 1].y1 == y1 && reg.rects[n - 1].y2 == y2 && reg.rects[n - 1].x2 >= b.x1 {
      if reg.rects[n - 1].x2 < b.x2 {
        reg.rects := reg.rects[n - 1 := reg.rects[n - 1].(x2 := b.x2)];
      }
    } else {
      reg.rects := reg.rects + [Box(b.x1, y1, b.x2, y2)];
    }
  }

  lemma MergedBoxes(out: seq<Box>, before: seq<Box>, y1: int, y2: int, s: seq<Span>, p: Span)
    requires Extended(out, before, y1, y2, s) && EndsAbove(before, y1) && y1 < y2
    ensures (out != [] && out[|out| - 1].y1 == y1 && out[|out| - 1].y2 == y2) <==> s != []
    ensures s != [] ==> out != [] && out[|out| - 1] == Box(s[|s| - 1].x1, y1, s[|s| - 1].x2, y2)
    ensures s != [] ==>
        Extended(out[|out| - 1 := out[|out| - 1].(x2 := p.x2)], before, y1, y2, s[|s| - 1 := Span(s[|s| - 1].x1, p.x2)])
  {
    if s != [] {
      var n := |s| - 1;
      var t := s[n := Span(s[n].x1, p.x2)];
      assert BoxesOf(Band(y1, y2, t)) == BoxesOf(Band(y1, y2, s))[n := Box(s[n].x1, y1, p.x2, y2)];
    }
  }

  /** miUnionO. */
  method UnionO(reg: Region, r1: seq<Box>, r2: seq<Box>, y1: int, y2: int, ghost a: seq<Span>, ghost b: seq<Span>)
    returns (ghost s: seq<Span>)
    requires RowOf(r1, a) && RowOf(r2, b) && Row(a) && Row(b) && y1 < y2 && EndsAbove(reg.rects, y1)
    modifies reg`rects
    ensures Extended(reg.rects, old(reg.rects), y1, y2, s) && Row(s) && Is(Spans.Op.Union, s, a, b)
  {
    hide Extended, Row, In, Merged, Merge, EndsAbove;
    ghost var before := reg.rects;
    ExtendedNone(before, y1, y2);
    MergedNone(a, b);
    s := [];
    var i: nat, j: nat := 0, 0;
    while i < |r1| && j < |r2|
      invariant i <= |r1| && j <= |r2| && Extended(reg.rects, before, y1, y2, s) && Merged(s, a, i, b, j)
      decreases |r1| - i + |r2| - j
    {
      if r1[i].x1 < r2[j].x1 {
        MergeFirst(s, a, i, b, j);
        MergeRect(reg, r1[i], y1, y2, before, s);
        s := Merge(s, a[i]);
        i := i + 1;
      } else {
        MergeSecond(s, a, i, b, j);
        MergeRect(reg, r2[j], y1, y2, before, s);
        s := Merge(s, b[j]);
        j := j + 1;
      }
    }
    while i < |r1|
      invariant i <= |r1| && j <= |r2| && Extended(reg.rects, before, y1, y2, s) && Merged(s, a, i, b, j)
      invariant i < |r1| ==> j == |r2|
    {
      MergeFirst(s, a, i, b, j);
      MergeRect(reg, r1[i], y1, y2, before, s);
      s := Merge(s, a[i]);
      i := i + 1;
    }
    while j < |r2|
      invariant j <= |r2| && Extended(reg.rects, before, y1, y2, s) && Merged(s, a, i, b, j)
    {
      MergeSecond(s, a, i, b, j);
      MergeRect(reg, r2[j], y1, y2, before, s);
      s := Merge(s, b[j]);
      j := j + 1;
    }
    MergedAll(s, a, b);
  }

  lemma MergeSecond(s: seq<Span>, a: seq<Span>, i: nat, b: seq<Span>, j: nat)
    requires Merged(s, a, i, b, j) && j < |b| && (i < |a| ==> b[j].x1 <= a[i].x1)
    ensures Merged(Merge(s, b[j]), a, i, b, j + 1)
  {
    hide Merged, Merge;
    MergedSwap(s, a, i, b, j);
    MergeFirst(s, b, j, a, i);
    MergedSwap(Merge(s, b[j]), b, j + 1, a, i);
  }

  // ---------------------------------------------------------------- intersection

  /** miIntersectO. */
  method IntersectO(reg: Region, r1: seq<Box>, r2: seq<Box>, y1: int, y2: int, ghost a: seq<Span>, ghost b: seq<Span>)
    returns (ghost s: seq<Span>)
    requires RowOf(r1, a) && RowOf(r2, b) && Row(a) && Row(b)
    modifies reg`rects
    ensures Extended(reg.rects, old(reg.rects), y1, y2, s) && Row(s) && Is(Spans.Op.Intersect, s, a, b)
  {
    hide Extended, Row, In, Met;
    ghost var before := reg.rects;
    ExtendedNone(before, y1, y2);
    MetNone(a, b);
    s := [];
    var i: nat, j: nat := 0, 0;
    while i < |r1| && j < |r2|
      invariant i <= |r1| && j <= |r2| && Extended(reg.rects, before, y1, y2, s) && Met(s, a, i, b, j)
      decreases |r1| - i + |r2| - j
    {
      MeetStep(s, a, i, b, j);
      var x1, x2 := Max(r1[i].x1, r2[j].x1), Min(r1[i].x2, r2[j].x2);
      ghost var s' := Common(s, a[i], b[j]);
      if x1 < x2 {
        ExtendedOne(reg.rects, before, y1, y2, s, Span(x1, x2));
        reg.rects := reg.rects + [Box(x1, y1, x2, y2)];
      }
      s := s';
      if r1[i].x2 < r2[j].x2 {
        i := i + 1;
      } else if r2[j].x2 < r1[i].x2 {
        j := j + 1;
      } else {
        i, j := i + 1, j + 1;
      }
    }
    MetAll(s, a, i, b, j);
  }

  lemma MetAll(s: seq<Span>, a: seq<Span>, i: nat, b: seq<Span>, j: nat)
    requires Met(s, a, i, b, j) && (i == |a| || j == |b|)
    ensures Row(s) && Is(Spans.Op.Intersect, s, a, b)
  {
    hide Row, In;
  }

  // ---------------------------------------------------------------- subtraction

  /** miSubtractO: `x1` is the leftmost point of the minuend not looked at yet. */
  method SubtractO(reg: Region, r1: seq<Box>, r2: seq<Box>, y1: int, y2: int, ghost a: seq<Span>, ghost b: seq<Span>)
    returns (ghost s: seq<Span>)
    requires RowOf(r1, a) && RowOf(r2, b) && Row(a) && Row(b) && r1 != []
    modifies reg`rects
    ensures Extended(reg.rects, old(reg.rects), y1, y2, s) && Row(s) && Is(Spans.Op.Subtract, s, a, b)
  {
    hide Extended, Row, In, Cut, Fenced;
    ghost var before := reg.rects;
    ExtendedNone(before, y1, y2);
    CutNone(a, b);
    s := [];
    var x1 := r1[0].x1;
    var i: nat, j: nat := 0, 0;
    while i < |r1| && j < |r2|
      invariant i <= |r1| && j <= |r2| && Extended(reg.rects, before, y1, y2, s) && Cut(s, a, i, b, j, x1)
      decreases |r1| - i + |r2| - j
    {
      CutInside(s, a, i, b, j, x1);
      ghost var next := if i + 1 < |a| then a[i + 1].x1 else r2[j].x2;
      if r2[j].x2 <= x1 {
        CutMissed(s, a, i, b, j, x1);
        j := j + 1;
      } else if r2[j].x1 <= x1 {
        CutFenced(s, a, i, b, j, x1);
        CutAway(s, a, i, b, j, x1, next);
        x1 := r2[j].x2;
        if x1 >= r1[i].x2 {
          i := i + 1;
          if i != |r1| {
            x1 := r1[i].x1;
          }
        } else {
          j := j + 1;
        }
      } else if r2[j].x1 < r1[i].x2 {
        CutKeeps(s, a, i, b, j, x1, r2[j].x1);
        ExtendedOne(reg.rects, before, y1, y2, s, Span(x1, r2[j].x1));
        s := s + [Span(x1, r2[j].x1)];
        SpanOrdered(b, j);
        CutAway(s, a, i, b, j, r2[j].x1, next);
        reg.rects := reg.rects + [Box(x1, y1, r2[j].x1, y2)];
        x1 := r2[j].x2;
        if x1 >= r1[i].x2 {
          i := i + 1;
          if i != |r1| {
            x1 := r1[i].x1;
          }
        } else {
          j := j + 1;
        }
      } else {
        ghost var fence := x1;
        CutKeeps(s, a, i, b, j, x1, r1[i].x2);
        ExtendedOne(reg.rects, before, y1, y2, s, Span(x1, r1[i].x2));
        if r1[i].x2 > x1 {
          reg.rects := reg.rects + [Box(x1, y1, r1[i].x2, y2)];
        }
        s := s + [Span(x1, r1[i].x2)];
        NextMinuend(s, a, i, b, j, if i + 1 < |a| then a[i + 1].x1 else x1);
        i := i + 1;
        if i != |r1| {
          x1 := r1[i].x1;
        }
      }
    }
    while i < |r1|
      invariant i <= |r1| && j <= |r2| && Extended(reg.rects, before, y1, y2, s) && Cut(s, a, i, b, j, x1)
      invariant i < |r1| ==> j == |r2|
    {
      CutInside(s, a, i, b, j, x1);
      CutKeeps(s, a, i, b, j, x1, r1[i].x2);
      ExtendedOne(reg.rects, before, y1, y2, s, Span(x1, r1[i].x2));
      reg.rects := reg.rects + [Box(x1, y1, r1[i].x2, y2)];
      s := s + [Span(x1, r1[i].x2)];
      NextMinuend(s, a, i, b, j, if i + 1 < |a| then a[i + 1].x1 else x1);
      i := i + 1;
      if i != |r1| {
        x1 := r1[i].x1;
      }
    }
    CutAll(s, a, b, j, x1);
  }

  lemma CutInside(s: seq<Span>, a: seq<Span>, i: nat, b: seq<Span>, j: nat, x1: int)
    requires Cut(s, a, i, b, j, x1) && i < |a|
    ensures x1 < a[i].x2
  {
  }

  lemma SpanOrdered(b: seq<Span>, j: nat)
    requires Row(b) && j < |b|
    ensures b[j].x1 < b[j].x2
  {
  }

  lemma CutAll(s: seq<Span>, a: seq<Span>, b: seq<Span>, j: nat, x1: int)
    requires Cut(s, a, |a|, b, j, x1)
    ensures Row(s) && Is(Spans.Op.Subtract, s, a, b)
  {
    hide Row, In;
  }
}
