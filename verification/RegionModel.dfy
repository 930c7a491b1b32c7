/** The region object: an array of boxes and their bounding box. */
module RegionModel {
  import opened Spans
  import opened Bands

  /** `e` is the smallest box around the region. */
  ghost predicate Tight(e: Box, bands: seq<Band>)
  {
    && (forall x, y :: Contains(bands, x, y) ==> InBox(e, x, y))
    && OnColumn(bands, e.x1) && OnColumn(bands, e.x2 - 1)
    && OnRow(bands, e.y1) && OnRow(bands, e.y2 - 1)
  }

  ghost predicate OnColumn(bands: seq<Band>, x: int) { exists y :: Contains(bands, x, y) }

  ghost predicate OnRow(bands: seq<Band>, y: int) { exists x :: Contains(bands, x, y) }

  predicate InBox(b: Box, x: int, y: int) { b.x1 <= x < b.x2 && b.y1 <= y < b.y2 }

  /** Two boxes have points in common. */
  predicate Overlap(p: Box, q: Box) { p.x2 > q.x1 && p.x1 < q.x2 && p.y2 > q.y1 && p.y1 < q.y2 }

  class Region {
    var rects: seq<Box>
    var extents: Box
    ghost var bands: seq<Band>

    /** The boxes are those of canonical bands. */
    ghost predicate Banded()
      reads this
    {
      Canonical(bands) && rects == Flatten(bands)
    }

    ghost predicate Valid()
      reads this
    {
      Banded() && (rects != [] ==> Tight(extents, bands))
    }

    /** XCreateRegion. */
    constructor ()
      ensures Valid() && bands == []
    {
      rects, extents, bands := [], Box(0, 0, 0, 0), [];
    }
  }

  lemma TightUnique(e: Box, f: Box, bands: seq<Band>)
    requires Tight(e, bands) && Tight(f, bands)
    ensures e == f
  {
    hide Contains;
  }

  /** The intervals of some boxes. */
  predicate RowOf(r: seq<Box>, a: seq<Span>)
  {
    |r| == |a| && forall i | 0 <= i < |r| :: r[i].x1 == a[i].x1 && r[i].x2 == a[i].x2
  }

  lemma BoxesRow(b: Band)
    ensures RowOf(BoxesOf(b), b.row)
    ensures forall i | 0 <= i < |b.row| :: BoxesOf(b)[i].y1 == b.y1 && BoxesOf(b)[i].y2 == b.y2
  {
  }

  lemma BoxesSnoc(y1: int, y2: int, s: seq<Span>, p: Span)
    ensures BoxesOf(Band(y1, y2, s + [p])) == BoxesOf(Band(y1, y2, s)) + [Box(p.x1, y1, p.x2, y2)]
  {
  }

  // ---------------------------------------------------------------- boxes and points

  lemma BoxAt(b: Band, x: int, y: int)
    ensures (exists i | 0 <= i < |BoxesOf(b)| :: InBox(BoxesOf(b)[i], x, y)) <==> (OnLine(b, y) && In(b.row, x))
  {
    if OnLine(b, y) && In(b.row, x) {
      var i :| 0 <= i < |b.row| && At(b.row[i], x);
      assert InBox(BoxesOf(b)[i], x, y);
    }
    if i :| 0 <= i < |BoxesOf(b)| && InBox(BoxesOf(b)[i], x, y) {
      assert At(b.row[i], x);
    }
  }

  ghost predicate InBoxes(r: seq<Box>, x: int, y: int) { exists i | 0 <= i < |r| :: InBox(r[i], x, y) }

  lemma InBoxesConcat(r: seq<Box>, q: seq<Box>, x: int, y: int)
    ensures InBoxes(r + q, x, y) <==> (InBoxes(r, x, y) || InBoxes(q, x, y))
  {
    hide InBox;
    if i :| 0 <= i < |r| && InBox(r[i], x, y) {
      assert InBox((r + q)[i], x, y);
    }
    if i :| 0 <= i < |q| && InBox(q[i], x, y) {
      assert InBox((r + q)[|r| + i], x, y);
    }
  }

  /** A point is in the region just when it is in one of its boxes. */
  lemma {:induction false} PointInBoxes(bands: seq<Band>, x: int, y: int)
    requires Sorted(bands)
    ensures InBoxes(Flatten(bands), x, y) <==> Contains(bands, x, y)
    decreases |bands|
  {
    hide BoxesOf, InBox, In;
    if bands == [] {
      NoPoint(x);
    } else {
      var n := |bands| - 1;
      InBoxesConcat(Flatten(bands[..n]), BoxesOf(bands[n]), x, y);
      PointInBoxes(bands[..n], x, y);
      BoxAt(bands[n], x, y);
      PrefixCanonicalRow(bands, y);
      NoPoint(x);
    }
  }

  lemma NoPoint(x: int)
    ensures !In([], x)
  {
  }

  lemma PrefixCanonicalRow(a: seq<Band>, y: int)
    requires Sorted(a) && a != []
    ensures RowAt(a[..|a| - 1], y) == if OnLine(a[|a| - 1], y) then [] else RowAt(a, y)
  {
    hide Proper;
    var n := |a| - 1;
    if OnLine(a[n], y) {
      if n > 0 {
        BandsApart(a, n - 1, n);
      }
      RowAtBetween(a[..n], n, y);
    }
  }
}
