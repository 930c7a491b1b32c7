/** Questions about regions: equality, and whether points and rectangles lie inside. */
module RegionQueries {
  import opened Spans
  import opened Bands
  import opened RegionModel
  import opened RegionSweep
  import opened RegionOp
  import opened RegionOps

  // ---------------------------------------------------------------- equality

  /** XEqualRegion decides whether two regions are the same set of points. */
  method EqualRegions(r1: Region, r2: Region) returns (equal: bool)
    requires r1.Valid() && r2.Valid()
    ensures equal <==> SamePoints(r1.bands, r2.bands)
  {
    hide Canonical, Flatten, Tight, SamePoints;
    CanonicalUnique(r1.bands, r2.bands);
    if |r1.rects| != |r2.rects| {
      return false;
    }
    if |r1.rects| == 0 {
      return true;
    }
    SameExtents(r1, r2);
    if r1.extents.x1 != r2.extents.x1 || r1.extents.x2 != r2.extents.x2
      || r1.extents.y1 != r2.extents.y1 || r1.extents.y2 != r2.extents.y2 {
      return false;
    }
    var i := 0;
    while i < |r1.rects|
      invariant 0 <= i <= |r1.rects| && r1.rects[..i] == r2.rects[..i]
    {
      var p, q := r1.rects[i], r2.rects[i];
      if p.x1 != q.x1 || p.x2 != q.x2 || p.y1 != q.y1 || p.y2 != q.y2 {
        return false;
      }
      i := i + 1;
    }
    return true;
  }

  lemma SameExtents(r1: Region, r2: Region)
    requires r1.Valid() && r2.Valid() && r1.rects != [] && r2.rects != []
    ensures SamePoints(r1.bands, r2.bands) ==> r1.extents == r2.extents
  {
    hide Flatten, Tight, SamePoints;
    CanonicalUnique(r1.bands, r2.bands);
    if SamePoints(r1.bands, r2.bands) {
      TightUnique(r1.extents, r2.extents, r1.bands);
    }
  }

  /** XPointInRegion. */
  method PointInRegion(r: Region, x: int, y: int) returns (inside: bool)
    requires r.Valid()
    ensures inside <==> Contains(r.bands, x, y)
  {
    hide Canonical, Flatten, Contains, InBox;
    CanonicalSorted(r.bands);
    PointInBoxes(r.bands, x, y);
    if |r.rects| == 0 {
      return false;
    }
    if !InBox(r.extents, x, y) {
      return false;
    }
    var i := 0;
    while i < |r.rects|
      invariant 0 <= i <= |r.rects| && forall k | 0 <= k < i :: !InBox(r.rects[k], x, y)
    {
      if InBox(r.rects[i], x, y) {
        return true;
      }
      i := i + 1;
    }
    return false;
  }

  // ---------------------------------------------------------------- rectangles

  datatype Containment = RectangleOut | RectangleIn | RectanglePart

  /** All points of the rectangle on scan lines `lo` to `hi` are in the region ... */
  ghost predicate AllIn(bands: seq<Band>, p: Box, lo: int, hi: int)
  {
    forall x, y | p.x1 <= x < p.x2 && lo <= y < hi :: Contains(bands, x, y)
  }

  /** ... or none of them is. */
  ghost predicate AllOut(bands: seq<Band>, p: Box, lo: int, hi: int)
  {
    forall x, y | p.x1 <= x < p.x2 && lo <= y < hi :: !Contains(bands, x, y)
  }

  /** Boxes are ordered: next in the same band with a gap, or in a band below. */
  lemma {:induction false} BoxesOrdered(bands: seq<Band>, k: nat, m: nat)
    requires Canonical(bands) && k < m < |Flatten(bands)|
    ensures var r := Flatten(bands);
      || (r[m].y1 == r[k].y1 && r[m].y2 == r[k].y2 && r[m].x1 > r[k].x2)
      || r[m].y1 >= r[k].y2
    decreases |bands|
  {
    hide Mergeable, Row;
    var n := |bands| - 1;
    var r := Flatten(bands[..n]);
    PrefixCanonical(bands, n);
    BandRow(bands, n);
    CanonicalSorted(bands);
    if m < |r| {
      BoxesOrdered(bands[..n], k, m);
    } else if k < |r| {
      BoxOrder(bands[..n], k);
      CanonicalSorted(bands[..n]);
      LastBox(bands[..n]);
      BandsApart(bands, n - 1, n);
      BoxInBand(bands[n], m - |r|);
    } else {
      Apart(bands[n].row, k - |r|, m - |r|);
      BoxInBand(bands[n], m - |r|);
      BoxInBand(bands[n], k - |r|);
    }
  }

  /** From (`rx`, `ry`) on to the right and down, the boxes before `k` do not matter. */
  predicate Skipped(r: seq<Box>, k: nat, rx: int, ry: int)
  {
    k <= |r| && forall m | 0 <= m < k :: r[m].y2 <= ry || r[m].x2 <= rx
  }

  lemma SkippedPoint(bands: seq<Band>, k: nat, rx: int, ry: int, x: int, y: int)
    requires Canonical(bands) && Skipped(Flatten(bands), k, rx, ry) && rx <= x && ry <= y
    ensures Contains(bands, x, y) <==> exists m | k <= m < |Flatten(bands)| :: InBox(Flatten(bands)[m], x, y)
  {
    hide Canonical, Contains, Flatten;
    CanonicalSorted(bands);
    PointInBoxes(bands, x, y);
  }

  /** What box `k` shows about the points to its left, in it, and just behind it. */
  lemma NextBox(bands: seq<Band>, k: nat, rx: int, ry: int, x: int, y: int)
    requires Canonical(bands) && Skipped(Flatten(bands), k, rx, ry) && k < |Flatten(bands)| && rx <= x && ry <= y
    ensures y < Flatten(bands)[k].y1 ==> !Contains(bands, x, y)
    ensures Flatten(bands)[k].y1 <= y < Flatten(bands)[k].y2 && x <= Flatten(bands)[k].x2 ==>
      (Contains(bands, x, y) <==> Flatten(bands)[k].x1 <= x < Flatten(bands)[k].x2)
  {
    hide Canonical, Contains, Flatten;
    SkippedPoint(bands, k, rx, ry, x, y);
    var r := Flatten(bands);
    forall m | k <= m < |r|
      ensures m > k ==> InBox(r[m], x, y) ==> y >= r[k].y2 || (r[k].y1 <= y && x > r[k].x2)
    {
      BoxOrder(bands, k);
      if m > k {
        BoxesOrdered(bands, k, m);
      }
    }
    BoxOrder(bands, k);
    assert r[k].y1 <= y < r[k].y2 && r[k].x1 <= x < r[k].x2 ==> InBox(r[k], x, y);
  }

  /** What is known before box `k` is looked at: the scan lines above `ry` are all inside, or all
      outside; that some part is out is only noted while none is in. */
  ghost predicate Scanning(bands: seq<Band>, p: Box, k: nat, ry: int, partIn: bool, partOut: bool)
  {
    && Canonical(bands) && p.x1 < p.x2 && p.y1 <= ry < p.y2 && Skipped(Flatten(bands), k, p.x1, ry)
    && (if partIn then !partOut && p.y1 < ry && AllIn(bands, p, p.y1, ry) else AllOut(bands, p, p.y1, ry))
    && (!partIn && !partOut ==> ry == p.y1) && (partOut ==> p.y1 < ry)
  }

  /** Some points of the rectangle are in the region, and some are not. */
  ghost predicate Mixed(bands: seq<Band>, p: Box)
  {
    !AllIn(bands, p, p.y1, p.y2) && !AllOut(bands, p, p.y1, p.y2)
  }

  lemma SomeIn(bands: seq<Band>, p: Box, x: int, y: int)
    requires InBox(p, x, y)
    ensures Contains(bands, x, y) ==> !AllOut(bands, p, p.y1, p.y2)
    ensures !Contains(bands, x, y) ==> !AllIn(bands, p, p.y1, p.y2)
  {
  }

  /** Lines above the next box. */
  lemma GapAbove(bands: seq<Band>, p: Box, k: nat, ry: int, partIn: bool, partOut: bool)
    requires Scanning(bands, p, k, ry, partIn, partOut) && k < |Flatten(bands)| && Flatten(bands)[k].y1 > ry
    ensures partIn ==> Mixed(bands, p)
    ensures !partIn ==> AllOut(bands, p, p.y1, Flatten(bands)[k].y1)
    ensures Skipped(Flatten(bands), k, p.x1, Flatten(bands)[k].y1)
  {
    hide Canonical, Contains, Flatten;
    var y1 := Flatten(bands)[k].y1;
    forall x, y | p.x1 <= x < p.x2 && ry <= y < y1
      ensures !Contains(bands, x, y)
    {
      NextBox(bands, k, p.x1, ry, x, y);
    }
    if partIn {
      SomeIn(bands, p, p.x1, p.y1);
      SomeIn(bands, p, p.x1, ry);
    }
  }

  /** A box on line `ry` that starts to the right of the rectangle's left edge. */
  lemma GapLeft(bands: seq<Band>, p: Box, k: nat, ry: int, partIn: bool, partOut: bool)
    requires Scanning(bands, p, k, ry, partIn, partOut) && k < |Flatten(bands)|
    requires Flatten(bands)[k].y1 <= ry < Flatten(bands)[k].y2 && Flatten(bands)[k].x1 > p.x1
    ensures !Contains(bands, p.x1, ry) && !AllIn(bands, p, p.y1, p.y2)
    ensures partIn ==> Mixed(bands, p)
  {
    hide Canonical, Contains, Flatten;
    BoxOrder(bands, k);
    NextBox(bands, k, p.x1, ry, p.x1, ry);
    SomeIn(bands, p, p.x1, ry);
    if partIn {
      SomeIn(bands, p, p.x1, p.y1);
    }
  }

  /** A box on line `ry` that reaches into the rectangle. */
  lemma Reaches(bands: seq<Band>, p: Box, k: nat, ry: int, partIn: bool, partOut: bool)
    requires Scanning(bands, p, k, ry, partIn, partOut) && k < |Flatten(bands)|
    requires Flatten(bands)[k].y1 <= ry < Flatten(bands)[k].y2 && p.x1 < Flatten(bands)[k].x2
        && Flatten(bands)[k].x1 < p.x2
    ensures !AllOut(bands, p, p.y1, p.y2)
    ensures Flatten(bands)[k].x2 < p.x2 ==> !AllIn(bands, p, p.y1, p.y2)
  {
    hide Canonical, Contains, Flatten;
    var b := Flatten(bands)[k];
    BoxOrder(bands, k);
    var x := if b.x1 > p.x1 then b.x1 else p.x1;
    NextBox(bands, k, p.x1, ry, x, ry);
    SomeIn(bands, p, x, ry);
    if b.x2 < p.x2 {
      NextBox(bands, k, p.x1, ry, b.x2, ry);
      SomeIn(bands, p, b.x2, ry);
    }
  }

  /** A box on line `ry` that goes beyond the right edge: the rest of its band is like its first line. */
  lemma BandDone(bands: seq<Band>, p: Box, k: nat, ry: int, partIn: bool, partOut: bool, lo: int)
    requires Scanning(bands, p, k, ry, partIn, partOut) && k < |Flatten(bands)|
    requires Flatten(bands)[k].y1 <= ry < Flatten(bands)[k].y2 && p.x2 <= Flatten(bands)[k].x2
    requires lo == if Flatten(bands)[k].y2 < p.y2 then Flatten(bands)[k].y2 else p.y2
    ensures Flatten(bands)[k].x1 <= p.x1 && (partIn || !partOut) ==> AllIn(bands, p, p.y1, lo)
    ensures Flatten(bands)[k].x1 >= p.x2 && !partIn ==> AllOut(bands, p, p.y1, lo)
    ensures Skipped(Flatten(bands), k + 1, p.x1, Flatten(bands)[k].y2)
  {
    hide Canonical, Contains, Flatten;
    var b := Flatten(bands)[k];
    forall x, y | p.x1 <= x < p.x2 && ry <= y < lo
      ensures Contains(bands, x, y) <==> b.x1 <= x
    {
      NextBox(bands, k, p.x1, ry, x, y);
    }
  }

  /** At the end of the boxes the lines from `ry` on are outside. */
  lemma BoxesEnd(bands: seq<Band>, p: Box, k: nat, ry: int, partIn: bool, partOut: bool)
    requires Scanning(bands, p, k, ry, partIn, partOut) && k == |Flatten(bands)|
    ensures partIn ==> Mixed(bands, p)
    ensures !partIn ==> AllOut(bands, p, p.y1, p.y2)
  {
    hide Canonical, Contains, Flatten;
    forall x, y | p.x1 <= x < p.x2 && ry <= y < p.y2
      ensures !Contains(bands, x, y)
    {
      SkippedPoint(bands, k, p.x1, ry, x, y);
    }
    if partIn {
      SomeIn(bands, p, p.x1, p.y1);
      SomeIn(bands, p, p.x1, ry);
    }
  }

  lemma OutsideExtents(e: Box, bands: seq<Band>, p: Box)
    requires Tight(e, bands) && !RegionModel.Overlap(e, p)
    ensures AllOut(bands, p, p.y1, p.y2)
  {
    hide Contains;
  }

  lemma EmptyOut(bands: seq<Band>, p: Box)
    requires Canonical(bands) && Flatten(bands) == []
    ensures AllOut(bands, p, p.y1, p.y2)
  {
    hide Canonical, In, RowAt;
    NoBands(bands);
    forall x, y
      ensures !Contains([], x, y)
    {
      EmptyRows(y);
      NoPoint(x);
    }
  }

  /** XRectInRegion, for a nonempty rectangle: In, Out or Part exactly as all, none or some of its
      points are in the region. */
  method RectInRegion(region: Region, rx0: int, ry0: int, rwidth: int, rheight: int) returns (res: Containment)
    requires region.Valid() && rwidth > 0 && rheight > 0
    ensures res.RectangleIn? <==> AllIn(region.bands, Box(rx0, ry0, rx0 + rwidth, ry0 + rheight), ry0, ry0 + rheight)
    ensures res.RectangleOut? <==> AllOut(region.bands, Box(rx0, ry0, rx0 + rwidth, ry0 + rheight), ry0, ry0 + rheight)
  {
    hide Canonical, Contains, Flatten, Tight, AllIn, AllOut, Skipped;
    var p := Box(rx0, ry0, rx0 + rwidth, ry0 + rheight);
    ghost var bands := region.bands;
    NotBoth(bands, p);
    if region.rects == [] {
      EmptyOut(bands, p);
      return RectangleOut;
    }
    if !RegionModel.Overlap(region.extents, p) {
      OutsideExtents(region.extents, bands, p);
      return RectangleOut;
    }
    var rx, ry := rx0, ry0;
    var partIn, partOut := false, false;
    var k: nat := 0;
    ScanStarts(bands, p);
    while k < |region.rects|
      invariant k <= |region.rects| && rx == p.x1 && Scanning(bands, p, k, ry, partIn, partOut)
    {
      var b := region.rects[k];
      SkipBox(bands, p, k, ry, partIn, partOut);
      BoxOrder(bands, k);
      if b.y2 <= ry {
        k := k + 1;
        continue;
      }
      if b.y1 > ry {
        GapAbove(bands, p, k, ry, partIn, partOut);
        partOut := true;
        if partIn || b.y1 >= p.y2 {
          OutUpTo(bands, p, b.y1);
          return if partIn then (if ry < p.y2 then RectanglePart else RectangleIn) else RectangleOut;
        }
        ry := b.y1;
        SkipBox(bands, p, k, ry, partIn, partOut);
      }
      if b.x2 <= rx {
        k := k + 1;
        continue;
      }
      ghost var before := partOut;
      if b.x1 > rx {
        GapLeft(bands, p, k, ry, partIn, partOut);
        partOut := true;
        if partIn {
          return if ry < p.y2 then RectanglePart else RectangleIn;
        }
      }
      ghost var wasIn := partIn;
      if b.x1 < p.x2 {
        Reaches(bands, p, k, ry, partIn, before);
        partIn := true;
        if partOut {
          StillOut(bands, p, k, ry, wasIn, before);
          return if ry < p.y2 then RectanglePart else RectangleIn;
        }
      }
      if b.x2 >= p.x2 {
        BandDone(bands, p, k, ry, wasIn, before, if b.y2 < p.y2 then b.y2 else p.y2);
        ry := b.y2;
        if ry >= p.y2 {
          return if partIn then RectangleIn else RectangleOut;
        }
        rx := p.x1;
      } else {
        return if partIn then (if ry < p.y2 then RectanglePart else RectangleIn) else RectangleOut;
      }
      k := k + 1;
    }
    BoxesEnd(bands, p, k, ry, partIn, partOut);
    return if partIn then (if ry < p.y2 then RectanglePart else RectangleIn) else RectangleOut;
  }

  lemma NotBoth(bands: seq<Band>, p: Box)
    requires p.x1 < p.x2 && p.y1 < p.y2
    ensures !(AllIn(bands, p, p.y1, p.y2) && AllOut(bands, p, p.y1, p.y2))
  {
    hide Contains;
    SomeIn(bands, p, p.x1, p.y1);
  }

  lemma ScanStarts(bands: seq<Band>, p: Box)
    requires Canonical(bands) && p.x1 < p.x2 && p.y1 < p.y2
    ensures Scanning(bands, p, 0, p.y1, false, false)
  {
  }

  lemma SkipBox(bands: seq<Band>, p: Box, k: nat, ry: int, partIn: bool, partOut: bool)
    requires Scanning(bands, p, k, ry, partIn, partOut) && k < |Flatten(bands)|
    ensures Flatten(bands)[k].y2 <= ry || Flatten(bands)[k].x2 <= p.x1 ==>
        Scanning(bands, p, k + 1, ry, partIn, partOut)
  {
    hide Canonical, Contains, Flatten, AllIn, AllOut;
  }

  lemma OutUpTo(bands: seq<Band>, p: Box, hi: int)
    ensures AllOut(bands, p, p.y1, hi) && hi >= p.y2 ==> AllOut(bands, p, p.y1, p.y2)
  {
    hide Contains;
  }

  /** Something above `ry`, or on it, was out before. */
  lemma StillOut(bands: seq<Band>, p: Box, k: nat, ry: int, partIn: bool, partOut: bool)
    requires Scanning(bands, p, k, ry, partIn, partOut)
    ensures partOut ==> !AllIn(bands, p, p.y1, p.y2)
  {
    hide Canonical, Contains, Flatten;
    if partOut {
      SomeIn(bands, p, p.x1, p.y1);
    }
  }
}
