/** Union, intersection, subtraction and exclusive or of regions: shortcuts, the sweep, and the
    extents. */
module RegionOps {
  import opened Spans
  import opened SpanOps
  import opened Bands
  import opened RegionModel
  import opened RegionSweep
  import opened RegionOp

  // ---------------------------------------------------------------- extents

  ghost predicate Bounds(e: Box, r: seq<Box>, n: nat)
    requires n <= |r|
  {
    && (forall k | 0 <= k < n :: e.x1 <= r[k].x1 && r[k].x2 <= e.x2)
    && (exists k :: 0 <= k < |r| && r[k].x1 == e.x1) && (exists k :: 0 <= k < |r| && r[k].x2 == e.x2)
  }

  /** miSetExtents. */
  method SetExtents(reg: Region)
    requires reg.Banded()
    modifies reg`extents
    ensures reg.Valid()
  {
    hide Canonical, Flatten, Tight;
    var r := reg.rects;
    if r == [] {
      reg.extents := Box(0, 0, 0, 0);
      return;
    }
    var last := |r| - 1;
    var e := Box(r[0].x1, r[0].y1, r[last].x2, r[last].y2);
    var i := 0;
    while i <= last
      invariant 0 <= i <= |r| && e.y1 == r[0].y1 && e.y2 == r[last].y2
      invariant Bounds(e, r, i)
    {
      if r[i].x1 < e.x1 {
        e := e.(x1 := r[i].x1);
      }
      if r[i].x2 > e.x2 {
        e := e.(x2 := r[i].x2);
      }
      i := i + 1;
    }
    BoundsTight(reg.bands, e);
    reg.extents := e;
  }

  lemma BoundsTight(bands: seq<Band>, e: Box)
    requires Canonical(bands)
    requires var r := Flatten(bands); r != [] && Bounds(e, r, |r|) && e.y1 == r[0].y1 && e.y2 == r[|r| - 1].y2
    ensures Tight(e, bands)
  {
    hide Canonical, Flatten, Contains;
    var r := Flatten(bands);
    forall k | 0 <= k < |r|
      ensures r[k].x1 < r[k].x2 && r[k].y1 < r[k].y2 && e.y1 <= r[k].y1 && r[k].y2 <= e.y2
    {
      BoxOrder(bands, k);
    }
    forall x, y | Contains(bands, x, y)
      ensures InBox(e, x, y)
    {
      CanonicalSorted(bands);
      PointInBoxes(bands, x, y);
    }
    var k1 :| 0 <= k1 < |r| && r[k1].x1 == e.x1;
    var k2 :| 0 <= k2 < |r| && r[k2].x2 == e.x2;
    BoxPoint(bands, k1, r[k1].x1, r[k1].y1);
    BoxPoint(bands, k2, r[k2].x2 - 1, r[k2].y1);
    BoxPoint(bands, 0, r[0].x1, r[0].y1);
    BoxPoint(bands, |r| - 1, r[|r| - 1].x1, r[|r| - 1].y2 - 1);
  }

  lemma BoxPoint(bands: seq<Band>, k: nat, x: int, y: int)
    requires Canonical(bands) && k < |Flatten(bands)| && InBox(Flatten(bands)[k], x, y)
    ensures Contains(bands, x, y)
  {
    CanonicalSorted(bands);
    PointInBoxes(bands, x, y);
  }

  /** Every box is proper and lies between the top of the first and the bottom of the last. */
  lemma {:induction false} BoxOrder(bands: seq<Band>, k: nat)
    requires Canonical(bands) && k < |Flatten(bands)|
    ensures var r := Flatten(bands);
      r[k].x1 < r[k].x2 && r[k].y1 < r[k].y2 && r[0].y1 <= r[k].y1 && r[k].y2 <= r[|r| - 1].y2
    decreases |bands|
  {
    hide Row, Mergeable;
    var n := |bands| - 1;
    PrefixCanonical(bands, n);
    BandRow(bands, n);
    CanonicalSorted(bands);
    LastBox(bands);
    var r := Flatten(bands[..n]);
    if k < |r| {
      BoxOrder(bands[..n], k);
      CanonicalSorted(bands[..n]);
      LastBox(bands[..n]);
      BandsApart(bands, n - 1, n);
    } else {
      BoxInBand(bands[n], k - |r|);
      if |r| > 0 {
        BoxOrder(bands[..n], 0);
        CanonicalSorted(bands[..n]);
        LastBox(bands[..n]);
        BandsApart(bands, n - 1, n);
        BoxOrder(bands[..n], |r| - 1);
      }
    }
  }

  lemma BoxInBand(b: Band, i: nat)
    requires Proper(b) && i < |BoxesOf(b)|
    ensures BoxesOf(b)[i].x1 < BoxesOf(b)[i].x2 && BoxesOf(b)[i].y1 == b.y1 && BoxesOf(b)[i].y2 == b.y2
  {
  }

  // ---------------------------------------------------------------- shortcuts

  /** miRegionCopy. */
  method CopyRegion(dst: Region, src: Region)
    modifies dst
    ensures dst.rects == old(src.rects) && dst.bands == old(src.bands) && dst.extents == old(src.extents)
  {
    if dst != src {
      dst.rects, dst.extents, dst.bands := src.rects, src.extents, src.bands;
    }
  }

  lemma NoBands(b: seq<Band>)
    requires Canonical(b) && Flatten(b) == []
    ensures b == []
  {
    CanonicalSorted(b);
    if b != [] {
      LastBox(b);
    }
  }

  lemma EmptyRows(y: int)
    ensures RowAt([], y) == []
  {
  }

  /** The operations where a region, or what the two have in common, is empty. */
  lemma WithEmpty(a: seq<Band>)
    requires Canonical(a)
    ensures ResultOf(Union, a, a, []) && ResultOf(Union, a, [], a) && ResultOf(Union, a, a, a)
    ensures ResultOf(Subtract, a, a, []) && ResultOf(Subtract, [], [], a)
    ensures ResultOf(Intersect, [], a, []) && ResultOf(Intersect, [], [], a)
  {
    hide Canonical, RowAt, In;
    assert Canonical([]) by { NothingYet(); }
    forall y
      ensures RowAt([], y) == []
    {
      EmptyRows(y);
    }
    forall x
      ensures !In([], x)
    {
      NoPoint(x);
    }
  }

  lemma Disjoint(e: Box, a: seq<Band>, f: Box, b: seq<Band>)
    requires Canonical(a) && Canonical(b) && Tight(e, a) && Tight(f, b) && !Overlap(e, f)
    ensures ResultOf(Intersect, [], a, b) && ResultOf(Subtract, a, a, b)
  {
    hide Canonical, RowAt, In;
    assert Canonical([]) by { NothingYet(); }
    forall x, y
      ensures !(Contains(a, x, y) && Contains(b, x, y)) && !Contains([], x, y)
    {
      EmptyRows(y);
      NoPoint(x);
    }
    forall y
      ensures LineIs(Intersect, RowAt([], y), a, b, y) && LineIs(Subtract, RowAt(a, y), a, b, y)
    {
      forall x
        ensures !(In(RowAt(a, y), x) && In(RowAt(b, y), x)) && !In(RowAt([], y), x)
      {
        assert !(Contains(a, x, y) && Contains(b, x, y)) && !Contains([], x, y);
      }
    }
  }

  /** A region that is one box covers all regions with extents inside its own. */
  lemma Subsumed(e: Box, a: seq<Band>, f: Box, b: seq<Band>)
    requires Canonical(a) && Canonical(b) && |Flatten(a)| == 1 && Tight(e, a) && Tight(f, b)
    requires e.x1 <= f.x1 && e.y1 <= f.y1 && e.x2 >= f.x2 && e.y2 >= f.y2
    ensures ResultOf(Union, a, a, b) && ResultOf(Union, a, b, a)
  {
    hide Canonical, RowAt, In, Flatten;
    var k := Flatten(a)[0];
    CanonicalSorted(a);
    forall x, y
      ensures InBox(k, x, y) <==> Contains(a, x, y)
    {
      PointInBoxes(a, x, y);
    }
    OneBoxTight(a, e);
    forall y
      ensures LineIs(Union, RowAt(a, y), a, b, y) && LineIs(Union, RowAt(a, y), b, a, y)
    {
      forall x
        ensures In(RowAt(b, y), x) ==> In(RowAt(a, y), x)
      {
        assert Contains(b, x, y) ==> InBox(f, x, y);
        assert InBox(k, x, y) <==> Contains(a, x, y);
      }
    }
  }

  lemma OneBoxTight(a: seq<Band>, e: Box)
    requires Canonical(a) && |Flatten(a)| == 1 && Tight(e, a)
    ensures e == Flatten(a)[0]
  {
    hide Canonical, Flatten;
    var r := Flatten(a);
    BoxOrder(a, 0);
    assert Bounds(r[0], r, 1);
    BoundsTight(a, r[0]);
    TightUnique(e, r[0], a);
  }

  lemma TightUnion(e: Box, a: seq<Band>, f: Box, b: seq<Band>, r: seq<Band>)
    requires ResultOf(Union, r, a, b) && Tight(e, a) && Tight(f, b)
    ensures Tight(Box(Min(e.x1, f.x1), Min(e.y1, f.y1), Max(e.x2, f.x2), Max(e.y2, f.y2)), r)
  {
    hide Canonical, Contains;
    forall x, y
      ensures Contains(r, x, y) <==> (Contains(a, x, y) || Contains(b, x, y))
    {
      ResultPoints(Union, r, a, b, x, y);
    }
  }

  // ---------------------------------------------------------------- the operations

  /** The result of an operation, as points of its boxes: those in some box of one or the other list, in both, or in the
      first and not the second. */
  lemma BoxLaw(op: Op, r: seq<Band>, a: seq<Band>, b: seq<Band>, x: int, y: int)
    requires ResultOf(op, r, a, b) && Canonical(a) && Canonical(b)
    ensures var inA, inB := InBoxes(Flatten(a), x, y), InBoxes(Flatten(b), x, y);
      InBoxes(Flatten(r), x, y) <==> match op case Union => inA || inB case Intersect => inA && inB
                                              case Subtract => inA && !inB
  {
    hide Flatten, InBoxes, Contains, Canonical;
    ResultCanonical(op, r, a, b);
    CanonicalSorted(a);
    CanonicalSorted(b);
    CanonicalSorted(r);
    PointInBoxes(a, x, y);
    PointInBoxes(b, x, y);
    PointInBoxes(r, x, y);
    ResultPoints(op, r, a, b, x, y);
  }

  lemma ResultCanonical(op: Op, r: seq<Band>, a: seq<Band>, b: seq<Band>)
    requires ResultOf(op, r, a, b)
    ensures Canonical(r)
  {
    hide Canonical;
  }

  /** XUnionRegion. */
  method UnionRegions(reg1: Region, reg2: Region, newReg: Region)
    requires reg1.Valid() && reg2.Valid()
    modifies newReg
    ensures newReg.Valid() && ResultOf(Union, newReg.bands, old(reg1.bands), old(reg2.bands))
  {
    hide Canonical, Flatten, Tight, ResultOf;
    ghost var a, b := reg1.bands, reg2.bands;
    if reg1 == reg2 || reg1.rects == [] {
      UnionTrivial(reg1, reg2);
      CopyRegion(newReg, reg2);
      return;
    }
    if reg2.rects == [] {
      NoBands(b);
      WithEmpty(a);
      CopyRegion(newReg, reg1);
      return;
    }
    if |reg1.rects| == 1 && Inside(reg2.extents, reg1.extents) {
      Subsumed(reg1.extents, a, reg2.extents, b);
      CopyRegion(newReg, reg1);
      return;
    }
    if |reg2.rects| == 1 && Inside(reg1.extents, reg2.extents) {
      Subsumed(reg2.extents, b, reg1.extents, a);
      CopyRegion(newReg, reg2);
      return;
    }
    ghost var e, f := reg1.extents, reg2.extents;
    CombineRegions(newReg, reg1, reg2, Union);
    TightUnion(e, a, f, b, newReg.bands);
    newReg.extents := Box(Min(reg1.extents.x1, reg2.extents.x1), Min(reg1.extents.y1, reg2.extents.y1),
                          Max(reg1.extents.x2, reg2.extents.x2), Max(reg1.extents.y2, reg2.extents.y2));
  }

  predicate Inside(f: Box, e: Box) { e.x1 <= f.x1 && e.y1 <= f.y1 && e.x2 >= f.x2 && e.y2 >= f.y2 }

  lemma UnionTrivial(reg1: Region, reg2: Region)
    requires reg1.Valid() && reg2.Valid() && (reg1 == reg2 || reg1.rects == [])
    ensures ResultOf(Union, reg2.bands, reg1.bands, reg2.bands)
  {
    hide Canonical, Flatten, Tight, ResultOf;
    WithEmpty(reg2.bands);
    if reg1 != reg2 {
      NoBands(reg1.bands);
    }
  }

  /** XIntersectRegion. */
  method IntersectRegions(reg1: Region, reg2: Region, newReg: Region)
    requires reg1.Valid() && reg2.Valid() && !(reg1 == reg2 == newReg)
    modifies newReg
    ensures newReg.Valid() && ResultOf(Intersect, newReg.bands, old(reg1.bands), old(reg2.bands))
  {
    hide Canonical, Flatten, Tight, ResultOf;
    if reg1.rects == [] || reg2.rects == [] || !Overlap(reg1.extents, reg2.extents) {
      IntersectTrivial(reg1, reg2);
      NothingYet();
      newReg.rects, newReg.bands := [], [];
    } else {
      CombineRegions(newReg, reg1, reg2, Intersect);
    }
    SetExtents(newReg);
  }

  lemma IntersectTrivial(reg1: Region, reg2: Region)
    requires reg1.Valid() && reg2.Valid()
        && (reg1.rects == [] || reg2.rects == [] || !Overlap(reg1.extents, reg2.extents))
    ensures ResultOf(Intersect, [], reg1.bands, reg2.bands) && ResultOf(Subtract, reg1.bands, reg1.bands, reg2.bands)
  {
    hide Canonical, Flatten, Tight, ResultOf;
    WithEmpty(reg1.bands);
    WithEmpty(reg2.bands);
    if reg1.rects == [] {
      NoBands(reg1.bands);
    } else if reg2.rects == [] {
      NoBands(reg2.bands);
    } else {
      Disjoint(reg1.extents, reg1.bands, reg2.extents, reg2.bands);
    }
  }

  /** XSubtractRegion. */
  method SubtractRegions(regM: Region, regS: Region, regD: Region)
    requires regM.Valid() && regS.Valid() && !(regM == regS == regD)
    modifies regD
    ensures regD.Valid() && ResultOf(Subtract, regD.bands, old(regM.bands), old(regS.bands))
  {
    hide Canonical, Flatten, Tight, ResultOf;
    if regM.rects == [] || regS.rects == [] || !Overlap(regM.extents, regS.extents) {
      IntersectTrivial(regM, regS);
      CopyRegion(regD, regM);
    } else {
      CombineRegions(regD, regM, regS, Subtract);
      SetExtents(regD);
    }
  }

  /** Exactly the points of one region but not the other. */
  ghost predicate XorOf(r: seq<Band>, a: seq<Band>, b: seq<Band>)
  {
    forall x, y :: Contains(r, x, y) <==> Contains(a, x, y) != Contains(b, x, y)
  }

  /** XXorRegion. */
  method XorRegions(sra: Region, srb: Region, dr: Region)
    requires sra.Valid() && srb.Valid()
    modifies dr
    ensures dr.Valid() && XorOf(dr.bands, old(sra.bands), old(srb.bands))
  {
    hide Canonical, Flatten, Tight, ResultOf, Contains;
    ghost var a, b := sra.bands, srb.bands;
    var tra := new Region();
    var trb := new Region();
    SubtractRegions(sra, srb, tra);
    SubtractRegions(srb, sra, trb);
    ghost var d1, d2 := tra.bands, trb.bands;
    UnionRegions(tra, trb, dr);
    forall x, y
      ensures Contains(dr.bands, x, y) <==> Contains(a, x, y) != Contains(b, x, y)
    {
      ResultPoints(Subtract, d1, a, b, x, y);
      ResultPoints(Subtract, d2, b, a, x, y);
      ResultPoints(Union, dr.bands, d1, d2, x, y);
    }
  }
}
