/** miCoalesce: stretch the previous band of a region under construction over the band just added,
    if the two line up. */
module Coalesce {
  import opened Spans
  import opened Bands
  import opened RegionModel

  /** Index of the first box of band `i`. */
  function StartOf(bands: seq<Band>, i: nat): nat
    requires i <= |bands|
  {
    |Flatten(bands[..i])|
  }

  lemma StartNext(bands: seq<Band>, i: nat)
    requires i < |bands|
    ensures StartOf(bands, i + 1) == StartOf(bands, i) + |bands[i].row|
    ensures StartOf(bands, i + 1) <= |Flatten(bands)|
    ensures Flatten(bands)[StartOf(bands, i)..StartOf(bands, i + 1)] == BoxesOf(bands[i])
    ensures Flatten(bands)[..StartOf(bands, i)] == Flatten(bands[..i])
    ensures Flatten(bands)[StartOf(bands, i + 1)..] == Flatten(bands[i + 1..])
    ensures Flatten(bands) == Flatten(bands[..i]) + BoxesOf(bands[i]) + Flatten(bands[i + 1..])
  {
    hide BoxesOf;
    assert bands[..i + 1] == bands[..i] + [bands[i]];
    FlattenSnoc(bands[..i], bands[i]);
    assert bands == bands[..i + 1] + bands[i + 1..];
    FlattenConcat(bands[..i + 1], bands[i + 1..]);
  }

  lemma StartEnd(bands: seq<Band>)
    ensures StartOf(bands, |bands|) == |Flatten(bands)|
    ensures StartOf(bands, 0) == 0
  {
    assert bands[..|bands|] == bands;
  }

  /** A box belongs to band `i` just when it has its top. */
  lemma TopOfBand(bands: seq<Band>, i: nat, k: nat)
    requires Sorted(bands) && i < |bands| && StartOf(bands, i) <= k < |Flatten(bands)|
    ensures StartOf(bands, i + 1) == StartOf(bands, i) + |bands[i].row|
    ensures k < StartOf(bands, i + 1) <==> Flatten(bands)[k].y1 == bands[i].y1
    ensures k < StartOf(bands, i + 1) ==> Flatten(bands)[k] == BoxesOf(bands[i])[k - StartOf(bands, i)]
    decreases |bands|
  {
    hide BoxesOf;
    StartNext(bands, i);
    BoxesRow(bands[i]);
    if k >= StartOf(bands, i + 1) {
      StartEnd(bands);
      AfterBand(bands, i, k);
    } else {
      assert Flatten(bands)[k] == Flatten(bands)[StartOf(bands, i)..StartOf(bands, i + 1)][k - StartOf(bands, i)];
    }
  }

  lemma {:induction false} AfterBand(bands: seq<Band>, i: nat, k: nat)
    requires Sorted(bands) && i < |bands| && StartOf(bands, i + 1) <= k < |Flatten(bands)|
    ensures Flatten(bands)[k].y1 > bands[i].y1
    decreases |bands|
  {
    hide BoxesOf;
    var n := |bands| - 1;
    StartEnd(bands);
    if i < n {
      StartNext(bands, n);
      if k < StartOf(bands, n) {
        assert bands[..n][..i + 1] == bands[..i + 1];
        AfterBand(bands[..n], i, k);
      } else {
        BandsApart(bands, i, n);
        BoxesRow(bands[n]);
        assert Flatten(bands)[k] == BoxesOf(bands[n])[k - StartOf(bands, n)];
      }
    }
  }

  /** Skip to the end of the band that starts at `start`. */
  method BandEnd(rects: seq<Box>, start: nat, ghost bands: seq<Band>, ghost i: nat) returns (end: nat)
    requires Sorted(bands) && rects == Flatten(bands) && i < |bands| && start == StartOf(bands, i)
    ensures end == StartOf(bands, i + 1) && start < end <= |rects|
    ensures rects[start..end] == BoxesOf(bands[i])
  {
    hide Flatten, BoxesOf, Sorted;
    StartNext(bands, i);
    BandsApart(bands, i, i);
    end := start;
    TopOfBand(bands, i, start);
    while end != |rects| && rects[end].y1 == rects[start].y1
      invariant start <= end <= StartOf(bands, i + 1)
      decreases |rects| - end
    {
      TopOfBand(bands, i, end);
      end := end + 1;
    }
    if end < |rects| {
      TopOfBand(bands, i, end);
    }
  }

  /** The bands after merging the last of the first `n` with the next one, if they line up. */
  function MergedAt(bands: seq<Band>, n: nat): seq<Band>
    requires n < |bands|
  {
    if n > 0 && Mergeable(bands[n - 1], bands[n]) then Stretch(bands[..n], bands[n]) + bands[n + 1..] else bands
  }

  /** Boxes with the same horizontal extents, pair by pair. */
  predicate LinedUp(p: seq<Box>, c: seq<Box>)
  {
    |p| == |c| && forall i | 0 <= i < |p| :: p[i].x1 == c[i].x1 && p[i].x2 == c[i].x2
  }

  method CheckLinedUp(p: seq<Box>, c: seq<Box>) returns (same: bool)
    requires |p| == |c|
    ensures same <==> LinedUp(p, c)
  {
    var i := 0;
    while i < |p|
      invariant 0 <= i <= |p|
      invariant forall k | 0 <= k < i :: p[k].x1 == c[k].x1 && p[k].x2 == c[k].x2
    {
      if p[i].x1 != c[i].x1 || p[i].x2 != c[i].x2 {
        return false;
      }
      i := i + 1;
    }
    return true;
  }

  /** The boxes `p` with the bottoms of the boxes `c`. */
  function Lowered(p: seq<Box>, c: seq<Box>): seq<Box>
    requires |p| == |c|
  {
    seq(|p|, i requires 0 <= i < |p| => p[i].(y2 := c[i].y2))
  }

  /** Give each of the `n` boxes from `p` on the bottom of the corresponding box from `c` on. */
  method Lower(a0: seq<Box>, p: nat, c: nat, n: nat) returns (a: seq<Box>)
    requires p + n <= c && c + n <= |a0|
    ensures a == a0[..p] + Lowered(a0[p..p + n], a0[c..c + n]) + a0[p + n..]
  {
    a := a0;
    ghost var low := Lowered(a0[p..p + n], a0[c..c + n]);
    var i: nat := 0;
    while i < n
      invariant i <= n && a == a0[..p] + low[..i] + a0[p + i..]
    {
      LowerOne(a0, p, c, n, i);
      a := a[p + i := a[p + i].(y2 := a[c + i].y2)];
      i := i + 1;
    }
  }

  lemma LowerOne(a0: seq<Box>, p: nat, c: nat, n: nat, i: nat)
    requires p + n <= c && c + n <= |a0| && i < n
    ensures var low := Lowered(a0[p..p + n], a0[c..c + n]); var a := a0[..p] + low[..i] + a0[p + i..];
      |a| == |a0| && a[p + i := a[p + i].(y2 := a[c + i].y2)] == a0[..p] + low[..i + 1] + a0[p + i + 1..]
  {
    var low := Lowered(a0[p..p + n], a0[c..c + n]);
    var a := a0[..p] + low[..i] + a0[p + i..];
    assert a[p + i] == a0[p + i] && a[c + i] == a0[c + i] && a0[c..c + n][i] == a0[c + i];
    assert low[..i + 1] == low[..i] + [a[p + i].(y2 := a[c + i].y2)];
    assert a0[p + i..] == [a0[p + i]] + a0[p + i + 1..];
  }

  /** Move the boxes from `c` to the end down to `p`. */
  method CopyDown(a0: seq<Box>, p: nat, c: nat) returns (a: seq<Box>)
    requires p <= c <= |a0|
    ensures |a| == |a0| && a[..p + (|a0| - c)] == a0[..p] + a0[c..]
  {
    a := a0;
    var i: nat := 0;
    while c + i != |a0|
      invariant c + i <= |a0| && a == a0[..p] + a0[c..c + i] + a0[p + i..]
      decreases |a0| - c - i
    {
      assert a[c + i] == a0[c + i];
      a := a[p + i := a[c + i]];
      i := i + 1;
    }
  }

  /** Bands of as many boxes that touch line up just when they can be merged. */
  lemma LinedUpMerge(p: Band, q: Band)
    requires |p.row| == |q.row| && p.y2 == q.y1
    ensures LinedUp(BoxesOf(p), BoxesOf(q)) <==> Mergeable(p, q)
  {
    BoxesRow(p);
    BoxesRow(q);
    if LinedUp(BoxesOf(p), BoxesOf(q)) {
      forall i | 0 <= i < |p.row|
        ensures p.row[i] == q.row[i]
      {
        assert BoxesOf(p)[i].x1 == BoxesOf(q)[i].x1;
      }
    }
  }

  lemma LoweredBoxes(p: Band, q: Band)
    requires Mergeable(p, q)
    ensures Lowered(BoxesOf(p), BoxesOf(q)) == BoxesOf(Band(p.y1, q.y2, p.row))
  {
  }

  /** The array before and after merging band `n` into the one before it. */
  lemma MergedBoxes(bands: seq<Band>, n: nat)
    requires Sorted(bands) && 0 < n < |bands| && Mergeable(bands[n - 1], bands[n])
    ensures Flatten(MergedAt(bands, n)) == Flatten(bands[..n - 1])
        + BoxesOf(Band(bands[n - 1].y1, bands[n].y2, bands[n - 1].row)) + Flatten(bands[n + 1..])
  {
    hide BoxesOf, Sorted;
    var b := Band(bands[n - 1].y1, bands[n].y2, bands[n - 1].row);
    assert Stretch(bands[..n], bands[n]) == bands[..n - 1] + [b];
    FlattenSnoc(bands[..n - 1], b);
    FlattenConcat(bands[..n - 1] + [b], bands[n + 1..]);
  }

  /** Find the start of the last band. */
  method LastStart(rects: seq<Box>, ghost bands: seq<Band>) returns (start: nat)
    requires Sorted(bands) && rects == Flatten(bands) && |bands| > 1
    ensures start == StartOf(bands, |bands| - 1)
  {
    hide Flatten, BoxesOf, Sorted;
    ghost var n := |bands| - 1;
    BandsApart(bands, n, n);
    BandsApart(bands, n - 1, n);
    StartNext(bands, n - 1);
    StartNext(bands, n);
    StartEnd(bands);
    start := |rects| - 1;
    BeforeBand(bands, n, start);
    while rects[start - 1].y1 == rects[start].y1
      invariant StartOf(bands, n) <= start < |rects| && StartOf(bands, n) >= 1
      invariant rects[start].y1 == bands[n].y1
      invariant rects[start - 1].y1 == bands[n].y1 <==> start > StartOf(bands, n)
      decreases start
    {
      start := start - 1;
      BeforeBand(bands, n, start);
    }
  }

  lemma BeforeBand(bands: seq<Band>, n: nat, k: nat)
    requires Sorted(bands) && 0 < n == |bands| - 1 && StartOf(bands, n) <= k < |Flatten(bands)|
    ensures StartOf(bands, n) >= 1 && Flatten(bands)[k].y1 == bands[n].y1
    ensures Flatten(bands)[k - 1].y1 == bands[n].y1 <==> k > StartOf(bands, n)
  {
    hide Sorted, BoxesOf;
    StartEnd(bands);
    StartNext(bands, n);
    StartNext(bands, n - 1);
    BandsApart(bands, n - 1, n);
    TopOfBand(bands, n, k);
    Tops(bands, k - 1);
  }

  /** The boxes of bands `n - 1` and `n`, and those after them. */
  lemma AroundBand(bands: seq<Band>, n: nat)
    requires Sorted(bands) && 0 < n < |bands|
    ensures StartOf(bands, n - 1) + |bands[n - 1].row| == StartOf(bands, n)
    ensures StartOf(bands, n) + |bands[n].row| == StartOf(bands, n + 1) <= |Flatten(bands)|
    ensures Flatten(bands)[StartOf(bands, n - 1)..StartOf(bands, n)] == BoxesOf(bands[n - 1])
    ensures Flatten(bands)[StartOf(bands, n)..StartOf(bands, n + 1)] == BoxesOf(bands[n])
    ensures Flatten(bands)[..StartOf(bands, n - 1)] == Flatten(bands[..n - 1])
    ensures Flatten(bands)[StartOf(bands, n + 1)..] == Flatten(bands[n + 1..])
    ensures |BoxesOf(bands[n - 1])| == |bands[n - 1].row| > 0 && |BoxesOf(bands[n])| == |bands[n].row| > 0
    ensures BoxesOf(bands[n - 1])[0].y2 == bands[n - 1].y2 && BoxesOf(bands[n])[0].y1 == bands[n].y1
  {
    hide Flatten, Sorted;
    StartNext(bands, n - 1);
    StartNext(bands, n);
    BoxesRow(bands[n - 1]);
    BoxesRow(bands[n]);
    BandsApart(bands, n - 1, n);
    BandsApart(bands, n, n);
  }

  lemma MergedStart(bands: seq<Band>, n: nat)
    requires Sorted(bands) && 0 < n < |bands| && Mergeable(bands[n - 1], bands[n])
    ensures |MergedAt(bands, n)| == |bands| - 1
    ensures n + 1 == |bands| ==> StartOf(MergedAt(bands, n), n - 1) == StartOf(bands, n - 1)
  {
    hide Flatten;
    assert MergedAt(bands, n)[..n - 1] == bands[..n - 1];
  }

  // ---------------------------------------------------------------- the index returned

  /** Band `n`, though not the last, is merged into the one before it. */
  predicate MergesInside(bands: seq<Band>, n: nat)
    requires n < |bands|
  {
    0 < n && n + 1 < |bands| && Mergeable(bands[n - 1], bands[n])
  }

  /** What is returned when bands `n` and on have been added: where the last band starts before the gap that a merge
      leaves is closed, unless the last band is the one that is merged. */
  function IndexFound(bands: seq<Band>, n: nat): nat
    requires n < |bands|
  {
    if n + 1 == |bands| && MergedAt(bands, n) != bands then StartOf(bands, n - 1) else StartOf(bands, |bands| - 1)
  }

  function LastBandStart(bands: seq<Band>): nat
    requires bands != []
  {
    StartOf(bands, |bands| - 1)
  }

  lemma MergeShortens(bands: seq<Band>, n: nat)
    requires Sorted(bands) && 0 < n < |bands| && Mergeable(bands[n - 1], bands[n])
    ensures |Flatten(bands)| == |Flatten(MergedAt(bands, n))| + |bands[n].row| && bands[n].row != []
  {
    hide Flatten, Sorted, MergedAt, BoxesOf;
    AroundBand(bands, n);
    MergedBoxes(bands, n);
  }

  lemma PrefixSorted(bands: seq<Band>, m: nat)
    requires Sorted(bands) && m <= |bands|
    ensures Sorted(bands[..m])
  {
    hide Proper;
  }

  /** It is the start of the last band exactly if no band but the last is merged; otherwise it is too large by the
      boxes that were merged. */
  lemma IndexRight(bands: seq<Band>, n: nat)
    requires Sorted(bands) && n < |bands|
    ensures |MergedAt(bands, n)| > 0
    ensures IndexFound(bands, n) == LastBandStart(MergedAt(bands, n))
        + (if MergesInside(bands, n) then |bands[n].row| else 0)
    ensures IndexFound(bands, n) == LastBandStart(MergedAt(bands, n)) <==> !MergesInside(bands, n)
  {
    hide Flatten, Sorted, BoxesOf;
    if n > 0 && Mergeable(bands[n - 1], bands[n]) {
      MergedStart(bands, n);
      var m := |bands| - 1;
      if n < m {
        PrefixSorted(bands, m);
        MergeShortens(bands[..m], n);
        assert MergedAt(bands, n)[..m - 1] == MergedAt(bands[..m], n);
      }
    }
  }

  lemma FlattenTwo(p: Band, q: Band)
    ensures Flatten([p]) == BoxesOf(p) && Flatten([p, q]) == BoxesOf(p) + BoxesOf(q)
  {
    hide BoxesOf;
    FlattenSnoc([], p);
    FlattenSnoc([p], q);
    assert [] + [p] == [p] && [p] + [q] == [p, q];
  }

  lemma OneBox(b: Band)
    requires |b.row| == 1
    ensures BoxesOf(b) == [Box(b.row[0].x1, b.y1, b.row[0].x2, b.y2)]
  {
  }

  /** Two bands added at once, the first of which continues the band before them ... */
  function ThreeBands(): seq<Band> {
    var wide, narrow := [Span(0, 4)], [Span(1, 3)];
    [Band(0, 1, wide), Band(1, 2, wide), Band(2, 3, narrow)]
  }

  /** ... leave two boxes, the second of which is the last band; the index returned is 2. */
  lemma IndexTooLarge()
    ensures Sorted(ThreeBands()) && MergesInside(ThreeBands(), 1)
    ensures Flatten(MergedAt(ThreeBands(), 1)) == [Box(0, 0, 4, 2), Box(1, 2, 3, 3)]
    ensures LastBandStart(MergedAt(ThreeBands(), 1)) == 1 && IndexFound(ThreeBands(), 1) == 2
  {
    hide Flatten, BoxesOf;
    var b := ThreeBands();
    var r := [Band(0, 2, b[0].row), b[2]];
    assert MergedAt(b, 1) == r && r[..1] == [r[0]] && b[..2] == [b[0], b[1]];
    FlattenTwo(r[0], r[1]);
    FlattenTwo(b[0], b[1]);
    assert BoxesOf(r[0]) == [Box(0, 0, 4, 2)] && BoxesOf(r[1]) == [Box(1, 2, 3, 3)] by {
      OneBox(r[0]);
      OneBox(r[1]);
    }
  }

  /** Stretch band `n - 1` over band `n`, which has its boxes from `c` to `e`, and close the gap. */
  method MergeBoxes(a0: seq<Box>, p: nat, c: nat, e: nat, ghost bands: seq<Band>, ghost n: nat)
    returns (rects: seq<Box>)
    requires Sorted(bands) && a0 == Flatten(bands) && 0 < n < |bands| && Mergeable(bands[n - 1], bands[n])
    requires p == StartOf(bands, n - 1) && c == StartOf(bands, n) && e == StartOf(bands, n + 1)
    ensures rects == Flatten(MergedAt(bands, n))
  {
    hide Flatten, BoxesOf, Sorted, MergedAt, StartOf;
    AroundBand(bands, n);
    LoweredBoxes(bands[n - 1], bands[n]);
    MergedBoxes(bands, n);
    var a := Lower(a0, p, c, e - c);
    ghost var low := BoxesOf(Band(bands[n - 1].y1, bands[n].y2, bands[n - 1].row));
    assert a0[p..p + (e - c)] == BoxesOf(bands[n - 1]) && a0[c..c + (e - c)] == BoxesOf(bands[n]);
    assert a[..c] == Flatten(bands[..n - 1]) + low;
    assert a[e..] == Flatten(bands[n + 1..]);
    if e != |a0| {
      a := CopyDown(a, c, e);
    }
    rects := a[..|a0| - (e - c)];
  }

  /** miCoalesce.  Bands from `n` on have just been added; `prevStart` and `curStart` are where band
      `n - 1` (if there is one) and band `n` start.  The index returned is the start of the last
      band exactly if no band but the last has been merged. */
  method CoalesceBands(reg: Region, prevStart: nat, curStart: nat, ghost n: nat) returns (start: nat)
    requires Sorted(reg.bands) && reg.rects == Flatten(reg.bands) && n < |reg.bands|
    requires curStart == StartOf(reg.bands, n) && prevStart == (if n == 0 then 0 else StartOf(reg.bands, n - 1))
    modifies reg`rects, reg`bands
    ensures reg.bands == MergedAt(old(reg.bands), n) && reg.rects == Flatten(reg.bands)
    ensures start == IndexFound(old(reg.bands), n)
    ensures |reg.bands| > 0
        && (start == LastBandStart(reg.bands) <==> !MergesInside(old(reg.bands), n))
  {
    hide Flatten, BoxesOf, Sorted, Stretch, StartOf;
    ghost var bands := reg.bands;
    IndexRight(bands, n);
    var a := reg.rects;
    var prevNum := PreviousBoxes(prevStart, curStart, bands, n);
    var cur := BandEnd(a, curStart, bands, n);
    var curNum := cur - curStart;
    start := curStart;
    if cur != |a| {
      NotLast(bands, n);
      start := LastStart(a, bands);
    } else {
      IsLast(bands, n);
    }
    if curNum == prevNum && curNum != 0 {
      AroundBand(bands, n);
      if a[prevStart].y2 == a[curStart].y1 {
        FirstOfBand(a, prevStart, curStart, cur, bands, n);
        var same := CheckLinedUp(a[prevStart..prevStart + curNum], a[curStart..cur]);
        LinedUpMerge(bands[n - 1], bands[n]);
        if same {
          MergedStart(bands, n);
          if cur == |a| {
            start := prevStart;
          }
          reg.rects := MergeBoxes(a, prevStart, curStart, cur, bands, n);
          reg.bands := MergedAt(bands, n);
        }
      } else {
        FirstOfBand(a, prevStart, curStart, cur, bands, n);
      }
    } else {
      DifferentRows(bands, n, prevNum, curNum);
    }
  }

  /** The number of boxes in the band before band `n`. */
  method PreviousBoxes(prevStart: nat, curStart: nat, ghost bands: seq<Band>, ghost n: nat) returns (num: nat)
    requires Sorted(bands) && n < |bands|
    requires curStart == StartOf(bands, n) && prevStart == (if n == 0 then 0 else StartOf(bands, n - 1))
    ensures num == curStart - prevStart && num == if n == 0 then 0 else |bands[n - 1].row|
  {
    StartEnd(bands);
    if n > 0 {
      AroundBand(bands, n);
    }
    num := curStart - prevStart;
  }

  lemma FirstOfBand(a: seq<Box>, p: nat, c: nat, e: nat, bands: seq<Band>, n: nat)
    requires Sorted(bands) && a == Flatten(bands) && 0 < n < |bands|
    requires p == StartOf(bands, n - 1) && c == StartOf(bands, n) && e == StartOf(bands, n + 1)
    ensures p < c < e <= |a| && a[p].y2 == bands[n - 1].y2 && a[c].y1 == bands[n].y1
    ensures a[p..c] == BoxesOf(bands[n - 1]) && a[c..e] == BoxesOf(bands[n])
  {
    hide Flatten, BoxesOf, Sorted, StartOf;
    AroundBand(bands, n);
    assert a[p] == a[p..c][0] && a[c] == a[c..e][0];
  }

  lemma DifferentRows(bands: seq<Band>, n: nat, prevNum: nat, curNum: nat)
    requires Sorted(bands) && n < |bands| && curNum == |bands[n].row|
    requires prevNum == (if n == 0 then 0 else |bands[n - 1].row|) && (prevNum != curNum || curNum == 0)
    ensures MergedAt(bands, n) == bands
  {
    BandsApart(bands, n, n);
  }

  lemma NotLast(bands: seq<Band>, n: nat)
    requires n < |bands| && StartOf(bands, n + 1) != |Flatten(bands)|
    ensures n + 1 < |bands|
  {
    hide Flatten;
    StartEnd(bands);
  }

  lemma IsLast(bands: seq<Band>, n: nat)
    requires Sorted(bands) && n < |bands| && StartOf(bands, n + 1) == |Flatten(bands)|
    ensures n + 1 == |bands|
  {
    hide Flatten, Sorted;
    if n + 1 < |bands| {
      StartNext(bands, n + 1);
      BandsApart(bands, n + 1, n + 1);
    }
  }
}
