/** The canonical form of a region: bands of boxes, sorted, disjoint, and as tall as possible. */
module Bands {
  import opened Spans

  datatype Box = Box(x1: int, y1: int, x2: int, y2: int)

  /** All boxes with the same top and bottom. */
  datatype Band = Band(y1: int, y2: int, row: seq<Span>)

  predicate Proper(b: Band) { b.y1 < b.y2 && b.row != [] && Row(b.row) }

  /** `p` can be stretched to cover `q` as well. */
  predicate Mergeable(p: Band, q: Band) { p.y2 == q.y1 && p.row == q.row }

  predicate Sorted(bands: seq<Band>)
  {
    && (forall i | 0 <= i < |bands| :: Proper(bands[i]))
    && forall i, j | 0 <= i < j < |bands| :: bands[i].y2 <= bands[j].y1
  }

  predicate Canonical(bands: seq<Band>)
  {
    Sorted(bands) && forall i | 0 < i < |bands| :: !Mergeable(bands[i - 1], bands[i])
  }

  function BoxesOf(b: Band): (r: seq<Box>)
    ensures |r| == |b.row|
  {
    seq(|b.row|, i requires 0 <= i < |b.row| => Box(b.row[i].x1, b.y1, b.row[i].x2, b.y2))
  }

  /** The array of boxes. */
  function Flatten(bands: seq<Band>): seq<Box>
  {
    if bands == [] then [] else Flatten(bands[..|bands| - 1]) + BoxesOf(bands[|bands| - 1])
  }

  // ---------------------------------------------------------------- scan lines

  predicate OnLine(b: Band, y: int) { b.y1 <= y < b.y2 }

  /** What the region covers on scan line `y`. */
  function RowAt(bands: seq<Band>, y: int): seq<Span>
  {
    if bands == [] then []
    else if OnLine(bands[|bands| - 1], y) then bands[|bands| - 1].row
    else RowAt(bands[..|bands| - 1], y)
  }

  /** The region as a set of points. */
  predicate Contains(bands: seq<Band>, x: int, y: int) { In(RowAt(bands, y), x) }

  lemma {:induction false} RowAtBand(bands: seq<Band>, i: nat, y: int)
    requires Sorted(bands) && i < |bands| && OnLine(bands[i], y)
    ensures RowAt(bands, y) == bands[i].row
    decreases |bands|
  {
    hide Proper;
    var n := |bands| - 1;
    if i < n {
      assert bands[i].y2 <= bands[n].y1;
      RowAtBand(bands[..n], i, y);
    }
  }

  lemma {:induction false} RowAtGap(bands: seq<Band>, y: int)
    requires forall i | 0 <= i < |bands| :: !OnLine(bands[i], y)
    ensures RowAt(bands, y) == []
    decreases |bands|
  {
    hide OnLine;
    if bands != [] {
      RowAtGap(bands[..|bands| - 1], y);
    }
  }

  /** Between two bands, above the first or below the last one nothing is covered. */
  lemma RowAtBetween(bands: seq<Band>, i: nat, y: int)
    requires Sorted(bands) && i <= |bands| && (i < |bands| ==> y < bands[i].y1) && (i > 0 ==> bands[i - 1].y2 <= y)
    ensures RowAt(bands, y) == []
  {
    forall k | 0 <= k < |bands|
      ensures !OnLine(bands[k], y)
    {
      BandsApart(bands, if i < |bands| then i else k, k);
      BandsApart(bands, if i > 0 then i - 1 else k, k);
    }
    RowAtGap(bands, y);
  }

  lemma BandsApart(bands: seq<Band>, i: nat, k: nat)
    requires Sorted(bands) && i < |bands| && k < |bands|
    ensures i < k ==> bands[i].y2 <= bands[k].y1
    ensures k < i ==> bands[k].y2 <= bands[i].y1
    ensures bands[i].y1 < bands[i].y2 && bands[k].y1 < bands[k].y2
    ensures Row(bands[i].row) && bands[i].row != []
  {
    assert Proper(bands[i]) && Proper(bands[k]);
  }

  lemma {:induction false} RowAtIsRow(bands: seq<Band>, y: int)
    requires Sorted(bands)
    ensures Row(RowAt(bands, y))
    decreases |bands|
  {
    if bands != [] {
      BandsApart(bands, |bands| - 1, |bands| - 1);
      RowAtIsRow(bands[..|bands| - 1], y);
    }
  }

  // ---------------------------------------------------------------- appending and merging bands

  lemma RowAtSnoc(bands: seq<Band>, b: Band, y: int)
    ensures RowAt(bands + [b], y) == if OnLine(b, y) then b.row else RowAt(bands, y)
  {
    assert (bands + [b])[..|bands|] == bands;
  }

  lemma FlattenSnoc(bands: seq<Band>, b: Band)
    ensures Flatten(bands + [b]) == Flatten(bands) + BoxesOf(b)
  {
    assert (bands + [b])[..|bands|] == bands;
  }

  lemma {:induction false} FlattenConcat(a: seq<Band>, b: seq<Band>)
    ensures Flatten(a + b) == Flatten(a) + Flatten(b)
    decreases |b|
  {
    hide BoxesOf;
    if b == [] {
      assert a + b == a;
    } else {
      var n := |b| - 1;
      assert (a + b)[..|a + b| - 1] == a + b[..n];
      FlattenConcat(a, b[..n]);
      assert (Flatten(a) + Flatten(b[..n])) + BoxesOf(b[n]) == Flatten(a) + (Flatten(b[..n]) + BoxesOf(b[n]));
    }
  }

  lemma SortedSnoc(bands: seq<Band>, b: Band)
    requires Sorted(bands) && Proper(b) && (bands != [] ==> bands[|bands| - 1].y2 <= b.y1)
    ensures Sorted(bands + [b])
  {
    hide Proper, Row;
    if bands != [] {
      forall i | 0 <= i < |bands|
        ensures bands[i].y2 <= b.y1
      {
        BandsApart(bands, i, |bands| - 1);
      }
    }
  }

  lemma CanonicalSnoc(bands: seq<Band>, b: Band)
    requires Canonical(bands) && Proper(b)
    requires bands != [] ==> bands[|bands| - 1].y2 <= b.y1 && !Mergeable(bands[|bands| - 1], b)
    ensures Canonical(bands + [b])
  {
    hide Sorted, Proper;
    SortedSnoc(bands, b);
  }

  /** Stretching the last band down over a mergeable one. */
  function Stretch(bands: seq<Band>, b: Band): seq<Band>
    requires bands != []
  {
    bands[|bands| - 1 := Band(bands[|bands| - 1].y1, b.y2, bands[|bands| - 1].row)]
  }

  lemma StretchCovers(bands: seq<Band>, b: Band, y: int)
    requires Canonical(bands) && bands != [] && Proper(b) && Mergeable(bands[|bands| - 1], b)
    ensures RowAt(Stretch(bands, b), y) == RowAt(bands + [b], y)
  {
    hide Canonical;
    RowAtSnoc(bands, b, y);
    assert Stretch(bands, b)[..|bands| - 1] == bands[..|bands| - 1];
    assert Canonical(bands) ==> Proper(bands[|bands| - 1]) by { CanonicalLast(bands); }
  }

  lemma CanonicalLast(bands: seq<Band>)
    requires bands != []
    ensures Canonical(bands) ==> Proper(bands[|bands| - 1])
  {
  }

  lemma StretchCanonical(bands: seq<Band>, b: Band)
    requires Canonical(bands) && bands != [] && Proper(b) && Mergeable(bands[|bands| - 1], b)
    ensures Canonical(Stretch(bands, b))
  {
    var n := |bands| - 1;
    var r := Stretch(bands, b);
    assert r == bands[..n] + [r[n]];
    assert Proper(bands[n]);
    if n > 0 {
      assert !Mergeable(bands[n - 1], bands[n]);
      BandsApart(bands, n - 1, n);
    }
    PrefixCanonical(bands, n);
    CanonicalSnoc(bands[..n], r[n]);
  }

  lemma PrefixCanonical(bands: seq<Band>, n: nat)
    requires Canonical(bands) && n <= |bands|
    ensures Canonical(bands[..n]) && Canonical(bands[n..])
  {
    hide Proper, Mergeable;
  }

  // ---------------------------------------------------------------- uniqueness

  ghost predicate SameRows(a: seq<Band>, b: seq<Band>) { forall y :: RowAt(a, y) == RowAt(b, y) }

  lemma Below(a: seq<Band>, b: seq<Band>)
    requires Canonical(a) && Canonical(b) && a != [] && b != [] && SameRows(a, b)
    ensures a[|a| - 1].y2 <= b[|b| - 1].y2
  {
    hide RowAt, Mergeable, Proper;
    BandsApart(a, |a| - 1, |a| - 1);
    var y := a[|a| - 1].y2 - 1;
    RowAtBand(a, |a| - 1, y);
    if y >= b[|b| - 1].y2 {
      RowAtBetween(b, |b|, y);
    }
  }

  /** The last bands start together: otherwise the later one could be stretched up. */
  lemma NotAbove(a: seq<Band>, b: seq<Band>)
    requires Canonical(a) && Canonical(b) && a != [] && b != [] && SameRows(a, b)
    requires a[|a| - 1].y2 == b[|b| - 1].y2 && a[|a| - 1].row == b[|b| - 1].row
    ensures a[|a| - 1].y1 >= b[|b| - 1].y1
  {
    hide RowAt, Proper;
    var n := |b| - 1;
    BandsApart(a, |a| - 1, |a| - 1);
    BandsApart(b, if n > 0 then n - 1 else n, n);
    var y := b[n].y1 - 1;
    if a[|a| - 1].y1 <= y {
      RowAtBand(a, |a| - 1, y);
      if n > 0 && OnLine(b[n - 1], y) {
        RowAtBand(b, n - 1, y);
      } else {
        RowAtBetween(b, n, y);
      }
    }
  }

  lemma LastSame(a: seq<Band>, b: seq<Band>)
    requires Canonical(a) && Canonical(b) && a != [] && b != [] && SameRows(a, b)
    ensures a[|a| - 1] == b[|b| - 1]
  {
    hide RowAt, Mergeable, Proper;
    Below(a, b);
    Below(b, a);
    var y := a[|a| - 1].y2 - 1;
    BandsApart(a, |a| - 1, |a| - 1);
    BandsApart(b, |b| - 1, |b| - 1);
    RowAtBand(a, |a| - 1, y);
    RowAtBand(b, |b| - 1, y);
    NotAbove(a, b);
    NotAbove(b, a);
  }

  lemma PrefixRowAt(a: seq<Band>, y: int)
    requires Canonical(a) && a != []
    ensures RowAt(a[..|a| - 1], y) == if OnLine(a[|a| - 1], y) then [] else RowAt(a, y)
  {
    var n := |a| - 1;
    if OnLine(a[n], y) {
      PrefixCanonical(a, n);
      if n > 0 {
        BandsApart(a, n - 1, n);
      }
      RowAtBetween(a[..n], n, y);
    }
  }

  lemma EmptyBands(a: seq<Band>)
    requires Canonical(a) && a != []
    ensures RowAt(a, a[0].y1) != []
  {
    BandsApart(a, 0, 0);
    RowAtBand(a, 0, a[0].y1);
  }

  lemma {:induction false} BandsUnique(a: seq<Band>, b: seq<Band>)
    requires Canonical(a) && Canonical(b) && SameRows(a, b)
    ensures a == b
    decreases |a|
  {
    hide Canonical;
    if a == [] {
      if b != [] {
        EmptyBands(b);
      }
    } else if b == [] {
      EmptyBands(a);
    } else {
      LastSame(a, b);
      PrefixCanonical(a, |a| - 1);
      PrefixCanonical(b, |b| - 1);
      var a', b' := a[..|a| - 1], b[..|b| - 1];
      forall y
        ensures RowAt(a', y) == RowAt(b', y)
      {
        PrefixRowAt(a, y);
        PrefixRowAt(b, y);
      }
      BandsUnique(a[..|a| - 1], b[..|b| - 1]);
      assert a == a[..|a| - 1] + [a[|a| - 1]] && b == b[..|b| - 1] + [b[|b| - 1]];
    }
  }

  ghost predicate SamePoints(a: seq<Band>, b: seq<Band>) { forall x, y :: Contains(a, x, y) <==> Contains(b, x, y) }

  /** The canonical form is unique: two regions are the same set of points just when they consist of
      the same boxes. */
  lemma CanonicalUnique(a: seq<Band>, b: seq<Band>)
    requires Canonical(a) && Canonical(b)
    ensures SamePoints(a, b) <==> Flatten(a) == Flatten(b)
    ensures SamePoints(a, b) <==> a == b
  {
    hide Canonical, Sorted, In, RowAt;
    CanonicalSorted(a);
    CanonicalSorted(b);
    if SamePoints(a, b) {
      forall y
        ensures RowAt(a, y) == RowAt(b, y)
      {
        RowAtIsRow(a, y);
        RowAtIsRow(b, y);
        forall x
          ensures In(RowAt(a, y), x) <==> In(RowAt(b, y), x)
        {
          assert Contains(a, x, y) <==> Contains(b, x, y);
        }
        RowUnique(RowAt(a, y), RowAt(b, y));
      }
      BandsUnique(a, b);
    }
    if Flatten(a) == Flatten(b) {
      FlattenInjective(a, b);
    }
  }

  lemma CanonicalSorted(a: seq<Band>)
    requires Canonical(a)
    ensures Sorted(a)
  {
  }

  /** The boxes of the last band are those with its top; the others start above it. */
  lemma {:induction false} Tops(a: seq<Band>, k: nat)
    requires Sorted(a) && a != [] && k < |Flatten(a)|
    ensures |a[|a| - 1].row| <= |Flatten(a)|
    ensures k >= |Flatten(a)| - |a[|a| - 1].row| ==> Flatten(a)[k].y1 == a[|a| - 1].y1
    ensures k < |Flatten(a)| - |a[|a| - 1].row| ==> Flatten(a)[k].y1 < a[|a| - 1].y1
    decreases |a|
  {
    hide Proper;
    var n := |a| - 1;
    if k < |Flatten(a[..n])| {
      BandsApart(a, n - 1, n);
      Tops(a[..n], k);
    }
  }

  lemma LastBandSame(a: seq<Band>, b: seq<Band>)
    requires Sorted(a) && Sorted(b) && a != [] && b != [] && Flatten(a) == Flatten(b)
    ensures a[|a| - 1] == b[|b| - 1] && Flatten(a[..|a| - 1]) == Flatten(b[..|b| - 1])
  {
    hide Sorted, BoxesOf;
    var m, n := |a| - 1, |b| - 1;
    LastBox(a);
    LastBox(b);
    RowNoLonger(a, b);
    RowNoLonger(b, a);
    SameEnds(Flatten(a[..m]), BoxesOf(a[m]), Flatten(b[..n]), BoxesOf(b[n]));
    BoxesSame(a[m], b[n]);
  }

  lemma SameEnds(p: seq<Box>, q: seq<Box>, r: seq<Box>, s: seq<Box>)
    requires p + q == r + s && |q| == |s|
    ensures p == r && q == s
  {
    assert p == (p + q)[..|p|] && r == (r + s)[..|r|];
    assert q == (p + q)[|p|..] && s == (r + s)[|r|..];
  }

  lemma BoxesSame(b: Band, c: Band)
    requires b.y1 == c.y1 && b.y2 == c.y2 && BoxesOf(b) == BoxesOf(c)
    ensures b == c
  {
    assert |b.row| == |BoxesOf(b)| == |c.row|;
    forall i | 0 <= i < |b.row|
      ensures b.row[i] == c.row[i]
    {
      assert BoxesOf(b)[i] == BoxesOf(c)[i];
    }
  }

  lemma LastBox(a: seq<Band>)
    requires Sorted(a) && a != []
    ensures Flatten(a) != [] && Flatten(a)[|Flatten(a)| - 1].y1 == a[|a| - 1].y1
        && Flatten(a)[|Flatten(a)| - 1].y2 == a[|a| - 1].y2
  {
    BandsApart(a, |a| - 1, |a| - 1);
  }

  lemma RowNoLonger(a: seq<Band>, b: seq<Band>)
    requires Sorted(a) && Sorted(b) && a != [] && b != [] && Flatten(a) == Flatten(b) && a[|a| - 1].y1 == b[|b| - 1].y1
    ensures |a[|a| - 1].row| <= |b[|b| - 1].row|
  {
    hide Sorted, Flatten;
    LastBox(a);
    Tops(a, |Flatten(a)| - 1);
    var k := |Flatten(a)| - |a[|a| - 1].row|;
    if k < |Flatten(a)| {
      Tops(a, k);
      Tops(b, k);
    }
  }

  /** Boxes fall into bands in only one way. */
  lemma {:induction false} FlattenInjective(a: seq<Band>, b: seq<Band>)
    requires Sorted(a) && Sorted(b) && Flatten(a) == Flatten(b)
    ensures a == b
    decreases |a|
  {
    if a == [] {
      if b != [] {
        LastBox(b);
      }
    } else if b == [] {
      LastBox(a);
    } else {
      LastBandSame(a, b);
      FlattenInjective(a[..|a| - 1], b[..|b| - 1]);
      assert a == a[..|a| - 1] + [a[|a| - 1]] && b == b[..|b| - 1] + [b[|b| - 1]];
    }
  }
}
