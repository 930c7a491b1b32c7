/** Moving, shrinking and growing regions.  Shrinking by doubling: a point is the head of a run of
    length a + b just when it heads a run of length a and the point a further on heads one of b. */
module RegionShrink {
  import opened Bits
  import opened Spans
  import opened Bands
  import opened RegionModel
  import opened RegionSweep
  import opened RegionOp
  import opened RegionOps

  const MAXSHORT: int := 32767
  const MINSHORT: int := -32767

  /** Coordinates that fit the fields of a box. */
  predicate Short(e: Box) { MINSHORT <= e.x1 && e.x2 <= MAXSHORT && MINSHORT <= e.y1 && e.y2 <= MAXSHORT }

  // ---------------------------------------------------------------- offset

  function MovedBox(b: Box, dx: int, dy: int): Box { Box(b.x1 + dx, b.y1 + dy, b.x2 + dx, b.y2 + dy) }

  function MovedRow(s: seq<Span>, dx: int): (r: seq<Span>)
    ensures |r| == |s|
  {
    seq(|s|, i requires 0 <= i < |s| => Span(s[i].x1 + dx, s[i].x2 + dx))
  }

  function MovedBand(b: Band, dx: int, dy: int): Band { Band(b.y1 + dy, b.y2 + dy, MovedRow(b.row, dx)) }

  function Moved(bands: seq<Band>, dx: int, dy: int): (r: seq<Band>)
    ensures |r| == |bands|
  {
    seq(|bands|, i requires 0 <= i < |bands| => MovedBand(bands[i], dx, dy))
  }

  lemma MovedRowIn(s: seq<Span>, dx: int, x: int)
    ensures In(MovedRow(s, dx), x) <==> In(s, x - dx)
    ensures Row(s) ==> Row(MovedRow(s, dx))
  {
    if i :| 0 <= i < |s| && At(s[i], x - dx) {
      assert At(MovedRow(s, dx)[i], x);
    }
    if i :| 0 <= i < |s| && At(MovedRow(s, dx)[i], x) {
      assert At(s[i], x - dx);
    }
  }

  lemma MovedProper(b: Band, dx: int, dy: int)
    requires Proper(b)
    ensures Proper(MovedBand(b, dx, dy))
  {
    hide Row;
    MovedRowIn(b.row, dx, 0);
  }

  lemma MovedRowInjective(s: seq<Span>, r: seq<Span>, dx: int)
    requires MovedRow(s, dx) == MovedRow(r, dx)
    ensures s == r
  {
    assert |s| == |r|;
    forall i | 0 <= i < |s|
      ensures s[i] == r[i]
    {
      assert MovedRow(s, dx)[i] == MovedRow(r, dx)[i];
    }
  }

  lemma MovedCanonical(bands: seq<Band>, dx: int, dy: int)
    requires Canonical(bands)
    ensures Canonical(Moved(bands, dx, dy))
  {
    hide Proper, MovedRow;
    var r := Moved(bands, dx, dy);
    forall i | 0 <= i < |r|
      ensures Proper(r[i])
    {
      MovedProper(bands[i], dx, dy);
    }
    forall i | 0 < i < |r|
      ensures !Mergeable(r[i - 1], r[i])
    {
      if r[i - 1].row == r[i].row {
        MovedRowInjective(bands[i - 1].row, bands[i].row, dx);
      }
      assert !Mergeable(bands[i - 1], bands[i]);
    }
  }

  lemma {:induction false} MovedRowAt(bands: seq<Band>, dx: int, dy: int, y: int)
    ensures RowAt(Moved(bands, dx, dy), y) == MovedRow(RowAt(bands, y - dy), dx)
    decreases |bands|
  {
    hide MovedRow;
    if bands == [] {
      assert MovedRow([], dx) == [] by { NoRowMoved(dx); }
    } else {
      var n := |bands| - 1;
      MovedRowAt(bands[..n], dx, dy, y);
      assert Moved(bands, dx, dy)[..n] == Moved(bands[..n], dx, dy);
    }
  }

  lemma NoRowMoved(dx: int)
    ensures MovedRow([], dx) == []
  {
  }

  lemma MovedContains(bands: seq<Band>, dx: int, dy: int, x: int, y: int)
    ensures Contains(Moved(bands, dx, dy), x, y) <==> Contains(bands, x - dx, y - dy)
  {
    hide RowAt, In, MovedRow;
    MovedRowAt(bands, dx, dy, y);
    MovedRowIn(RowAt(bands, y - dy), dx, x);
  }

  function MovedBoxes(r: seq<Box>, dx: int, dy: int): (q: seq<Box>)
    ensures |q| == |r|
  {
    seq(|r|, i requires 0 <= i < |r| => MovedBox(r[i], dx, dy))
  }

  lemma {:induction false} MovedFlatten(bands: seq<Band>, dx: int, dy: int)
    ensures Flatten(Moved(bands, dx, dy)) == MovedBoxes(Flatten(bands), dx, dy)
    decreases |bands|
  {
    if bands != [] {
      var n := |bands| - 1;
      MovedFlatten(bands[..n], dx, dy);
      assert Moved(bands, dx, dy)[..n] == Moved(bands[..n], dx, dy);
      MovedBoxesOf(bands[n], dx, dy);
    }
  }

  lemma MovedBoxesOf(b: Band, dx: int, dy: int)
    ensures BoxesOf(MovedBand(b, dx, dy)) == MovedBoxes(BoxesOf(b), dx, dy)
  {
  }

  /** XOffsetRegion. */
  method OffsetRegion(r: Region, dx: int, dy: int)
    requires r.Valid() && (r.rects != [] ==> Short(MovedBox(r.extents, dx, dy)))
    modifies r
    ensures r.Valid() && r.bands == Moved(old(r.bands), dx, dy)
  {
    hide Canonical, Flatten, Tight, Moved, MovedBox, MovedBoxes, Short;
    ghost var bands, rects := r.bands, r.rects;
    ghost var all := MovedBoxes(rects, dx, dy);
    assert all[..0] + rects[0..] == rects;
    var i: nat := 0;
    while i != |r.rects|
      invariant i <= |rects| && r.rects == all[..i] + rects[i..] && r.extents == old(r.extents)
      decreases |rects| - i
    {
      MoveStep(rects, i, dx, dy);
      r.rects := r.rects[i := MovedBox(r.rects[i], dx, dy)];
      i := i + 1;
    }
    assert all[..i] + rects[i..] == all;
    r.extents := MovedBox(r.extents, dx, dy);
    r.bands := Moved(bands, dx, dy);
    MovedCanonical(bands, dx, dy);
    MovedFlatten(bands, dx, dy);
    if rects != [] {
      MovedTight(old(r.extents), bands, dx, dy);
    }
  }

  lemma MoveStep(rects: seq<Box>, i: nat, dx: int, dy: int)
    requires i < |rects|
    ensures var all := MovedBoxes(rects, dx, dy);
      && (all[..i] + rects[i..])[i] == rects[i]
      && (all[..i] + rects[i..])[i := MovedBox(rects[i], dx, dy)] == all[..i + 1] + rects[i + 1..]
  {
    hide MovedBox;
  }

  lemma MovedTight(e: Box, bands: seq<Band>, dx: int, dy: int)
    requires Tight(e, bands)
    ensures Tight(MovedBox(e, dx, dy), Moved(bands, dx, dy))
  {
    hide Contains, Moved;
    var r := Moved(bands, dx, dy);
    forall x, y
      ensures Contains(r, x, y) <==> Contains(bands, x - dx, y - dy)
    {
      MovedContains(bands, dx, dy, x, y);
    }
    MovedLines(bands, dx, dy, e.x1, e.y1);
    MovedLines(bands, dx, dy, e.x2 - 1, e.y2 - 1);
  }

  lemma MovedLines(bands: seq<Band>, dx: int, dy: int, cx: int, cy: int)
    requires OnColumn(bands, cx) && OnRow(bands, cy)
    ensures OnColumn(Moved(bands, dx, dy), cx + dx) && OnRow(Moved(bands, dx, dy), cy + dy)
  {
    hide Contains, Moved;
    var y :| Contains(bands, cx, y);
    MovedContains(bands, dx, dy, cx + dx, y + dy);
    var x :| Contains(bands, x, cy);
    MovedContains(bands, dx, dy, x + dx, cy + dy);
  }

  // ---------------------------------------------------------------- runs

  /** The point `m` further on, to the right or down. */
  predicate Further(bands: seq<Band>, xdir: bool, x: int, y: int, m: int)
  {
    Contains(bands, if xdir then x + m else x, if xdir then y else y + m)
  }

  /** Of the `n` points from (`x`, `y`) on, some are in the region (`grow`), or all are. */
  ghost predicate Heads(bands: seq<Band>, grow: bool, xdir: bool, n: int, x: int, y: int)
  {
    if grow then exists m :: 0 <= m < n && Further(bands, xdir, x, y, m)
    else forall m :: 0 <= m < n ==> Further(bands, xdir, x, y, m)
  }

  /** `r` is the set of heads of runs of length `n`. */
  ghost predicate Runs(r: seq<Band>, b: seq<Band>, grow: bool, xdir: bool, n: int)
  {
    forall x, y :: Contains(r, x, y) <==> Heads(b, grow, xdir, n, x, y)
  }

  function AlongX(xdir: bool, m: int): int { if xdir then m else 0 }

  function AlongY(xdir: bool, m: int): int { if xdir then 0 else m }

  function OpFor(grow: bool): Op { if grow then Union else Intersect }

  lemma FurtherTwice(b: seq<Band>, xdir: bool, x: int, y: int, m: int, n: int)
    ensures Further(b, xdir, x + AlongX(xdir, m), y + AlongY(xdir, m), n) <==> Further(b, xdir, x, y, m + n)
  {
  }

  /** Runs put together. */
  lemma HeadsSplit(b: seq<Band>, grow: bool, xdir: bool, m: int, n: int, x: int, y: int)
    requires m >= 0 && n >= 0
    ensures Heads(b, grow, xdir, m + n, x, y)
      <==> OpFor(grow).Holds(Heads(b, grow, xdir, m, x, y),
          Heads(b, grow, xdir, n, x + AlongX(xdir, m), y + AlongY(xdir, m)))
  {
    hide Further, AlongX, AlongY;
    var x', y' := x + AlongX(xdir, m), y + AlongY(xdir, m);
    forall k
      ensures Further(b, xdir, x', y', k) <==> Further(b, xdir, x, y, m + k)
    {
      FurtherTwice(b, xdir, x, y, m, k);
    }
    forall k {:trigger Further(b, xdir, x, y, k)}
      ensures Further(b, xdir, x, y, k) <==> Further(b, xdir, x', y', k - m)
    {
      FurtherTwice(b, xdir, x, y, m, k - m);
    }
  }

  lemma RunsOfOne(b: seq<Band>, grow: bool, xdir: bool)
    ensures Runs(b, b, grow, xdir, 1)
  {
    hide Contains;
    forall x, y
      ensures Contains(b, x, y) <==> Heads(b, grow, xdir, 1, x, y)
    {
      assert Further(b, xdir, x, y, 0) <==> Contains(b, x, y);
    }
  }

  /** Combining runs with the runs that start `m` further on. */
  lemma RunsJoin(r: seq<Band>, p: seq<Band>, q: seq<Band>, b: seq<Band>, grow: bool, xdir: bool, m: int, n: int)
    requires m >= 0 && n >= 0 && Runs(p, b, grow, xdir, m) && Runs(q, b, grow, xdir, n)
    requires ResultOf(OpFor(grow), r, p, Moved(q, -AlongX(xdir, m), -AlongY(xdir, m)))
    ensures Runs(r, b, grow, xdir, m + n)
  {
    hide Contains, Moved, ResultOf, Heads, AlongX, AlongY;
    var q' := Moved(q, -AlongX(xdir, m), -AlongY(xdir, m));
    forall x, y
      ensures Contains(r, x, y) <==> Heads(b, grow, xdir, m + n, x, y)
    {
      ResultPoints(OpFor(grow), r, p, q', x, y);
      MovedContains(q, -AlongX(xdir, m), -AlongY(xdir, m), x, y);
      HeadsSplit(b, grow, xdir, m, n, x, y);
    }
  }

  /** The operation for growing and shrinking is the same either way round. */
  lemma ResultCommutes(grow: bool, r: seq<Band>, a: seq<Band>, b: seq<Band>)
    ensures ResultOf(OpFor(grow), r, a, b) <==> ResultOf(OpFor(grow), r, b, a)
  {
    hide RowAt, Canonical, In;
    assert forall y :: LineIs(OpFor(grow), RowAt(r, y), a, b, y) <==> LineIs(OpFor(grow), RowAt(r, y), b, a, y);
  }

  // ---------------------------------------------------------------- coordinates

  ghost predicate Within(bands: seq<Band>, e: Box) { forall x, y :: Contains(bands, x, y) ==> InBox(e, x, y) }

  /** The region stays clear of the limits when moved `d` to the left or up. */
  ghost predicate Room(bands: seq<Band>, d: int, xdir: bool)
  {
    Within(bands, Box(MINSHORT + AlongX(xdir, d), MINSHORT + AlongY(xdir, d), MAXSHORT, MAXSHORT))
  }

  /** Where the heads of runs of `n` can lie: if some point of the run counts, they reach out before the region;
      if all count, they keep clear of its end. */
  function HeadsBox(e: Box, grow: bool, xdir: bool, n: int): Box
  {
    var ax, ay := AlongX(xdir, n - 1), AlongY(xdir, n - 1);
    if grow then Box(e.x1 - ax, e.y1 - ay, e.x2, e.y2) else Box(e.x1, e.y1, e.x2 - ax, e.y2 - ay)
  }

  lemma RunsWithin(r: seq<Band>, b: seq<Band>, grow: bool, xdir: bool, n: int, e: Box)
    requires Runs(r, b, grow, xdir, n) && n >= 1 && Within(b, e)
    ensures Within(r, HeadsBox(e, grow, xdir, n))
  {
    hide Contains;
    forall x, y | Contains(r, x, y)
      ensures InBox(HeadsBox(e, grow, xdir, n), x, y)
    {
      assert Heads(b, grow, xdir, n, x, y);
      if grow {
        var m :| 0 <= m < n && Further(b, xdir, x, y, m);
        assert Contains(b, x + AlongX(xdir, m), y + AlongY(xdir, m));
      } else {
        assert Further(b, xdir, x, y, 0) && Further(b, xdir, x, y, n - 1);
        assert Contains(b, x + AlongX(xdir, 0), y + AlongY(xdir, 0));
        assert Contains(b, x + AlongX(xdir, n - 1), y + AlongY(xdir, n - 1));
      }
    }
  }

  /** How wide, or high, a box is. */
  function Extent(e: Box, xdir: bool): int { if xdir then e.x2 - e.x1 else e.y2 - e.y1 }

  /** The longest way that Compress shifts runs at once when a region has none of more than `w` points: the runs have
      `low` + 1 points so far, and `q` times `shift` more are to come. */
  function LongestShift(q: nat, shift: nat, low: nat, w: int): nat
    decreases q
  {
    if q == 0 || low >= w then 0
    else
      var later := LongestShift(q / 2, 2 * shift, if q % 2 == 1 then low + shift else low, w);
      if q % 2 == 1 && later < shift then shift else later
  }

  /** As long as there are points to come, even the shortest of these shifts is made. */
  lemma {:induction false} ShiftsOn(q: nat, shift: nat, low: nat, w: int)
    requires q > 0 && low < w
    ensures LongestShift(q, shift, low, w) >= shift
    decreases q
  {
    if q % 2 == 0 {
      ShiftsOn(q / 2, 2 * shift, low, w);
    }
  }

  /** How far to the left or up the runs of up to `d` + 1 points may get on the way. */
  function Reach(grow: bool, d: nat, w: int): nat { if grow then d else LongestShift(d, 1, 0, w) }

  lemma RunsRoom(r: seq<Band>, b: seq<Band>, grow: bool, xdir: bool, n: int, d: int, c: int, e: Box)
    requires Runs(r, b, grow, xdir, n) && n >= 1 && Room(b, d, xdir) && c >= 0 && Within(b, e)
        && (if grow then n - 1 + c <= d else n <= Extent(e, xdir) ==> c <= d)
    ensures Room(r, c, xdir)
  {
    hide Contains, Runs;
    RunsWithin(r, b, grow, xdir, n, Box(MINSHORT + AlongX(xdir, d), MINSHORT + AlongY(xdir, d), MAXSHORT, MAXSHORT));
    RunsWithin(r, b, grow, xdir, n, e);
  }

  // ---------------------------------------------------------------- compress

  /** Replace `r` by its union or intersection with `p`. */
  method OpInto(grow: bool, p: Region, q: Region, dst: Region)
    requires p.Valid() && q.Valid() && p != q
    modifies dst
    ensures dst.Valid() && ResultOf(OpFor(grow), dst.bands, old(p.bands), old(q.bands))
  {
    hide ResultOf;
    if grow {
      UnionRegions(p, q, dst);
    } else {
      IntersectRegions(p, q, dst);
    }
  }

  lemma UnionSelf(r: seq<Band>, a: seq<Band>)
    requires ResultOf(Union, r, a, a)
    ensures forall x, y :: Contains(r, x, y) <==> Contains(a, x, y)
  {
    hide Contains, ResultOf;
    forall x, y
      ensures Contains(r, x, y) <==> Contains(a, x, y)
    {
      ResultPoints(Union, r, a, a, x, y);
    }
  }

  /** ZCopyRegion. */
  method Copy(src: Region, dst: Region)
    requires src.Valid() && src != dst
    modifies dst
    ensures dst.Valid() && forall x, y :: Contains(dst.bands, x, y) <==> Contains(src.bands, x, y)
  {
    hide ResultOf, Contains;
    UnionRegions(src, src, dst);
    UnionSelf(dst.bands, src.bands);
  }

  lemma RoomShort(e: Box, bands: seq<Band>, d: int, xdir: bool)
    requires Tight(e, bands) && Room(bands, d, xdir) && d >= 0
    ensures Short(MovedBox(e, -AlongX(xdir, d), -AlongY(xdir, d)))
  {
    hide Contains;
    var y1 :| Contains(bands, e.x1, y1);
    var y2 :| Contains(bands, e.x2 - 1, y2);
    var x1 :| Contains(bands, x1, e.y1);
    var x2 :| Contains(bands, x2, e.y2 - 1);
  }

  /** ZShiftRegion by `-m`. */
  method ShiftBack(r: Region, m: nat, xdir: bool)
    requires r.Valid() && Room(r.bands, m, xdir)
    modifies r
    ensures r.Valid() && r.bands == Moved(old(r.bands), -AlongX(xdir, m), -AlongY(xdir, m))
  {
    hide Moved, Room, Tight, Short, MovedBox;
    if r.rects != [] {
      RoomShort(r.extents, r.bands, m, xdir);
    }
    if xdir {
      OffsetRegion(r, -(m as int), 0);
    } else {
      OffsetRegion(r, 0, -(m as int));
    }
  }

  lemma SameRuns(r: seq<Band>, r': seq<Band>, b: seq<Band>, grow: bool, xdir: bool, n: int)
    requires Runs(r, b, grow, xdir, n) && forall x, y :: Contains(r', x, y) <==> Contains(r, x, y)
    ensures Runs(r', b, grow, xdir, n)
  {
    hide Contains, Heads;
  }

  /** Where Compress has got to: `low` points more than one have been put together, and `dx` are to come. */
  ghost predicate Halfway(dx: nat, shift: nat, low: nat, grow: bool, d: nat, w: int)
  {
    && shift >= 1 && dx % shift == 0 && low < shift <= dx + low
    && if grow then dx + low <= d else LongestShift(dx / shift, shift, low, w) <= d
  }

  /** One round of Compress. */
  method CompressRound(r: Region, s: Region, t: Region, dx0: nat, shift: nat, low: nat, xdir: bool, grow: bool,
        ghost b: seq<Band>, ghost d: nat, ghost e: Box)
    returns (dx: nat)
    requires r.Valid() && s.Valid() && r != s && r != t && s != t && Within(b, e) && Room(b, d, xdir)
    requires dx0 > 0 && Halfway(dx0, shift, low, grow, d, Extent(e, xdir))
    requires Runs(s.bands, b, grow, xdir, shift) && Runs(r.bands, b, grow, xdir, 1 + low)
    modifies r, s, t
    ensures r.Valid() && s.Valid() && dx <= dx0 && Runs(r.bands, b, grow, xdir, 1 + low + dx0 - dx)
    ensures dx != 0 ==> Runs(s.bands, b, grow, xdir, 2 * shift)
    ensures dx != 0 ==> Halfway(dx, 2 * shift, low + dx0 - dx, grow, d, Extent(e, xdir))
  {
    hide Runs, Room, Within, LongestShift, Extent, Region.Valid;
    Multiples(dx0, shift);
    NextShifts(dx0 / shift, shift, low, Extent(e, xdir));
    dx := dx0;
    if dx / shift % 2 == 1 {
      JoinRuns(r, s, b, grow, xdir, shift, 1 + low, d, e);
      dx := dx - shift;
      if dx == 0 {
        return;
      }
    }
    DoubleRuns(s, t, b, grow, xdir, shift, d, e);
  }

  /** Compress: `r` becomes the set of heads of runs of length `dx0` + 1, in a number of rounds that
      is logarithmic in `dx0`. */
  method Compress(r: Region, s: Region, t: Region, dx0: nat, xdir: bool, grow: bool, ghost e: Box)
    returns (ghost rounds: nat)
    requires r.Valid() && r != s && r != t && s != t
    requires Within(r.bands, e) && Room(r.bands, Reach(grow, dx0, Extent(e, xdir)), xdir)
    modifies r, s, t
    ensures r.Valid() && Runs(r.bands, old(r.bands), grow, xdir, dx0 + 1)
    ensures dx0 > 0 ==> Pow2(rounds) <= dx0
  {
    hide Runs, Room, Contains, Within, LongestShift, Extent, Region.Valid;
    ghost var b := r.bands;
    ghost var d := Reach(grow, dx0, Extent(e, xdir));
    RunsOfOne(b, grow, xdir);
    var shift: nat, dx: nat := 1, dx0;
    rounds := 0;
    Copy(r, s);
    SameRuns(r.bands, s.bands, b, grow, xdir, 1);
    while dx != 0
      invariant r.Valid() && dx <= dx0 && Runs(r.bands, b, grow, xdir, 1 + dx0 - dx)
      invariant dx != 0 ==> s.Valid() && Runs(s.bands, b, grow, xdir, shift)
      invariant dx != 0 ==> Halfway(dx, shift, dx0 - dx, grow, d, Extent(e, xdir))
      invariant shift == Pow2(rounds) && (dx0 > 0 ==> shift <= dx0)
      decreases dx0 + 1 - shift, dx
    {
      dx := CompressRound(r, s, t, dx, shift, dx0 - dx, xdir, grow, b, d, e);
      if dx != 0 {
        shift := 2 * shift;
        rounds := rounds + 1;
      }
    }
  }

  /** The shifts of one round, and of those after it. */
  lemma NextShifts(q: nat, shift: nat, low: nat, w: int)
    requires q > 0 && low < shift
    ensures low < w || shift <= w ==> shift <= LongestShift(q, shift, low, w)
    ensures LongestShift(q / 2, 2 * shift, if q % 2 == 1 then low + shift else low, w) <= LongestShift(q, shift, low, w)
  {
    if low < w {
      ShiftsOn(q, shift, low, w);
    } else {
      NoShifts(q / 2, 2 * shift, low, w);
      NoShifts(q / 2, 2 * shift, low + shift, w);
    }
  }

  lemma NoShifts(q: nat, shift: nat, low: nat, w: int)
    requires low >= w
    ensures LongestShift(q, shift, low, w) == 0
  {
  }

  lemma Multiples(dx: nat, shift: nat)
    requires shift >= 1 && dx % shift == 0 && dx > 0
    ensures dx >= shift && dx / shift > 0
    ensures dx / shift % 2 == 1 ==> (dx - shift) % (2 * shift) == 0 && (dx == shift || dx - shift >= 2 * shift)
    ensures dx / shift % 2 == 1 ==> (dx - shift) / (2 * shift) == dx / shift / 2
    ensures dx / shift % 2 == 0 ==> dx % (2 * shift) == 0 && dx / (2 * shift) == dx / shift / 2 && dx >= 2 * shift
  {
    var q := dx / shift;
    MultipleIs(dx, shift, q);
    HalfMultiple(dx, shift, q);
  }

  lemma MultipleIs(dx: nat, shift: nat, q: int)
    requires shift >= 1 && dx % shift == 0 && dx > 0 && q == dx / shift
    ensures dx == q * shift && q >= 1 && dx >= shift
  {
    MulAtLeast(q, shift);
    MulAtLeast(-q, shift);
  }

  lemma HalfMultiple(dx: nat, shift: nat, q: int)
    requires shift >= 1 && dx == q * shift && q >= 1
    ensures q % 2 == 1 ==> (dx - shift) % (2 * shift) == 0 && (dx == shift || dx - shift >= 2 * shift)
    ensures q % 2 == 1 ==> (dx - shift) / (2 * shift) == q / 2
    ensures q % 2 == 0 ==> dx % (2 * shift) == 0 && dx / (2 * shift) == q / 2 && dx >= 2 * shift
  {
    var h := q / 2;
    OddMultiple(h, shift);
    EvenMultiple(h, shift);
  }

  lemma OddMultiple(h: int, shift: nat)
    requires h >= 0 && shift >= 1
    ensures (2 * h + 1) * shift == h * (2 * shift) + shift
    ensures (h * (2 * shift)) % (2 * shift) == 0 && h * (2 * shift) / (2 * shift) == h
        && (h == 0 || h * (2 * shift) >= 2 * shift)
  {
    DivUnique(h * (2 * shift), 2 * shift, h, 0);
    MulAtLeast(h, 2 * shift);
  }

  lemma EvenMultiple(h: int, shift: nat)
    requires h >= 0 && shift >= 1
    ensures (2 * h) * shift == h * (2 * shift)
    ensures (h * (2 * shift)) % (2 * shift) == 0 && h * (2 * shift) / (2 * shift) == h
        && (h == 0 || h * (2 * shift) >= 2 * shift)
  {
    DivUnique(h * (2 * shift), 2 * shift, h, 0);
    MulAtLeast(h, 2 * shift);
  }

  /** r := runs of `n`, shifted back, combined with the runs of `shift`. */
  method JoinRuns(r: Region, s: Region, ghost b: seq<Band>, grow: bool, xdir: bool, shift: nat, ghost n: nat,
        ghost d: nat, ghost e: Box)
    requires r.Valid() && s.Valid() && r != s && n >= 1 && Room(b, d, xdir) && Within(b, e)
    requires if grow then n - 1 + shift <= d else n <= Extent(e, xdir) ==> shift <= d
    requires Runs(s.bands, b, grow, xdir, shift) && Runs(r.bands, b, grow, xdir, n)
    modifies r
    ensures r.Valid() && Runs(r.bands, b, grow, xdir, shift + n)
  {
    hide Runs, Room, ResultOf, Moved, Within;
    ghost var q := r.bands;
    RunsRoom(q, b, grow, xdir, n, d, shift, e);
    ShiftBack(r, shift, xdir);
    ghost var q' := r.bands;
    OpInto(grow, r, s, r);
    ResultCommutes(grow, r.bands, q', s.bands);
    RunsJoin(r.bands, s.bands, q, b, grow, xdir, shift, n);
  }

  /** s := runs of `shift`, combined with themselves shifted back. */
  method DoubleRuns(s: Region, t: Region, ghost b: seq<Band>, grow: bool, xdir: bool, shift: nat, ghost d: nat,
        ghost e: Box)
    requires s.Valid() && s != t && shift >= 1 && Room(b, d, xdir) && Within(b, e)
    requires if grow then 2 * shift <= d + 1 else shift <= Extent(e, xdir) ==> shift <= d
    requires Runs(s.bands, b, grow, xdir, shift)
    modifies s, t
    ensures s.Valid() && Runs(s.bands, b, grow, xdir, 2 * shift)
  {
    hide Runs, Room, ResultOf, Moved, Within;
    ghost var q := s.bands;
    Copy(s, t);
    SameRuns(q, t.bands, b, grow, xdir, shift);
    RunsRoom(q, b, grow, xdir, shift, d, shift, e);
    ShiftBack(s, shift, xdir);
    ghost var q' := s.bands;
    OpInto(grow, s, t, s);
    ResultCommutes(grow, s.bands, q', t.bands);
    RunsJoin(s.bands, t.bands, q, b, grow, xdir, shift, shift);
  }

  // ---------------------------------------------------------------- shrink

  /** Of the points within `d` of (`x`, `y`) on its scan line, some (`grow`) or all are in the region. */
  ghost predicate NearX(b: seq<Band>, grow: bool, d: int, x: int, y: int)
  {
    if grow then exists i :: x - d <= i <= x + d && Contains(b, i, y)
    else forall i :: x - d <= i <= x + d ==> Contains(b, i, y)
  }

  /** The same for the scan lines within `dy`. */
  ghost predicate Near(b: seq<Band>, growX: bool, dx: int, growY: bool, dy: int, x: int, y: int)
  {
    if growY then exists j :: y - dy <= j <= y + dy && NearX(b, growX, dx, x, j)
    else forall j :: y - dy <= j <= y + dy ==> NearX(b, growX, dx, x, j)
  }

  lemma HeadsNearX(b: seq<Band>, grow: bool, d: nat, x: int, y: int)
    ensures Heads(b, grow, true, 2 * d + 1, x - d, y) <==> NearX(b, grow, d, x, y)
  {
    hide Contains;
    var x0 := x - d;
    forall i
      ensures Contains(b, i, y) <==> Further(b, true, x0, y, i - x0)
    {
    }
  }

  lemma HeadsNearY(b: seq<Band>, r: seq<Band>, growX: bool, dx: nat, growY: bool, dy: nat, x: int, y: int)
    requires Runs(r, b, growX, true, 2 * dx + 1)
    ensures Heads(r, growY, false, 2 * dy + 1, x - dx, y - dy) <==> Near(b, growX, dx, growY, dy, x, y)
  {
    hide Contains, Heads, NearX;
    var y0, x0 := y - dy, x - dx;
    forall j
      ensures Contains(r, x0, j) <==> NearX(b, growX, dx, x, j)
    {
      HeadsNearX(b, growX, dx, x, j);
    }
    HeadsColumn(r, growY, dy, x0, y);
  }

  lemma HeadsColumn(r: seq<Band>, grow: bool, d: nat, x: int, y: int)
    ensures Heads(r, grow, false, 2 * d + 1, x, y - d)
      <==> if grow then exists j :: y - d <= j <= y + d && Contains(r, x, j)
          else forall j :: y - d <= j <= y + d ==> Contains(r, x, j)
  {
    hide Contains;
    var y0 := y - d;
    forall j
      ensures Contains(r, x, j) <==> Further(r, false, x, y0, j - y0)
    {
    }
  }

  function Size(d: int): nat { if d < 0 then -d else d }

  /** One direction of XShrinkRegion. */
  method CompressBy(r: Region, s: Region, t: Region, d0: int, xdir: bool, ghost e: Box) returns (d: nat)
    requires r.Valid() && r != s && r != t && s != t
    requires Within(r.bands, e) && Room(r.bands, Reach(d0 < 0, 2 * Size(d0), Extent(e, xdir)), xdir)
    modifies r, s, t
    ensures r.Valid() && d == Size(d0)
    ensures Runs(r.bands, old(r.bands), d0 < 0, xdir, 2 * d + 1)
  {
    hide Runs, Room, Within;
    var grow := d0 < 0;
    d := if grow then -d0 else d0;
    if d != 0 {
      ghost var rounds := Compress(r, s, t, 2 * d, xdir, grow, e);
    } else {
      RunsOfOne(r.bands, grow, xdir);
    }
  }

  /** All coordinates on the way to a region shrunk or grown by (`dx`, `dy`) fit.  Once shrinking leaves nothing there
      are none any more. */
  predicate ShrinkFits(e: Box, dx: int, dy: int)
  {
    && Short(e)
    && Short(Box(e.x1 - Reach(dx < 0, 2 * Size(dx), Extent(e, true)), e.y1, e.x2 + Grown(dx), e.y2))
    && (Vanishes(e, dx)
        || Short(Box(e.x1, e.y1 - Reach(dy < 0, 2 * Size(dy), Extent(e, false)), e.x2, e.y2 + Grown(dy))))
  }

  /** A region this narrow has nothing left when it is shrunk by `dx`. */
  predicate Vanishes(e: Box, dx: int) { dx > 0 && 2 * dx >= Extent(e, true) }

  /** How far a region grows; it does not if it shrinks. */
  function Grown(d: int): nat { if d < 0 then -d else 0 }

  /** XShrinkRegion: shrink, or grow for negative arguments, by `dx0` horizontally, then by `dy0`
      vertically. */
  method ShrinkRegion(r: Region, dx0: int, dy0: int)
    requires r.Valid() && (r.rects != [] ==> ShrinkFits(r.extents, dx0, dy0))
    modifies r
    ensures r.Valid()
    ensures forall x, y :: Contains(r.bands, x, y) <==> Near(old(r.bands), dx0 < 0, Size(dx0), dy0 < 0, Size(dy0), x, y)
  {
    hide Canonical, Flatten, Contains, Tight, Runs, Moved, Near, Heads, MovedBox, Short, Within, Room, Reach,
        ShrinkFits, HeadsBox, Extent;
    ghost var b := r.bands;
    if dx0 == 0 && dy0 == 0 {
      NearNothing(b, dx0 < 0, dy0 < 0);
      return;
    }
    ghost var e := if r.rects == [] then NoBox(dx0, dy0) else r.extents;
    var s := new Region();
    var t := new Region();
    RoomToShrink(r, e, dx0, dy0);
    var dx := CompressBy(r, s, t, dx0, true, e);
    ghost var r1 := r.bands;
    RunsWithin(r1, b, dx0 < 0, true, 2 * dx + 1, e);
    RoomAbove(r1, e, dx0, dy0);
    var dy := CompressBy(r, s, t, dy0, false, HeadsBox(e, dx0 < 0, true, 2 * dx + 1));
    ghost var r2 := r.bands;
    RunsWithin(r2, r1, dy0 < 0, false, 2 * dy + 1, HeadsBox(e, dx0 < 0, true, 2 * dx + 1));
    if r.rects != [] {
      FinalShort(r.extents, r2, e, dx0, dy0);
    }
    OffsetRegion(r, dx, dy);
    forall x: int, y: int
      ensures Contains(r.bands, x, y) <==> Near(b, dx0 < 0, dx, dy0 < 0, dy, x, y)
    {
      MovedContains(r2, dx, dy, x, y);
      RunsAt(r2, r1, dy0 < 0, false, 2 * dy + 1, x - (dx as int), y - (dy as int));
      HeadsNearY(b, r1, dx0 < 0, dx, dy0 < 0, dy, x, y);
    }
  }

  lemma RunsAt(r: seq<Band>, b: seq<Band>, grow: bool, xdir: bool, n: int, x: int, y: int)
    requires Runs(r, b, grow, xdir, n)
    ensures Contains(r, x, y) <==> Heads(b, grow, xdir, n, x, y)
  {
  }

  lemma NearNothing(b: seq<Band>, growX: bool, growY: bool)
    ensures forall x, y :: Contains(b, x, y) <==> Near(b, growX, 0, growY, 0, x, y)
  {
    hide Contains;
    forall x, y
      ensures Contains(b, x, y) <==> Near(b, growX, 0, growY, 0, x, y)
    {
      assert NearX(b, growX, 0, x, y) <==> Contains(b, x, y);
    }
  }

  lemma RoomToShrink(r: Region, e: Box, dx: int, dy: int)
    requires r.Valid() && (r.rects != [] ==> e == r.extents && ShrinkFits(e, dx, dy))
    requires r.rects == [] ==> e == NoBox(dx, dy)
    ensures ShrinkFits(e, dx, dy) && Within(r.bands, e)
    ensures Room(r.bands, Reach(dx < 0, 2 * Size(dx), Extent(e, true)), true)
  {
    hide Canonical, Flatten, Contains;
    if r.rects == [] {
      EmptyOutside(r.bands);
    }
  }

  lemma EmptyOutside(bands: seq<Band>)
    requires Canonical(bands) && Flatten(bands) == []
    ensures forall x, y :: !Contains(bands, x, y)
  {
    hide Canonical, In, RowAt;
    NoBands(bands);
    forall x, y
      ensures !Contains([], x, y)
    {
      EmptyRows(y);
      NoPoint(x);
    }
  }

  /** A box for an empty region that leaves room enough. */
  function NoBox(dx: int, dy: int): Box
  {
    Box(2 * Grown(dx), 2 * Grown(dy), 0 - Grown(dx), 0 - Grown(dy))
  }

  lemma RoomAbove(r1: seq<Band>, e: Box, dx: int, dy: int)
    requires ShrinkFits(e, dx, dy) && Within(r1, HeadsBox(e, dx < 0, true, 2 * Size(dx) + 1))
    ensures Extent(HeadsBox(e, dx < 0, true, 2 * Size(dx) + 1), false) == Extent(e, false)
    ensures Room(r1, Reach(dy < 0, 2 * Size(dy), Extent(e, false)), false)
  {
    hide Contains;
  }

  lemma FinalShort(f: Box, r2: seq<Band>, e: Box, dx: int, dy: int)
    requires Tight(f, r2) && ShrinkFits(e, dx, dy)
    requires Within(r2, HeadsBox(HeadsBox(e, dx < 0, true, 2 * Size(dx) + 1), dy < 0, false, 2 * Size(dy) + 1))
    ensures Short(MovedBox(f, Size(dx), Size(dy)))
  {
    hide Contains;
    var y1 :| Contains(r2, f.x1, y1);
    var y2 :| Contains(r2, f.x2 - 1, y2);
    var x1 :| Contains(r2, x1, f.y1);
    var x2 :| Contains(r2, x2, f.y2 - 1);
  }
}
