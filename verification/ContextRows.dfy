/** What the row lists of the main buffer controller show: with every row group the rows around it. */
module ContextRows {
  import opened Bits
  import opened FunnyList

  /** A component: rows in a row group, rows in an iMCU row, and real rows in the image. */
  datatype Comp = Comp(n: nat, imcu: nat, height: nat) {
    predicate Ok() { SizesOk(n, imcu) && height > 0 }
  }

  /** Its workspace and row lists.  A row of the workspace holds the number of the image row it stands for;
      rows past the end of the image are padding. */
  datatype Lists = Lists(buffer: seq<int>, x0: seq<nat>, x1: seq<nat>) {
    function X(which: bool): seq<nat> { if which then x1 else x0 }

    predicate Ok(c: Comp)
    {
      c.Ok() && |buffer| == c.imcu + 2 * c.n && |x0| == |x1| == c.imcu + 4 * c.n
    }

    /** The row found through entry `q` of a list; entries that have not been filled in point nowhere. */
    function RowAt(which: bool, q: nat): int
      requires q < |X(which)|
    {
      if X(which)[q] < |buffer| then buffer[X(which)[q]] else -1
    }

    ghost predicate Regular(c: Comp) { Ok(c) && Middle(false, c.n, c.imcu, x0) && Middle(true, c.n, c.imcu, x1) }

    ghost predicate WrappedBoth(c: Comp) { Regular(c) && Wrapped(c.n, c.imcu, x0) && Wrapped(c.n, c.imcu, x1) }

    /** The iMCU row that starts at image row `base` has been read with list `which`. */
    ghost predicate Loaded(c: Comp, which: bool, base: nat)
    {
      Ok(c) && forall p: nat | p < c.imcu :: buffer[Place(which, c.n, c.imcu, p)] == base + p
    }

    /** The last two row groups before `base` are still there. */
    ghost predicate Kept(c: Comp, which: bool, base: nat)
    {
      Ok(c) && forall p: nat | c.imcu <= p < c.imcu + 2 * c.n ::
          buffer[Place(which, c.n, c.imcu, p)] == base - c.imcu - 2 * c.n + p
    }

    /** What the postprocessor finds at positions from one row group above on, up to `hi`: the image rows, the
        first or last real row standing in for those outside. */
    ghost predicate Shows(c: Comp, which: bool, base: nat, hi: nat)
    {
      Ok(c) && hi <= c.imcu + 2 * c.n
          && forall q: nat | q < hi + c.n :: RowAt(which, q) == Clamp(base + q - c.n, c.height)
    }

    /** The rows around the row group at position `pos`: one row group above and one below. */
    function View(c: Comp, which: bool, pos: nat): (v: seq<int>)
      requires Ok(c) && pos + 3 * c.n <= c.imcu + 4 * c.n
      ensures |v| == 3 * c.n
    {
      seq(3 * c.n, j requires 0 <= j < 3 * c.n => RowAt(which, pos + j))
    }
  }

  /** What stands for image row `row`: the nearest real row, or, where that does not matter, padding. */
  predicate GoodRow(c: Comp, x: int, row: int, exact: bool)
    requires c.height > 0
  {
    x == Clamp(row, c.height) || (!exact && x == row)
  }

  /** The rows handed over for the row group that starts at image row `r`: the one above, its own, and the row
      just below are the image rows; further below there may be padding. */
  predicate Neighbours(c: Comp, v: seq<int>, r: nat)
  {
    c.Ok() && |v| == 3 * c.n && forall j: nat | j < |v| :: GoodRow(c, v[j], r - c.n + j, j <= 2 * c.n)
  }

  lemma PlaceInjective(which: bool, n: nat, imcu: nat, p: nat, q: nat)
    requires SizesOk(n, imcu) && p < imcu + 2 * n && q < imcu + 2 * n
        && Place(which, n, imcu, p) == Place(which, n, imcu, q)
    ensures p == q && Place(which, n, imcu, p) < imcu + 2 * n
  {
  }

  /** Storing one row leaves the others alone. */
  function StoreRow(c: Comp, buffer: seq<int>, which: bool, p: nat, row: int): (b: seq<int>)
    requires c.Ok() && |buffer| == c.imcu + 2 * c.n && p < |buffer|
    ensures |b| == |buffer|
    ensures forall q: nat | q < |buffer| ::
        b[Place(which, c.n, c.imcu, q)] == if q == p then row else buffer[Place(which, c.n, c.imcu, q)]
  {
    var b := buffer[Place(which, c.n, c.imcu, p) := row];
    StoreApart(c, b, buffer, which, p, row);
    b
  }

  lemma StoreApart(c: Comp, b: seq<int>, buffer: seq<int>, which: bool, p: nat, row: int)
    requires c.Ok() && |buffer| == c.imcu + 2 * c.n && p < |buffer| && b == buffer[Place(which, c.n, c.imcu, p) := row]
    ensures forall q: nat | q < |buffer| ::
        b[Place(which, c.n, c.imcu, q)] == if q == p then row else buffer[Place(which, c.n, c.imcu, q)]
  {
    forall q: nat | q < |buffer|
      ensures b[Place(which, c.n, c.imcu, q)] == if q == p then row else buffer[Place(which, c.n, c.imcu, q)]
    {
      if Place(which, c.n, c.imcu, q) == Place(which, c.n, c.imcu, p) {
        PlaceInjective(which, c.n, c.imcu, p, q);
      }
    }
  }

  /** decompress_data: read an iMCU row through one of the row lists.  The two row groups before it stay. */
  method ReadIMcuRow(c: Comp, l: Lists, which: bool, base: nat) returns (l': Lists)
    requires l.Regular(c)
    ensures l'.x0 == l.x0 && l'.x1 == l.x1 && l'.Regular(c) && l'.Loaded(c, which, base)
    ensures l.Kept(c, which, base) ==> l'.Kept(c, which, base)
  {
    var buffer := l.buffer;
    var x := l.X(which);
    var p: nat := 0;
    while p < c.imcu
      invariant p <= c.imcu && |buffer| == |l.buffer|
      invariant forall q: nat | q < c.imcu + 2 * c.n ::
        buffer[Place(which, c.n, c.imcu, q)] == if q < p then base + q else l.buffer[Place(which, c.n, c.imcu, q)]
    {
      assert x[p + c.n] == Place(which, c.n, c.imcu, p);
      buffer := StoreRow(c, buffer, which, p, base + p);
      p := p + 1;
    }
    l' := Lists(buffer, l.x0, l.x1);
  }

  /** With the other list, the last two row groups are behind the place for the next iMCU row. */
  lemma KeptForNext(c: Comp, l: Lists, which: bool, base: nat)
    requires l.Loaded(c, which, base)
    ensures l.Kept(c, !which, base + c.imcu)
  {
    var next, other := base + c.imcu, !which;
    forall p: nat | c.imcu <= p < c.imcu + 2 * c.n
      ensures l.buffer[Place(other, c.n, c.imcu, p)] == next - c.imcu - 2 * c.n + p
    {
      assert Place(other, c.n, c.imcu, p) == Place(which, c.n, c.imcu, p - 2 * c.n);
    }
  }

  /** Above is the last row group but one ... */
  lemma AboveWraps(c: Comp, l: Lists, which: bool, q: nat)
    requires l.WrappedBoth(c) && q < c.n
    ensures l.X(which)[q] == Place(which, c.n, c.imcu, c.imcu + c.n + q)
  {
    assert l.X(which)[q] == l.X(which)[c.imcu + 2 * c.n + q];
  }

  /** ... and below, the first. */
  lemma BelowWraps(c: Comp, l: Lists, which: bool, q: nat)
    requires l.WrappedBoth(c) && c.imcu + 3 * c.n <= q < c.imcu + 4 * c.n
    ensures l.X(which)[q] == Place(which, c.n, c.imcu, q - (c.imcu + 3 * c.n))
  {
    assert l.X(which)[q] == l.X(which)[q - (c.imcu + 2 * c.n)];
  }

  /** The first iMCU row, when there are more. */
  lemma ShowsFirst(c: Comp, l: Lists)
    requires l.Regular(c) && Top(c.n, l.x0) && l.Loaded(c, false, 0) && c.imcu <= c.height
    ensures l.Shows(c, false, 0, c.imcu)
  {
  }

  /** A later iMCU row, when there are more. */
  lemma ShowsLater(c: Comp, l: Lists, which: bool, base: nat)
    requires l.WrappedBoth(c) && l.Loaded(c, which, base) && l.Kept(c, which, base) && base >= c.imcu
        && base + c.imcu <= c.height
    ensures l.Shows(c, which, base, c.imcu)
  {
    forall q: nat | q < c.imcu + c.n
      ensures l.RowAt(which, q) == Clamp(base + q - c.n, c.height)
    {
      if q < c.n {
        AboveWraps(c, l, which, q);
      }
    }
  }

  /** The row above, and the rows of the iMCU row itself, as far as they are real. */
  ghost predicate ShowsReal(c: Comp, l: Lists, which: bool, base: nat, rowsLeft: nat)
  {
    l.Ok(c) && rowsLeft <= c.imcu
        && forall q: nat | q < rowsLeft + c.n :: l.RowAt(which, q) == Clamp(base + q - c.n, c.height)
  }

  lemma RealFirst(c: Comp, l: Lists, rowsLeft: nat)
    requires l.Regular(c) && Top(c.n, l.x0) && l.Loaded(c, false, 0) && rowsLeft <= c.imcu && rowsLeft <= c.height
    ensures ShowsReal(c, l, false, 0, rowsLeft)
  {
  }

  lemma RealLater(c: Comp, l: Lists, which: bool, base: nat, rowsLeft: nat)
    requires l.WrappedBoth(c) && l.Loaded(c, which, base) && l.Kept(c, which, base) && base >= c.imcu
    requires rowsLeft <= c.imcu && base + rowsLeft <= c.height
    ensures ShowsReal(c, l, which, base, rowsLeft)
  {
    forall q: nat | q < rowsLeft + c.n
      ensures l.RowAt(which, q) == Clamp(base + q - c.n, c.height)
    {
      if q < c.n {
        AboveWraps(c, l, which, q);
      }
    }
  }

  /** The last real row duplicated: one component of set_bottom_pointers. */
  method BottomPointers(c: Comp, l: Lists, which: bool, ghost base: nat, rowsLeft: nat) returns (l': Lists)
    requires ShowsReal(c, l, which, base, rowsLeft) && 0 < rowsLeft && base + rowsLeft == c.height
    ensures l'.Shows(c, which, base, rowsLeft + 2 * c.n)
  {
    var x := DuplicateLast(c.n, c.imcu, l.X(which), rowsLeft);
    l' := if which then l.(x1 := x) else l.(x0 := x);
    forall q: nat | q < rowsLeft + 3 * c.n
      ensures l'.RowAt(which, q) == Clamp(base + q - c.n, c.height)
    {
      var q' := if q < rowsLeft + c.n then q else rowsLeft - 1 + c.n;
      assert l'.RowAt(which, q) == l.RowAt(which, q') == Clamp(base + q' - c.n, c.height);
    }
  }

  /** A row group of the current iMCU row. */
  lemma ViewCurrent(c: Comp, l: Lists, which: bool, base: nat, hi: nat, pos: nat)
    requires l.Shows(c, which, base, hi) && pos + 2 * c.n <= hi
    ensures pos + 3 * c.n <= c.imcu + 4 * c.n && Neighbours(c, l.View(c, which, pos), base + pos)
  {
    var v: seq<int>, r: nat := l.View(c, which, pos), base + pos;
    forall j: nat | j < |v|
      ensures GoodRow(c, v[j], r - c.n + j, j <= 2 * c.n)
    {
      var q := pos + j;
      assert l.RowAt(which, q) == Clamp(base + q - c.n, c.height);
    }
  }

  /** The last row group of the iMCU row before: its neighbours below are in the row just read, where what is
      past the image is padding. */
  lemma ViewPostponed(c: Comp, l: Lists, which: bool, base: nat, v: seq<int>)
    requires l.WrappedBoth(c) && l.Loaded(c, which, base) && l.Kept(c, which, base) && c.imcu <= base < c.height
    requires v == l.View(c, which, c.imcu + c.n)
    ensures forall j: nat | j < 3 * c.n :: v[j] == base - 2 * c.n + j
    ensures Neighbours(c, v, base - c.n)
  {
    forall j: nat | j < 3 * c.n
      ensures v[j] == base - 2 * c.n + j
    {
      var q := c.imcu + c.n + j;
      if j >= 2 * c.n {
        BelowWraps(c, l, which, q);
        assert l.buffer[Place(which, c.n, c.imcu, j - 2 * c.n)] == base + (j - 2 * c.n);
      } else {
        assert l.X(which)[q] == Place(which, c.n, c.imcu, c.imcu + j);
        assert l.buffer[Place(which, c.n, c.imcu, c.imcu + j)] == base - c.imcu - 2 * c.n + (c.imcu + j);
      }
      assert v[j] == l.RowAt(which, q);
    }
  }

  /** The padding does show, two rows or more below a row group, exactly where the image has ended. */
  lemma PaddingShows(c: Comp, l: Lists, which: bool, base: nat, j: nat)
    requires l.WrappedBoth(c) && l.Loaded(c, which, base) && l.Kept(c, which, base) && c.imcu <= base < c.height
        && j < 3 * c.n
    ensures l.View(c, which, c.imcu + c.n)[j] == Clamp(base - 2 * c.n + j, c.height) <==> base - 2 * c.n + j < c.height
  {
    ViewPostponed(c, l, which, base, l.View(c, which, c.imcu + c.n));
  }

  // ---------------------------------------------------------------- an image that shows it

  /** Row groups of two rows, eight to an iMCU row, and an image of 17 rows. */
  function Tall(): Comp { Comp(2, 16, 17) }

  /** The lists when its second iMCU row has been read: row 16 of the image and 15 rows of padding. */
  function TallLists(): Lists {
    Lists(seq(20, i => if i < 12 then 16 + i else if i < 16 then i else 12 + i), TallList(false), TallList(true))
  }

  function TallList(which: bool): seq<nat> {
    seq(24, q requires 0 <= q < 24 => Place(which, 2, 16, TallPosition(q)))
  }

  /** The position that entry `q` shows; the entries at both ends wrap around. */
  function TallPosition(q: nat): nat
    requires q < 24
  {
    if q < 2 then q + 18 else if q < 22 then q - 2 else q - 22
  }

  lemma TallListOk(which: bool)
    ensures Middle(which, 2, 16, TallList(which)) && Wrapped(2, 16, TallList(which))
  {
  }

  lemma TallRegular()
    ensures TallLists().WrappedBoth(Tall())
  {
    hide Middle, Wrapped, TallList;
    TallListOk(false);
    TallListOk(true);
    assert |TallList(false)| == |TallList(true)| == 24 by {
      TallLengths();
    }
  }

  lemma TallLengths()
    ensures |TallList(false)| == |TallList(true)| == 24
  {
  }

  lemma TallLoaded()
    ensures TallLists().Loaded(Tall(), true, 16) && TallLists().Kept(Tall(), true, 16)
  {
  }

  /** Below the last row group of its first iMCU row come row 16, the last one, and then, instead of row 16 again, a
      row of padding. */
  lemma TallShowsPadding()
    ensures TallLists().WrappedBoth(Tall())
    ensures TallLists().Loaded(Tall(), true, 16) && TallLists().Kept(Tall(), true, 16)
    ensures TallLists().View(Tall(), true, 18) == [12, 13, 14, 15, 16, 17] && Clamp(17, Tall().height) == 16
  {
    TallRegular();
    TallLoaded();
    ViewPostponed(Tall(), TallLists(), true, 16, TallLists().View(Tall(), true, 18));
  }
}
