/** The main buffer controller of the decompressor when the upsampler needs context rows: it hands over every row
    group once, in order, together with its neighbours. */
module MainControl {
  import opened Bits
  import opened FunnyList
  import opened ContextRows

  /** A component of an image with `groups` row groups, `m` of them to an iMCU row. */
  predicate CompOk(c: Comp, m: nat, groups: nat)
  {
    c.Ok() && c.imcu == c.n * m && groups > 0 && c.n * (groups - 1) < c.height <= c.n * groups
  }

  // ---------------------------------------------------------------- counting rows

  lemma NextBase(c: Comp, m: nat, groups: nat, first: nat)
    requires CompOk(c, m, groups)
    ensures (first + m) * c.n == first * c.n + c.imcu && (first + 1) * c.n == first * c.n + c.n
  {
  }

  lemma Scaled(a: nat, b: nat, n: nat)
    requires a <= b
    ensures a * n <= b * n
  {
    if n > 0 {
      MulAtLeast(n, 1);
      assert (b - a) * n >= 0;
      assert (b - a) * n == b * n - a * n;
    }
  }

  lemma ScaledStep(a: nat, b: nat, n: nat)
    requires a < b
    ensures a * n + n <= b * n
  {
    Scaled(a + 1, b, n);
    assert (a + 1) * n == a * n + n;
  }

  /** All rows of an iMCU row that is not the last are real, and the next one has real rows, too. */
  lemma RowsOf(c: Comp, m: nat, groups: nat, first: nat)
    requires CompOk(c, m, groups) && first < groups
    ensures first * c.n < c.height
    ensures first + m < groups ==> first * c.n + c.imcu < c.height
    ensures first + m >= groups ==> c.height - first * c.n <= c.imcu
  {
    NextBase(c, m, groups, first);
    Scaled(first, groups - 1, c.n);
    if first + m < groups {
      Scaled(first + m, groups - 1, c.n);
    } else {
      Scaled(groups, first + m, c.n);
    }
  }

  lemma LeftOver(height: nat, imcu: nat, k: nat, left: nat)
    requires imcu > 0 && height == k * imcu + left && 0 < left <= imcu
    ensures left == if height % imcu == 0 then imcu else height % imcu
  {
    if left < imcu {
      DivUnique(height, imcu, k, left);
    } else {
      assert (k + 1) * imcu == k * imcu + imcu;
      DivUnique(height, imcu, k + 1, 0);
    }
  }

  lemma LeftGroups(height: nat, n: nat, groups: nat, first: nat)
    requires n > 0 && first < groups && n * (groups - 1) < height <= n * groups && first * n < height
    ensures (height - first * n - 1) / n + 1 == groups - first
  {
    var g := groups - 1 - first;
    assert n * (groups - 1) == first * n + g * n;
    assert n * groups == n * (groups - 1) + n;
    DivUnique(height - first * n - 1, n, g, height - first * n - 1 - g * n);
  }

  /** The rows of the last iMCU row that are real, and the row groups they make. */
  lemma LastRows(c: Comp, m: nat, groups: nat, first: nat, k: nat)
    requires CompOk(c, m, groups) && first == k * m && first < groups <= first + m
    ensures c.imcu > 0 && c.n > 0 && first * c.n < c.height
    ensures var left := c.height - first * c.n;
      && left == (if c.height % c.imcu == 0 then c.imcu else c.height % c.imcu)
      && (left - 1) / c.n + 1 == groups - first
  {
    RowsOf(c, m, groups, first);
    BaseOf(c, m, groups, k);
    LeftOver(c.height, c.imcu, k, c.height - first * c.n);
    LeftGroups(c.height, c.n, groups, first);
  }

  /** The iMCU row counter tells the last one. */
  lemma LastCounter(m: nat, groups: nat, k: nat)
    requires m > 0 && groups > 0 && k * m < groups
    ensures k + 1 == (groups - 1) / m + 1 <==> k * m + m >= groups
  {
    var q := (groups - 1) / m;
    assert q * m <= groups - 1 < q * m + m;
    if k < q {
      ScaledStep(k, q, m);
    } else if q < k {
      ScaledStep(q, k, m);
    }
  }

  /** The real rows from row group `first` on. */
  function RowsLeft(c: Comp, first: nat): nat { if first * c.n <= c.height then c.height - first * c.n else 0 }

  // ---------------------------------------------------------------- the state of a component

  /** The iMCU row that starts with row group `first` is in the workspace. */
  ghost predicate InCore(c: Comp, l: Lists, which: bool, first: nat)
  {
    && l.Regular(c) && l.Loaded(c, which, first * c.n)
    && if first == 0 then !which && Top(c.n, l.x0) else l.WrappedBoth(c) && l.Kept(c, which, first * c.n)
  }

  /** It is the next to be read. */
  ghost predicate Awaiting(c: Comp, l: Lists, which: bool, first: nat)
  {
    l.Regular(c) && if first == 0 then !which && Top(c.n, l.x0) else l.WrappedBoth(c) && l.Kept(c, which, first * c.n)
  }

  /** Its row groups can be handed over. */
  ghost predicate Showing(c: Comp, l: Lists, which: bool, first: nat, m: nat, groups: nat)
  {
    && first * c.n <= c.height
    && if first + m < groups then InCore(c, l, which, first) && l.Shows(c, which, first * c.n, c.imcu)
       else l.Shows(c, which, first * c.n, RowsLeft(c, first) + 2 * c.n)
  }

  lemma CoreShows(c: Comp, l: Lists, which: bool, first: nat, m: nat, groups: nat)
    requires CompOk(c, m, groups) && InCore(c, l, which, first) && first < groups && (first > 0 ==> first >= m)
    ensures first + m < groups ==> Showing(c, l, which, first, m, groups)
    ensures first + m >= groups ==> ShowsReal(c, l, which, first * c.n, RowsLeft(c, first))
  {
    hide Middle, Wrapped, Top, Place, Lists.Loaded, Lists.Kept, Lists.Shows, ShowsReal, Lists.WrappedBoth,
        Lists.Regular;
    RowsOf(c, m, groups, first);
    if first > 0 {
      Scaled(m, first, c.n);
    }
    if first + m < groups {
      if first == 0 {
        ShowsFirst(c, l);
      } else {
        ShowsLater(c, l, which, first * c.n);
      }
    } else {
      if first == 0 {
        RealFirst(c, l, c.height);
      } else {
        RealLater(c, l, which, first * c.n, c.height - first * c.n);
      }
    }
  }

  /** What is handed over for row group `g`. */
  ghost predicate GroupRows(comps: seq<Comp>, view: seq<seq<int>>, g: nat)
  {
    |view| == |comps| && forall ci | 0 <= ci < |comps| :: Neighbours(comps[ci], view[ci], g * comps[ci].n)
  }

  /** Of every component: the rows of group `g` itself, as far as they are in the image, with those of the group above
      before them and the first row below after them; the first and the last row of the image stand in for rows
      outside. */
  lemma HandedOver(comps: seq<Comp>, view: seq<seq<int>>, g: nat, ci: nat, i: nat)
    requires GroupRows(comps, view, g) && ci < |comps| && i < comps[ci].n
    ensures var n, h := comps[ci].n, comps[ci].height;
      && h > 0 && |view[ci]| == 3 * n
      && view[ci][n + i] == (if g * n + i < h then g * n + i else h - 1)
      && view[ci][i] == (if g == 0 then 0 else if (g - 1) * n + i < h then (g - 1) * n + i else h - 1)
      && view[ci][2 * n] == (if (g + 1) * n < h then (g + 1) * n else h - 1)
  {
    var c, r := comps[ci], g * comps[ci].n;
    assert Neighbours(c, view[ci], r);
    assert (g + 1) * c.n == r + c.n && (g - 1) * c.n == r - c.n;
    assert GoodRow(c, view[ci][c.n + i], r - c.n + (c.n + i), true);
    assert GoodRow(c, view[ci][i], r - c.n + i, true);
    assert GoodRow(c, view[ci][2 * c.n], r - c.n + 2 * c.n, true);
    if g > 0 {
      Scaled(1, g, c.n);
    }
  }

  datatype ContextState = PrepareForIMcu | ProcessIMcu | PostponedRow

  class MainController {
    const m: nat
    const comps: seq<Comp>
    const totalIMcuRows: nat
    ghost const groups: nat
    var lists: seq<Lists>
    var bufferFull: bool
    var rowgroupCtr: nat
    var whichptr: bool
    var state: ContextState
    var rowgroupsAvail: nat
    var iMcuRowCtr: nat
    /** The first row group of the iMCU row in the workspace, or of the next one to be read. */
    ghost var first: nat
    /** How many row groups have been handed over. */
    ghost var given: nat

    /** The parts that never change. */
    ghost predicate SetUp()
    {
      && m >= 2 && |comps| > 0 && groups > 0 && totalIMcuRows == (groups - 1) / m + 1
      && forall ci | 0 <= ci < |comps| :: CompOk(comps[ci], m, groups)
    }

    ghost predicate AllAwaiting()
      reads this`lists, this`whichptr, this`first
    {
      |lists| == |comps| && forall ci | 0 <= ci < |comps| :: Awaiting(comps[ci], lists[ci], whichptr, first)
    }

    ghost predicate AllInCore()
      reads this`lists, this`whichptr, this`first
    {
      |lists| == |comps| && forall ci | 0 <= ci < |comps| :: InCore(comps[ci], lists[ci], whichptr, first)
    }

    ghost predicate AllShowing()
      reads this`lists, this`whichptr, this`first
    {
      |lists| == |comps| && forall ci | 0 <= ci < |comps| :: Showing(comps[ci], lists[ci], whichptr, first, m, groups)
    }

    /** Which iMCU row it is. */
    ghost predicate Counted()
      reads this`bufferFull, this`iMcuRowCtr, this`first
    {
      first < groups && if bufferFull then iMcuRowCtr > 0 && first == (iMcuRowCtr - 1) * m else first == iMcuRowCtr * m
    }

    ghost predicate Valid()
      reads this
    {
      && SetUp() && given <= groups
      && (given < groups ==> Counted() && match state
        case PrepareForIMcu => given == first && (if bufferFull then AllInCore() else AllAwaiting() && first == 0)
        case ProcessIMcu => bufferFull && InProcess() && rowgroupCtr < rowgroupsAvail
        case PostponedRow =>
          && first > 0 && rowgroupCtr == m + 1 && rowgroupsAvail == m + 2 && given == first - 1
          && if bufferFull then AllInCore() else AllAwaiting())
    }

    /** The row groups of the iMCU row are being handed over: all but the last, or in the last iMCU row all. */
    ghost predicate InProcess()
      reads this
    {
      && given == first + rowgroupCtr && rowgroupCtr <= rowgroupsAvail && AllShowing()
      && rowgroupsAvail == if first + m < groups then m - 1 else groups - first
    }

    /** start_pass_main: make_funny_pointers for all components, and an empty buffer. */
    constructor (m: nat, comps: seq<Comp>, totalIMcuRows: nat, ghost groups: nat)
      requires m >= 2 && |comps| > 0 && groups > 0 && totalIMcuRows == (groups - 1) / m + 1
      requires forall ci | 0 <= ci < |comps| :: CompOk(comps[ci], m, groups)
      ensures Valid() && given == 0 && this.m == m && this.comps == comps && this.groups == groups
    {
      hide CompOk, Awaiting;
      this.m, this.comps, this.totalIMcuRows, this.groups := m, comps, totalIMcuRows, groups;
      bufferFull, rowgroupCtr, whichptr, state, rowgroupsAvail, iMcuRowCtr := false, 0, false, PrepareForIMcu, 0, 0;
      first, given, lists := 0, 0, [];
      new;
      while |lists| < |comps|
        invariant |lists| <= |comps| && SetUp() && !whichptr && !bufferFull && state == PrepareForIMcu
            && iMcuRowCtr == 0
        invariant first == given == 0 && this.m == m && this.comps == comps && this.groups == groups
        invariant forall ci | 0 <= ci < |lists| :: Awaiting(comps[ci], lists[ci], false, 0)
      {
        var l := NewLists(comps[|lists|], m, groups);
        lists := lists + [l];
      }
    }

    /** Read an iMCU row into the workspace of every component. */
    method ReadIMcuRows()
      requires SetUp() && AllAwaiting() && !bufferFull && Counted()
      modifies this`lists, this`bufferFull, this`iMcuRowCtr
      ensures AllInCore() && bufferFull && Counted() && iMcuRowCtr == old(iMcuRowCtr) + 1
    {
      hide InCore, Awaiting;
      ghost var before := lists;
      for ci := 0 to |comps|
        invariant |lists| == |comps| && !bufferFull && iMcuRowCtr == old(iMcuRowCtr)
        invariant forall cj | 0 <= cj < ci :: InCore(comps[cj], lists[cj], whichptr, first)
        invariant forall cj | ci <= cj < |comps| :: Awaiting(comps[cj], lists[cj], whichptr, first)
      {
        BaseOf(comps[ci], m, groups, iMcuRowCtr);
        var l := ReadOne(comps[ci], lists[ci], whichptr, iMcuRowCtr * comps[ci].imcu, first);
        lists := lists[ci := l];
      }
      bufferFull := true;
      iMcuRowCtr := iMcuRowCtr + 1;
    }

    /** set_bottom_pointers. */
    method SetBottomPointers()
      requires SetUp() && AllInCore() && bufferFull && Counted() && first + m >= groups && (first > 0 ==> first >= m)
      modifies this`lists, this`rowgroupsAvail
      ensures AllShowing() && rowgroupsAvail == groups - first
    {
      hide InCore, Showing, CompOk;
      for ci := 0 to |comps|
        invariant |lists| == |comps| && (ci > 0 ==> rowgroupsAvail == groups - first)
        invariant forall cj | 0 <= cj < ci :: Showing(comps[cj], lists[cj], whichptr, first, m, groups)
        invariant forall cj | ci <= cj < |comps| :: InCore(comps[cj], lists[cj], whichptr, first)
      {
        var c := comps[ci];
        LastRows(c, m, groups, first, iMcuRowCtr - 1);
        CompSizes(c, m, groups);
        var rowsLeft := c.height % c.imcu;
        if rowsLeft == 0 {
          rowsLeft := c.imcu;
        }
        if ci == 0 {
          rowgroupsAvail := (rowsLeft - 1) / c.n + 1;
        }
        var l := BottomOne(c, lists[ci], whichptr, rowsLeft, first, m, groups);
        lists := lists[ci := l];
      }
    }

    /** set_wraparound_pointers, after the first iMCU row. */
    method SetWraparoundPointers()
      requires |lists| == |comps| && forall ci | 0 <= ci < |comps| :: lists[ci].Ok(comps[ci])
      modifies this`lists
      ensures |lists| == |comps|
      ensures old(AllInCore()) ==> AllWrapped()
    {
      hide InCore, WrappedCore, Lists.Ok;
      for ci := 0 to |comps|
        invariant |lists| == |comps| && forall cj | 0 <= cj < |comps| :: lists[cj].Ok(comps[cj])
        invariant old(AllInCore()) ==> forall cj | 0 <= cj < ci :: WrappedCore(comps[cj], lists[cj], whichptr, first)
        invariant old(AllInCore()) ==> forall cj | ci <= cj < |comps| :: InCore(comps[cj], lists[cj], whichptr, first)
      {
        var l := WrapOne(comps[ci], lists[ci], whichptr, first);
        lists := lists[ci := l];
      }
    }

    ghost predicate AllWrapped()
      reads this`lists, this`whichptr, this`first
    {
      |lists| == |comps| && forall ci | 0 <= ci < |comps| :: WrappedCore(comps[ci], lists[ci], whichptr, first)
    }

    /** The postprocessor takes up to `take` of the row groups available. */
    method PostProcess(take: nat) returns (out: seq<seq<seq<int>>>)
      requires SetUp() && |lists| == |comps| && rowgroupCtr <= rowgroupsAvail && Presented(given - rowgroupCtr)
      modifies this`rowgroupCtr, this`given
      ensures rowgroupCtr <= rowgroupsAvail && |out| == rowgroupCtr - old(rowgroupCtr) && given == old(given) + |out|
          && Presented(given - rowgroupCtr)
      ensures |out| == if take < rowgroupsAvail - old(rowgroupCtr) then take else rowgroupsAvail - old(rowgroupCtr)
      ensures forall k | 0 <= k < |out| :: GroupRows(comps, out[k], old(given) + k)
    {
      hide GroupRows, GroupPresented;
      ghost var d := given - rowgroupCtr;
      out := [];
      while |out| < take && rowgroupCtr < rowgroupsAvail
        invariant rowgroupCtr <= rowgroupsAvail && |out| == rowgroupCtr - old(rowgroupCtr)
            && given == old(given) + |out| && |out| <= take
        invariant given - rowgroupCtr == d && Presented(d)
        invariant forall k | 0 <= k < |out| :: GroupRows(comps, out[k], old(given) + k)
      {
        var view := Views();
        out := out + [view];
        rowgroupCtr := rowgroupCtr + 1;
        given := given + 1;
      }
    }

    /** Every row group from `rowgroupCtr` up to `rowgroupsAvail` is there with its neighbours; position `g` has
        row group `g + d`. */
    ghost predicate Presented(d: int)
      reads this`lists, this`whichptr, this`rowgroupCtr, this`rowgroupsAvail
    {
      |lists| == |comps|
          && forall g: nat, ci: nat | rowgroupCtr <= g < rowgroupsAvail && ci < |comps| :: GroupPresented(g, ci, d)
    }

    ghost predicate GroupPresented(g: nat, ci: nat, d: int)
      requires ci < |comps| == |lists|
      reads this`lists, this`whichptr
    {
      var c, l := comps[ci], lists[ci];
      l.Ok(c) && g + d >= 0 && g * c.n + 3 * c.n <= c.imcu + 4 * c.n
          && Neighbours(c, l.View(c, whichptr, g * c.n), (g + d) * c.n)
    }

    /** The rows around row group `rowgroupCtr` in all components. */
    method Views() returns (view: seq<seq<int>>)
      requires |lists| == |comps| && rowgroupCtr < rowgroupsAvail && Presented(given - rowgroupCtr)
      ensures GroupRows(comps, view, given)
    {
      hide Neighbours, Lists.View, Lists.Ok;
      view := [];
      for ci := 0 to |comps|
        invariant |view| == ci && forall cj | 0 <= cj < ci :: Neighbours(comps[cj], view[cj], given * comps[cj].n)
      {
        assert GroupPresented(rowgroupCtr, ci, given - rowgroupCtr);
        view := view + [lists[ci].View(comps[ci], whichptr, rowgroupCtr * comps[ci].n)];
      }
    }

    lemma CoreAllShows()
      requires SetUp() && AllInCore() && first < groups && (first > 0 ==> first >= m) && first + m < groups
      ensures AllShowing()
    {
      hide InCore, Showing;
      forall ci | 0 <= ci < |comps|
        ensures Showing(comps[ci], lists[ci], whichptr, first, m, groups)
      {
        CoreShows(comps[ci], lists[ci], whichptr, first, m, groups);
      }
    }

    lemma ProcessPresents()
      requires SetUp() && first < groups && InProcess()
      ensures given - rowgroupCtr == first && Presented(first)
    {
      hide Showing, Neighbours, Lists.Ok;
      forall g: nat, ci: nat | rowgroupCtr <= g < rowgroupsAvail && ci < |comps|
        ensures GroupPresented(g, ci, first)
      {
        PresentCurrent(comps[ci], lists[ci], whichptr, first, m, groups, g);
      }
    }

    lemma PostponedPresents()
      requires SetUp() && m <= first < groups && AllInCore() && rowgroupCtr == m + 1 && rowgroupsAvail == m + 2
          && given == first - 1
      ensures Presented(given - rowgroupCtr)
    {
      hide InCore, Neighbours, Lists.Ok;
      var d := given - rowgroupCtr;
      forall g: nat, ci: nat | rowgroupCtr <= g < rowgroupsAvail && ci < |comps|
        ensures GroupPresented(g, ci, d)
      {
        PresentPostponed(comps[ci], lists[ci], whichptr, first, m, groups);
      }
    }

    lemma CounterSays()
      requires SetUp() && Counted() && bufferFull
      ensures iMcuRowCtr == totalIMcuRows <==> first + m >= groups
      ensures first > 0 ==> first >= m
      ensures iMcuRowCtr == 1 <==> first == 0
    {
      LastCounter(m, groups, iMcuRowCtr - 1);
      if iMcuRowCtr > 1 {
        Scaled(1, iMcuRowCtr - 1, m);
      }
    }

    /** The row group postponed from the iMCU row before. */
    method FeedPostponed(take: nat) returns (out: seq<seq<seq<int>>>)
      requires Valid() && given < groups && bufferFull && state == PostponedRow
      modifies this`rowgroupCtr, this`given
      ensures given == old(given) + |out| && forall k | 0 <= k < |out| :: GroupRows(comps, out[k], old(given) + k)
      ensures |out| == if take == 0 then 0 else 1
      ensures rowgroupCtr == old(rowgroupCtr) + |out|
    {
      hide InCore, GroupRows, GroupPresented, CompOk;
      CounterSays();
      PostponedPresents();
      out := PostProcess(take);
    }

    /** The row groups of the current iMCU row. */
    method FeedCurrent(take: nat) returns (out: seq<seq<seq<int>>>)
      requires SetUp() && Counted() && bufferFull && InProcess()
      modifies this`rowgroupCtr, this`given
      ensures Counted() && InProcess() && given == old(given) + |out|
          && forall k | 0 <= k < |out| :: GroupRows(comps, out[k], old(given) + k)
      ensures take > 0 && old(rowgroupCtr) < rowgroupsAvail ==> |out| > 0
    {
      hide Showing, GroupRows, GroupPresented, CompOk;
      ProcessPresents();
      out := PostProcess(take);
    }

    /** Prepare for the row groups of an iMCU row. */
    method PrepareIMcu()
      requires SetUp() && Counted() && bufferFull && AllInCore() && given == first
      modifies this`rowgroupCtr, this`rowgroupsAvail, this`lists, this`state
      ensures state == ProcessIMcu && InProcess() && rowgroupCtr == 0 < rowgroupsAvail
    {
      hide InCore, Showing, CompOk;
      CounterSays();
      rowgroupCtr := 0;
      rowgroupsAvail := m - 1;
      if iMcuRowCtr == totalIMcuRows {
        SetBottomPointers();
      } else {
        CoreAllShows();
      }
      state := ProcessIMcu;
    }

    /** Prepare to read the next iMCU row through the other list. */
    method NextIMcu()
      requires SetUp() && Counted() && bufferFull && InProcess() && rowgroupCtr == rowgroupsAvail
      modifies this
      ensures Valid() && given == old(given)
    {
      hide InCore, Showing, CompOk, WrappedCore, Awaiting, Lists.Ok;
      CounterSays();
      forall ci | 0 <= ci < |comps|
        ensures lists[ci].Ok(comps[ci]) && (first + m < groups ==> InCore(comps[ci], lists[ci], whichptr, first))
        ensures first + m < groups && first > 0 ==> WrappedCore(comps[ci], lists[ci], whichptr, first)
      {
        ShowingParts(comps[ci], lists[ci], whichptr, first, m, groups);
        if first + m < groups {
          CoreOk(comps[ci], lists[ci], whichptr, first);
        }
      }
      if iMcuRowCtr == 1 {
        SetWraparoundPointers();
      }
      if first + m < groups {
        AwaitNext();
      }
      whichptr := !whichptr;
      bufferFull := false;
      rowgroupCtr := m + 1;
      rowgroupsAvail := m + 2;
      state := PostponedRow;
      first := first + m;
    }

    lemma AwaitNext()
      requires SetUp() && AllWrapped()
      ensures forall ci | 0 <= ci < |comps| :: Awaiting(comps[ci], lists[ci], !whichptr, first + m)
    {
      hide CompOk, WrappedCore, Awaiting;
      var other, next := !whichptr, first + m;
      forall ci | 0 <= ci < |comps|
        ensures Awaiting(comps[ci], lists[ci], other, next)
      {
        NextAwaits(comps[ci], lists[ci], whichptr, first, m, groups);
      }
    }

    /** process_data_context_main, while the image is not complete.  `loaded` says whether the coefficient
        controller has delivered an iMCU row, should one be needed; `take1` and `take2` how many row groups the
        postprocessor takes when it is called, and `outFull` whether the first call fills the output buffer. */
    method ProcessData(loaded: bool, take1: nat, outFull: bool, take2: nat) returns (out: seq<seq<seq<int>>>)
      requires Valid() && given < groups
      modifies this
      ensures Valid() && given == old(given) + |out|
      ensures forall k | 0 <= k < |out| :: GroupRows(comps, out[k], old(given) + k)
      ensures loaded && take1 > 0 && take2 > 0 ==> |out| > 0
    {
      hide GroupRows, AllAwaiting, AllInCore, AllShowing, Presented, CompOk;
      out := [];
      if !bufferFull {
        if !loaded {
          return;
        }
        ReadIMcuRows();
      }
      if state == PostponedRow {
        out := FeedPostponed(take1);
        if rowgroupCtr < rowgroupsAvail {
          return;
        }
        state := PrepareForIMcu;
        if outFull {
          return;
        }
      }
      if state == PrepareForIMcu {
        PrepareIMcu();
      }
      var more := FeedCurrent(take2);
      out := out + more;
      if rowgroupCtr < rowgroupsAvail {
        return;
      }
      NextIMcu();
    }
  }

  lemma BaseOf(c: Comp, m: nat, groups: nat, k: nat)
    requires CompOk(c, m, groups)
    ensures k * c.imcu == (k * m) * c.n && k * c.imcu >= 0
  {
    assert k * (c.n * m) == (k * m) * c.n;
  }

  lemma CompSizes(c: Comp, m: nat, groups: nat)
    requires CompOk(c, m, groups)
    ensures c.n > 0 && c.imcu > 0 && c.Ok()
  {
  }

  /** The lists of one component before the first iMCU row. */
  method NewLists(c: Comp, m: nat, ghost groups: nat) returns (l: Lists)
    requires CompOk(c, m, groups)
    ensures Awaiting(c, l, false, 0)
  {
    var none := seq(c.imcu + 4 * c.n, _ => 0);
    var x := CopyPointers(c.n, c.imcu, none);
    var x1 := SwapGroups(c.n, c.imcu, x);
    var x0 := DuplicateFirst(c.n, c.imcu, x);
    l := Lists(seq(c.imcu + 2 * c.n, _ => 0), x0, x1);
  }

  method ReadOne(c: Comp, l: Lists, which: bool, base: nat, ghost first: nat) returns (l': Lists)
    requires Awaiting(c, l, which, first) && base == first * c.n
    ensures InCore(c, l', which, first)
  {
    hide Middle, Wrapped, Top, Lists.Loaded, Lists.Kept;
    l' := ReadIMcuRow(c, l, which, base);
  }

  method BottomOne(c: Comp, l: Lists, which: bool, rowsLeft: nat, ghost first: nat, ghost m: nat, ghost groups: nat)
    returns (l': Lists)
    requires CompOk(c, m, groups) && InCore(c, l, which, first) && first < groups <= first + m
        && (first > 0 ==> first >= m)
    requires first * c.n <= c.height && rowsLeft == c.height - first * c.n
    ensures Showing(c, l', which, first, m, groups)
  {
    hide Middle, Wrapped, Top, Lists.Loaded, Lists.Kept, InCore, Lists.Shows, ShowsReal;
    RowsOf(c, m, groups, first);
    CoreShows(c, l, which, first, m, groups);
    l' := BottomPointers(c, l, which, first * c.n, rowsLeft);
  }

  /** After the first iMCU row, the lists wrap around. */
  ghost predicate WrappedCore(c: Comp, l: Lists, which: bool, first: nat)
  {
    l.WrappedBoth(c) && l.Loaded(c, which, first * c.n)
  }

  method WrapOne(c: Comp, l: Lists, which: bool, ghost first: nat) returns (l': Lists)
    requires l.Ok(c)
    ensures l'.Ok(c) && (InCore(c, l, which, first) ==> WrappedCore(c, l', which, first))
  {
    var x0 := WrapAround(c.n, c.imcu, l.x0);
    var x1 := WrapAround(c.n, c.imcu, l.x1);
    l' := Lists(l.buffer, x0, x1);
  }

  lemma CoreOk(c: Comp, l: Lists, which: bool, first: nat)
    requires InCore(c, l, which, first)
    ensures l.Ok(c) && (first > 0 ==> WrappedCore(c, l, which, first))
  {
    hide Middle, Wrapped, Top, Lists.Loaded, Lists.Kept;
  }

  lemma ShowingParts(c: Comp, l: Lists, which: bool, first: nat, m: nat, groups: nat)
    requires Showing(c, l, which, first, m, groups)
    ensures l.Ok(c) && (first + m < groups ==> InCore(c, l, which, first))
  {
    hide Middle, Wrapped, Top, Lists.Loaded, Lists.Kept, Place;
  }

  /** With the other list, the component waits for its next iMCU row. */
  lemma NextAwaits(c: Comp, l: Lists, which: bool, first: nat, m: nat, groups: nat)
    requires CompOk(c, m, groups) && WrappedCore(c, l, which, first) && m > 0
    ensures Awaiting(c, l, !which, first + m)
  {
    hide Middle, Wrapped, Top, Lists.Loaded, Lists.Kept, Lists.WrappedBoth;
    KeptForNext(c, l, which, first * c.n);
    NextBase(c, m, groups, first);
    WrappedRegular(c, l);
  }

  lemma WrappedRegular(c: Comp, l: Lists)
    requires l.WrappedBoth(c)
    ensures l.Regular(c)
  {
  }

  /** Row group `g` of the iMCU row, with its neighbours. */
  lemma PresentCurrent(c: Comp, l: Lists, which: bool, first: nat, m: nat, groups: nat, g: nat)
    requires CompOk(c, m, groups) && m >= 2 && first < groups && Showing(c, l, which, first, m, groups)
    requires g < if first + m < groups then m - 1 else groups - first
    ensures l.Ok(c) && g * c.n + 3 * c.n <= c.imcu + 4 * c.n
        && Neighbours(c, l.View(c, which, g * c.n), (g + first) * c.n)
  {
    hide Middle, Wrapped, Top, Lists.Loaded, Lists.Kept, Lists.Shows, InCore, Lists.Ok, Neighbours;
    ShowingParts(c, l, which, first, m, groups);
    RowsOf(c, m, groups, first);
    assert (g + first) * c.n == g * c.n + first * c.n;
    if first + m < groups {
      Scaled(g + 2, m, c.n);
      assert (g + 2) * c.n == g * c.n + 2 * c.n;
      ViewCurrent(c, l, which, first * c.n, c.imcu, g * c.n);
    } else {
      Scaled(g + first, groups - 1, c.n);
      ViewCurrent(c, l, which, first * c.n, RowsLeft(c, first) + 2 * c.n, g * c.n);
    }
  }

  /** The row group that was postponed, with its neighbours. */
  lemma PresentPostponed(c: Comp, l: Lists, which: bool, first: nat, m: nat, groups: nat)
    requires CompOk(c, m, groups) && m >= 2 && m <= first < groups && InCore(c, l, which, first)
    ensures l.Ok(c) && (m + 1) * c.n + 3 * c.n <= c.imcu + 4 * c.n
        && Neighbours(c, l.View(c, which, (m + 1) * c.n), (first - 1) * c.n)
  {
    hide Middle, Wrapped, Top, Lists.Loaded, Lists.Kept, Lists.WrappedBoth, Lists.Ok, Neighbours, Lists.Regular;
    CoreOk(c, l, which, first);
    RowsOf(c, m, groups, first);
    Scaled(m, first, c.n);
    assert (m + 1) * c.n == c.imcu + c.n;
    assert (first - 1) * c.n == first * c.n - c.n;
    ViewPostponed(c, l, which, first * c.n, l.View(c, which, c.imcu + c.n));
  }

  // ---------------------------------------------------------------- a whole image

  /** One call of the main controller. */
  datatype Call = Call(loaded: bool, take1: nat, outFull: bool, take2: nat)

  /** The call gets its input, and has room for output both before and after reading it. */
  predicate Ready(c: Call) {
    c.loaded && c.take1 > 0 && c.take2 > 0
  }

  /** Whatever the pattern of calls: row groups come out once each, in order, with their neighbours; each call
      that gets its input and has room for output makes progress. */
  method OutputImage(ctl: MainController, calls: seq<Call>, total: nat) returns (out: seq<seq<seq<int>>>)
    requires ctl.Valid() && ctl.given == 0 && total == ctl.groups
    modifies ctl
    ensures |out| <= total && forall g | 0 <= g < |out| :: GroupRows(ctl.comps, out[g], g)
    ensures |calls| >= total && (forall i | 0 <= i < |calls| :: Ready(calls[i])) ==> |out| == total
  {
    hide GroupRows, MainController.Valid;
    GivenBound(ctl);
    out := [];
    var i := 0;
    while i < |calls| && |out| < total
      invariant i <= |calls| && ctl.Valid() && ctl.given == |out| <= total
      invariant forall g | 0 <= g < |out| :: GroupRows(ctl.comps, out[g], g)
      invariant (forall j | 0 <= j < i :: Ready(calls[j])) ==> |out| >= i || |out| == total
    {
      var c := calls[i];
      var more := ctl.ProcessData(c.loaded, c.take1, c.outFull, c.take2);
      GivenBound(ctl);
      ghost var before := out;
      out := out + more;
      forall g | 0 <= g < |out|
        ensures GroupRows(ctl.comps, out[g], g)
      {
        if g >= |before| {
          var k := g - |before|;
          assert out[g] == more[k] && GroupRows(ctl.comps, more[k], |before| + k);
        }
      }
      i := i + 1;
    }
  }

  lemma GivenBound(ctl: MainController)
    requires ctl.Valid()
    ensures ctl.given <= ctl.groups
  {
  }
}
