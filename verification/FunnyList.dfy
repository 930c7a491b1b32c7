/** The two lists of row addresses ("funny pointers") that the main buffer controller of the decompressor keeps for one
    component.  The workspace holds M + 2 row groups, and the lists are arranged such that every row group has its
    neighbours in the image next to it. */
module FunnyList {
  import opened Bits

  /** The real image row nearest to `r`. */
  function Clamp(r: int, height: nat): int
    requires height > 0
  {
    if r < 0 then 0 else if r >= height then height - 1 else r
  }

  /** `n` rows to a row group, `imcu` of them to an iMCU row. */
  predicate SizesOk(n: nat, imcu: nat) { n > 0 && imcu >= 2 * n }

  /** Which row of the workspace belongs at position `p` of a list: the second list has the last four row groups
      swapped. */
  function Place(which: bool, n: nat, imcu: nat, p: nat): nat
    requires SizesOk(n, imcu) && p < imcu + 2 * n
  {
    if !which || p < imcu - 2 * n then p else if p < imcu then p + 2 * n else p - 2 * n
  }

  /** A list starts with the row group above, at negative positions: position `p` is entry `p + n`. */
  ghost predicate Middle(which: bool, n: nat, imcu: nat, l: seq<nat>)
  {
    SizesOk(n, imcu) && |l| == imcu + 4 * n
        && forall q: nat | n <= q < imcu + 3 * n :: l[q] == Place(which, n, imcu, q - n)
  }

  /** Above the image there is nothing but its first row. */
  ghost predicate Top(n: nat, l: seq<nat>)
  {
    |l| > n && forall q: nat | q < n :: l[q] == l[n]
  }

  /** Above comes the last row group of the list, and below the first. */
  ghost predicate Wrapped(n: nat, imcu: nat, l: seq<nat>)
  {
    && |l| == imcu + 4 * n
    && (forall q: nat | q < n :: l[q] == l[imcu + 2 * n + q])
    && (forall q: nat | imcu + 3 * n <= q < imcu + 4 * n :: l[q] == l[q - (imcu + 2 * n)])
  }

  /** The rows from position `last` on are all the same, over two row groups. */
  ghost predicate Bottomed(n: nat, imcu: nat, l: seq<nat>, l0: seq<nat>, last: nat)
    requires last < imcu
  {
    && |l| == |l0| == imcu + 4 * n
    && forall q: nat | q < |l| :: l[q] == if last + n < q <= last + 3 * n then l0[last + n] else l0[q]
  }

  method CopyPointers(n: nat, imcu: nat, l0: seq<nat>) returns (l: seq<nat>)
    requires SizesOk(n, imcu) && |l0| == imcu + 4 * n
    ensures Middle(false, n, imcu, l)
  {
    l := l0;
    var i: nat := 0;
    while i < imcu + 2 * n
      invariant i <= imcu + 2 * n && |l| == imcu + 4 * n && forall q: nat | n <= q < n + i :: l[q] == q - n
    {
      l := l[i + n := i];
      i := i + 1;
    }
  }

  method SwapGroups(n: nat, imcu: nat, l0: seq<nat>) returns (l: seq<nat>)
    requires Middle(false, n, imcu, l0)
    ensures Middle(true, n, imcu, l)
  {
    l := l0;
    var i: nat := 0;
    while i < 2 * n
      invariant i <= 2 * n && |l| == imcu + 4 * n
      invariant forall q: nat | n <= q < imcu - n || (imcu - n + i <= q < imcu + n)
          || (imcu + n + i <= q < imcu + 3 * n) :: l[q] == q - n
      invariant forall q: nat | imcu - n <= q < imcu - n + i :: l[q] == q - n + 2 * n
      invariant forall q: nat | imcu + n <= q < imcu + n + i :: l[q] == q - n - 2 * n
    {
      l := l[imcu - 2 * n + i + n := imcu + i];
      l := l[imcu + i + n := imcu - 2 * n + i];
      i := i + 1;
    }
  }

  method DuplicateFirst(n: nat, imcu: nat, l0: seq<nat>) returns (l: seq<nat>)
    requires Middle(false, n, imcu, l0)
    ensures Middle(false, n, imcu, l) && Top(n, l)
  {
    l := l0;
    var i: nat := 0;
    while i < n
      invariant i <= n && |l| == |l0| && (forall q: nat | n <= q < |l| :: l[q] == l0[q])
          && forall q: nat | q < i :: l[q] == l[n]
    {
      l := l[i := l[n]];
      i := i + 1;
    }
  }

  /** set_wraparound_pointers, for one list. */
  method WrapAround(n: nat, imcu: nat, l0: seq<nat>) returns (l: seq<nat>)
    requires SizesOk(n, imcu) && |l0| == imcu + 4 * n
    ensures Wrapped(n, imcu, l) && forall q: nat | n <= q < imcu + 3 * n :: l[q] == l0[q]
  {
    l := l0;
    var i: nat := 0;
    while i < n
      invariant i <= n && |l| == |l0| && forall q: nat | n <= q < imcu + 3 * n :: l[q] == l0[q]
      invariant forall q: nat | q < i :: l[q] == l[imcu + 2 * n + q]
      invariant forall q: nat | imcu + 3 * n <= q < imcu + 3 * n + i :: l[q] == l[q - (imcu + 2 * n)]
    {
      l := l[i := l[imcu + n + i + n]];
      l := l[imcu + 2 * n + i + n := l[i + n]];
      i := i + 1;
    }
  }

  /** set_bottom_pointers, for one component with `rowsLeft` real rows in its last iMCU row. */
  method DuplicateLast(n: nat, imcu: nat, l0: seq<nat>, rowsLeft: nat) returns (l: seq<nat>)
    requires SizesOk(n, imcu) && |l0| == imcu + 4 * n && 0 < rowsLeft <= imcu
    ensures Bottomed(n, imcu, l, l0, rowsLeft - 1)
  {
    l := l0;
    var i: nat := 0;
    while i < 2 * n
      invariant i <= 2 * n && |l| == |l0|
      invariant forall q: nat | q < |l| ::
          l[q] == if rowsLeft + n <= q < rowsLeft + n + i then l0[rowsLeft - 1 + n] else l0[q]
    {
      l := l[rowsLeft + i + n := l[rowsLeft - 1 + n]];
      i := i + 1;
    }
  }
}
