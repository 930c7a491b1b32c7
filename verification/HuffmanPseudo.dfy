/** The pseudo-symbol: it has the smallest count, the search prefers it among equal counts, and so no symbol ends
    up with a longer code. */
module HuffmanPseudo {
  import opened Bits
  import opened HuffmanForest

  /** The symbol that stands for the code word of all ones. */
  const PSEUDO: nat := 256

  /** The search takes tree `c` rather than tree `d`. */
  predicate Precedes(st: State, c: nat, d: nat)
    requires st.Shaped() && c < SYMBOLS && d < SYMBOLS
  {
    st.freq[c] < st.freq[d] || (st.freq[c] == st.freq[d] && d < c)
  }

  /** The first two trees in the order of the search. */
  predicate Chosen(st: State, c1: nat, c2: nat)
    requires st.Shaped()
  {
    && c1 != c2 && c1 in st.roots && c2 in st.roots && c1 < SYMBOLS && c2 < SYMBOLS && Precedes(st, c1, c2)
    && forall d: nat | d in st.roots && d < SYMBOLS && d != c1 && d != c2 :: Precedes(st, c2, d)
  }

  /** Tree `c` counts less than tree `d` with `extra` more, or as much if it starts with the pseudo-symbol. */
  predicate Lighter(st: State, c: nat, d: nat, extra: nat)
    requires st.Shaped() && c < SYMBOLS && d < SYMBOLS
  {
    st.freq[c] < st.freq[d] + extra || (st.freq[c] == st.freq[d] + extra && c == PSEUDO)
  }

  /** Tree `d` is no higher than tree `c`, which is the first of two equally high ones to be merged. */
  predicate NoHigher(st: State, c: nat, d: nat)
    requires st.Shaped() && c < SYMBOLS && d < SYMBOLS && c in st.roots && d in st.roots
  {
    && st.roots[d].height <= st.roots[c].height
    && (st.roots[d].height == st.roots[c].height ==> Lighter(st, c, d, 0))
    && (st.roots[d].height + 1 == st.roots[c].height ==> Lighter(st, c, d, st.roots[c].kid))
  }

  /** The pseudo-symbol is at the bottom of its tree `c`, and no tree is higher. */
  ghost predicate Bottom(st: State, c: nat)
    requires st.Shaped()
  {
    && c < SYMBOLS && c in st.roots && st.owner[PSEUDO] == c && st.codesize[PSEUDO] == st.roots[c].height
    && (st.roots[c].height > 0 ==> st.freq[c] <= 2 * st.roots[c].kid)
    && forall d: nat | d in st.roots && d < SYMBOLS && d != c :: NoHigher(st, c, d)
  }

  lemma StartBottom(freq: seq<nat>)
    requires |freq| == SYMBOLS && freq[PSEUDO] == 1
    ensures Bottom(Start(freq), PSEUDO)
  {
  }

  /** The first tree of the two holds the pseudo-symbol. */
  lemma FirstBottom(st: State, freq0: seq<nat>, c1: nat, c2: nat)
    requires Forest(st, freq0) && Chosen(st, c1, c2) && Bottom(st, c1)
    requires st.roots[c1].syms != [] && Last(st.roots[c1].syms) < SYMBOLS
    ensures Bottom(Join(st, c1, c2), c1)
  {
    hide RootOk, Sum, Owned;
    assert NoHigher(st, c1, c2);
    var st' := Join(st, c1, c2);
    forall d: nat | d in st'.roots && d < SYMBOLS && d != c1
      ensures NoHigher(st', c1, d)
    {
      assert NoHigher(st, c1, d);
    }
  }

  /** The second tree holds it: then the first one counts less, or they count the same and its root is larger. */
  lemma SecondBottom(st: State, freq0: seq<nat>, c1: nat, c2: nat)
    requires Forest(st, freq0) && Chosen(st, c1, c2) && Bottom(st, c2)
    requires st.roots[c1].syms != [] && Last(st.roots[c1].syms) < SYMBOLS
    ensures Bottom(Join(st, c1, c2), c1)
  {
    hide RootOk, Sum, Owned;
    assert NoHigher(st, c2, c1);
    var st' := Join(st, c1, c2);
    forall d: nat | d in st'.roots && d < SYMBOLS && d != c1
      ensures NoHigher(st', c1, d)
    {
      assert NoHigher(st, c2, d);
      assert Precedes(st, c2, d);
    }
  }

  /** Neither does: both are lower than the tree that holds it, since it would have been taken first. */
  lemma OtherBottom(st: State, freq0: seq<nat>, c1: nat, c2: nat, c: nat)
    requires Forest(st, freq0) && Chosen(st, c1, c2) && Bottom(st, c) && c != c1 && c != c2
    requires st.roots[c1].syms != [] && Last(st.roots[c1].syms) < SYMBOLS
    ensures Bottom(Join(st, c1, c2), c)
  {
    hide RootOk, Sum, Owned;
    assert NoHigher(st, c, c1) && NoHigher(st, c, c2);
    assert Precedes(st, c2, c);
    var st' := Join(st, c1, c2);
    assert st.freq[c1] >= st.roots[c].kid && st.freq[c2] >= st.roots[c].kid && st.freq[c] > 0;
    forall d: nat | d in st'.roots && d < SYMBOLS && d != c
      ensures NoHigher(st', c, d)
    {
      if d != c1 {
        assert NoHigher(st, c, d);
      }
    }
  }

  /** Merging the first two trees keeps the pseudo-symbol at the bottom. */
  lemma JoinBottom(st: State, freq0: seq<nat>, c1: nat, c2: nat, c: nat) returns (c': nat)
    requires Forest(st, freq0) && Chosen(st, c1, c2) && Bottom(st, c)
    requires st.roots[c1].syms != [] && Last(st.roots[c1].syms) < SYMBOLS
    ensures Bottom(Join(st, c1, c2), c')
  {
    hide Bottom, Forest, Chosen, Join;
    if c == c1 {
      FirstBottom(st, freq0, c1, c2);
      c' := c1;
    } else if c == c2 {
      SecondBottom(st, freq0, c1, c2);
      c' := c1;
    } else {
      OtherBottom(st, freq0, c1, c2, c);
      c' := c;
    }
  }

  /** When one tree is left, no symbol has a longer code than the pseudo-symbol. */
  lemma LongestCode(st: State, freq0: seq<nat>, c: nat)
    requires Forest(st, freq0) && Bottom(st, c) && forall c, d | c in st.roots && d in st.roots :: c == d
    ensures forall s | 0 <= s < SYMBOLS :: st.codesize[s] <= st.codesize[PSEUDO]
  {
    hide Kraft, Pow2, Fib, Chained, Deep, Sum;
    assert RootOk(st, c);
    forall s | 0 <= s < SYMBOLS
      ensures st.codesize[s] <= st.codesize[PSEUDO]
    {
      assert Owned(st, s);
      assert st.owner[s] >= 0 ==> st.owner[s] == c;
    }
  }
}
