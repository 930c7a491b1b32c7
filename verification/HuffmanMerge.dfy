/** The merging loop of jpeg_gen_optimal_table: it ends with code lengths that fill the code space
    exactly, and are bounded by the growth of the Fibonacci numbers. */
module HuffmanMerge {
  import opened Bits
  import opened HuffmanForest
  import opened HuffmanOptimal
  import opened HuffmanPseudo

  /** The search starts from this count. */
  const SEARCH_CAP: nat := 1000000000

  /** Find the smallest nonzero count, the largest symbol in case of ties, other than `skip`. */
  method FindLeast(freq: array<nat>, skip: int) returns (c: int)
    requires freq.Length == SYMBOLS
    ensures -1 <= c < SYMBOLS && (c >= 0 ==> freq[c] > 0 && c != skip)
    ensures forall i | 0 <= i < SYMBOLS && i != skip && 0 < freq[i] <= SEARCH_CAP ::
      c >= 0 && freq[c] <= freq[i] && (freq[c] == freq[i] ==> i <= c)
  {
    c := -1;
    var v := SEARCH_CAP;
    for i := 0 to SYMBOLS
      invariant -1 <= c < i && (c >= 0 ==> v == freq[c] > 0 && c != skip) && (c < 0 ==> v == SEARCH_CAP)
      invariant forall k | 0 <= k < i && k != skip && 0 < freq[k] <= SEARCH_CAP ::
        c >= 0 && freq[c] <= freq[k] && (freq[c] == freq[k] ==> k <= c)
    {
      if freq[i] != 0 && freq[i] <= v && i != skip {
        v := freq[i];
        c := i;
      }
    }
  }

  function Bumped(codesize: seq<nat>, owner: seq<int>, c: nat): (r: seq<nat>)
    requires |codesize| == |owner| == SYMBOLS
    ensures |r| == SYMBOLS
  {
    seq(SYMBOLS, s requires 0 <= s < SYMBOLS => if owner[s] == c then codesize[s] + 1 else codesize[s])
  }

  /** The first `k` symbols of a chain have been counted up. */
  ghost predicate BumpedTo(now: seq<nat>, before: seq<nat>, syms: seq<nat>, k: nat)
  {
    && |now| == |before| == SYMBOLS && k <= |syms|
    && forall s: nat | s < SYMBOLS :: now[s] == before[s] + if s in syms[..k] then 1 else 0
  }

  lemma BumpOne(now: seq<nat>, before: seq<nat>, syms: seq<nat>, k: nat)
    requires BumpedTo(now, before, syms, k) && k < |syms| && syms[k] < SYMBOLS && Distinct(syms)
    ensures BumpedTo(now[syms[k] := now[syms[k]] + 1], before, syms, k + 1)
  {
    assert syms[..k + 1] == syms[..k] + [syms[k]];
  }

  lemma BumpAll(now: seq<nat>, before: seq<nat>, syms: seq<nat>, owner: seq<int>, c: nat)
    requires |owner| == SYMBOLS && BumpedTo(now, before, syms, |syms|) && Members(owner, c, syms)
    ensures now == Bumped(before, owner, c)
  {
    assert syms[..|syms|] == syms;
    forall s: nat | s < SYMBOLS
      ensures s in syms <==> owner[s] == c
    {
    }
  }

  /** Count up the code lengths of a whole tree, along its chain. */
  method BumpChain(codesize: array<nat>, others: array<int>, c0: nat, ghost owner: seq<int>, ghost syms: seq<nat>)
    returns (last: nat)
    requires codesize.Length == SYMBOLS && others.Length == SYMBOLS && |owner| == SYMBOLS && c0 < SYMBOLS
    requires Chained(others[..], owner, c0, syms)
    modifies codesize
    ensures codesize[..] == Bumped(old(codesize[..]), owner, c0) && last == Last(syms) && last < SYMBOLS
  {
    hide Links, Members, Distinct, BumpedTo;
    ghost var before := codesize[..];
    ghost var k := 0;
    BumpNone(before, syms);
    BumpOne(before, before, syms, 0);
    ChainAt(others[..], owner, c0, syms, 0);
    last := c0;
    codesize[last] := codesize[last] + 1;
    while others[last] >= 0
      invariant 0 <= k < |syms| && last == syms[k] && last < SYMBOLS && BumpedTo(codesize[..], before, syms, k + 1)
      invariant others[last] == if k + 1 < |syms| then syms[k + 1] else -1
      decreases |syms| - k
    {
      ChainAt(others[..], owner, c0, syms, k + 1);
      BumpOne(codesize[..], before, syms, k + 1);
      last := others[last];
      codesize[last] := codesize[last] + 1;
      k := k + 1;
    }
    BumpAll(codesize[..], before, syms, owner, c0);
  }

  lemma BumpNone(before: seq<nat>, syms: seq<nat>)
    requires |before| == SYMBOLS
    ensures BumpedTo(before, before, syms, 0)
  {
  }

  lemma ChainAt(others: seq<int>, owner: seq<int>, c: nat, syms: seq<nat>, k: nat)
    requires |others| == |owner| == SYMBOLS && Chained(others, owner, c, syms) && k < |syms|
    ensures syms[k] < SYMBOLS && others[syms[k]] == if k + 1 < |syms| then syms[k + 1] else -1
  {
    hide Members, Distinct;
    MemberAt(owner, c, syms, k);
    assert Linked(others, syms, k);
  }

  lemma BumpedTwice(codesize: seq<nat>, owner: seq<int>, c1: nat, c2: nat)
    requires |codesize| == |owner| == SYMBOLS && c1 != c2
    ensures Bumped(Bumped(codesize, owner, c1), owner, c2) == Longer(codesize, owner, c1, c2)
  {
  }

  lemma StillChained(others: seq<int>, owner: seq<int>, c1: nat, s1: seq<nat>, c2: nat, s2: seq<nat>)
    requires |others| == |owner| == SYMBOLS && c1 != c2 && Chained(others, owner, c1, s1)
        && Chained(others, owner, c2, s2)
    ensures Last(s1) < SYMBOLS && Chained(others[Last(s1) := c2], owner, c2, s2)
  {
    hide Members, Linked, Distinct;
    MemberAt(owner, c1, s1, |s1| - 1);
    var others' := others[Last(s1) := c2];
    forall k | 0 <= k < |s2|
      ensures Linked(others', s2, k)
    {
      MemberAt(owner, c2, s2, k);
      assert Linked(others, s2, k);
      OtherLink(others, Last(s1), c2, s2, k);
    }
  }

  /** The arrays hold state `st`. */
  ghost predicate Holds(freq: array<nat>, codesize: array<nat>, others: array<int>, st: State)
    reads freq, codesize, others
  {
    && freq.Length == SYMBOLS && codesize.Length == SYMBOLS && others.Length == SYMBOLS && st.Shaped()
    && freq[..] == st.freq && codesize[..] == st.codesize && others[..] == st.others
  }

  /** Merge the two trees with the smallest counts. */
  method MergeTwo(freq: array<nat>, codesize: array<nat>, others: array<int>, c1: nat, c2: nat, ghost st: State,
        ghost freq0: seq<nat>)
    returns (ghost st': State)
    requires Holds(freq, codesize, others, st) && Forest(st, freq0) && Least(st, c1, c2) && freq != codesize
    requires Weighed(st, freq0) && OnCourse(st, freq0) && Chosen(st, c1, c2)
    modifies freq, codesize, others
    ensures Holds(freq, codesize, others, st') && Forest(st', freq0) && |st'.roots| < |st.roots|
    ensures Weighed(st', freq0) && OnCourse(st', freq0)
    ensures AtBottom(st) ==> AtBottom(st')
  {
    hide Forest, Chained, Leveled, Heavy, Bumped, Longer, Weighed, OnCourse, Chosen, Bottom;
    ForestRoot(st, freq0, c1);
    ForestRoot(st, freq0, c2);
    ghost var s1, s2 := st.roots[c1].syms, st.roots[c2].syms;
    freq[c1] := freq[c1] + freq[c2];
    freq[c2] := 0;
    var last := BumpChain(codesize, others, c1, st.owner, s1);
    others[last] := c2;
    StillChained(st.others, st.owner, c1, s1, c2, s2);
    last := BumpChain(codesize, others, c2, st.owner, s2);
    BumpedTwice(st.codesize, st.owner, c1, c2);
    JoinForest(st, freq0, c1, c2);
    JoinOnCourse(st, freq0, c1, c2);
    st' := Join(st, c1, c2);
    FewerRoots(st, c1, c2);
    if c :| Bottom(st, c) {
      var _ := JoinBottom(st, freq0, c1, c2, c);
    }
  }

  ghost predicate AtBottom(st: State)
    requires st.Shaped()
  {
    exists c :: Bottom(st, c)
  }

  lemma FewerRoots(st: State, c1: nat, c2: nat)
    requires st.Shaped() && Least(st, c1, c2) && st.roots[c1].syms != [] && Last(st.roots[c1].syms) < SYMBOLS
    ensures |Join(st, c1, c2).roots| < |st.roots|
  {
    var r := Join(st, c1, c2).roots;
    assert r.Keys == st.roots.Keys - {c2};
    assert |r.Keys| == |r| && |st.roots.Keys| == |st.roots|;
  }

  /** What the search finds are the least two trees, or the only one. */
  lemma Found(st: State, freq0: seq<nat>, c1: int, c2: int)
    requires Forest(st, freq0) && Sum(freq0, SYMBOLS) <= SEARCH_CAP
    requires -1 <= c1 < SYMBOLS && -1 <= c2 < SYMBOLS && (c1 >= 0 ==> st.freq[c1] > 0)
        && (c2 >= 0 ==> st.freq[c2] > 0 && c2 != c1)
    requires forall i | 0 <= i < SYMBOLS && 0 < st.freq[i] <= SEARCH_CAP :: c1 >= 0 && st.freq[c1] <= st.freq[i]
    requires forall i | 0 <= i < SYMBOLS && i != c1 && 0 < st.freq[i] <= SEARCH_CAP ::
        c2 >= 0 && st.freq[c2] <= st.freq[i]
    ensures c2 >= 0 ==> c1 >= 0 && Least(st, c1, c2)
    ensures c2 < 0 ==> forall c: nat | c in st.roots :: c == c1
  {
    hide RootOk, Sum;
    forall i: nat | i < SYMBOLS
      ensures st.freq[i] <= SEARCH_CAP
    {
      OneOfSum(st.freq, i, SYMBOLS);
    }
  }

  lemma {:induction false} OneOfSum(f: seq<nat>, i: nat, n: nat)
    requires i < n <= |f|
    ensures f[i] <= Sum(f, n)
    decreases n
  {
    if i < n - 1 {
      OneOfSum(f, i, n - 1);
    }
  }

  /** And equal counts are told apart by the larger symbol. */
  lemma FoundChosen(st: State, freq0: seq<nat>, c1: nat, c2: nat)
    requires Forest(st, freq0) && Sum(freq0, SYMBOLS) <= SEARCH_CAP && Least(st, c1, c2)
    requires forall i | 0 <= i < SYMBOLS && 0 < st.freq[i] <= SEARCH_CAP ::
        st.freq[c1] <= st.freq[i] && (st.freq[c1] == st.freq[i] ==> i <= c1)
    requires forall i | 0 <= i < SYMBOLS && i != c1 && 0 < st.freq[i] <= SEARCH_CAP ::
        st.freq[c2] <= st.freq[i] && (st.freq[c2] == st.freq[i] ==> i <= c2)
    ensures Chosen(st, c1, c2)
  {
    hide RootOk, Sum;
    forall i: nat | i < SYMBOLS
      ensures st.freq[i] <= SEARCH_CAP
    {
      OneOfSum(st.freq, i, SYMBOLS);
    }
  }

  /** Assign code lengths: merge until one tree is left.  The code length of every symbol is its depth in that tree,
      no other lengths that leave room for all codes make the symbols shorter in total, and symbol 256, if counted
      once, has no shorter code than any other. */
  method MergeAll(freq: array<nat>) returns (codesize: array<nat>, ghost st: State)
    requires freq.Length == SYMBOLS && Sum(freq[..], SYMBOLS) <= SEARCH_CAP
    modifies freq
    ensures fresh(codesize) && codesize.Length == SYMBOLS && st.Shaped() && codesize[..] == st.codesize
    ensures Forest(st, old(freq[..])) && forall c, d | c in st.roots && d in st.roots :: c == d
    ensures Minimal(codesize[..], old(freq[..]))
    ensures old(freq[PSEUDO]) == 1 ==> forall s | 0 <= s < SYMBOLS :: codesize[s] <= codesize[PSEUDO]
  {
    hide Forest, Least, Weighed, OnCourse, Minimal, Chosen, Bottom;
    ghost var freq0 := freq[..];
    codesize := new nat[SYMBOLS](_ => 0);
    var others := new int[SYMBOLS](_ => -1);
    st := Start(freq0);
    StartForest(freq0);
    StartOnCourse(freq0);
    if freq0[PSEUDO] == 1 {
      StartBottom(freq0);
    }
    while true
      invariant Holds(freq, codesize, others, st) && Forest(st, freq0)
      invariant Weighed(st, freq0) && OnCourse(st, freq0) && (freq0[PSEUDO] == 1 ==> AtBottom(st))
      invariant fresh(codesize) && fresh(others)
      decreases |st.roots|
    {
      var c1 := FindLeast(freq, -1);
      var c2 := FindLeast(freq, c1);
      Found(st, freq0, c1, c2);
      if c2 < 0 {
        break;
      }
      FoundChosen(st, freq0, c1, c2);
      st := MergeTwo(freq, codesize, others, c1, c2, st, freq0);
    }
    DoneMinimal(st, freq0);
    if c :| Bottom(st, c) {
      LongestCode(st, freq0, c);
    }
  }
}
