/** Huffman's procedure as jpeg_gen_optimal_table runs it: trees are chains of symbols with their
    code lengths so far.  What a state of the procedure means, and that merging keeps it. */
module HuffmanForest {
  import opened Bits

  const SYMBOLS: nat := 257

  function Fib(n: nat): nat
  {
    if n <= 1 then n else Fib(n - 1) + Fib(n - 2)
  }

  function Max(a: nat, b: nat): nat { if a > b then a else b }

  datatype Tree = Leaf(sym: nat) | Node(left: Tree, right: Tree)

  function Leaves(t: Tree): seq<nat> {
    match t
    case Leaf(s) => [s]
    case Node(l, r) => Leaves(l) + Leaves(r)
  }

  /** How deep the leaves are, if the tree itself is at depth `d`. */
  function Depths(t: Tree, d: nat): (r: seq<nat>)
    ensures |r| == |Leaves(t)|
  {
    match t
    case Leaf(_) => [d]
    case Node(l, r) => Depths(l, d + 1) + Depths(r, d + 1)
  }

  lemma {:induction false} DepthsNext(t: Tree, d: nat)
    ensures forall k | 0 <= k < |Leaves(t)| :: Depths(t, d + 1)[k] == Depths(t, d)[k] + 1
  {
    if t.Node? {
      DepthsNext(t.left, d + 1);
      DepthsNext(t.right, d + 1);
    }
  }

  /** One tree: the tree itself, its symbols as they are chained, its height, and the larger count of the two trees
      it was merged from. */
  datatype Root = Root(tree: Tree, syms: seq<nat>, height: nat, kid: nat)

  /** The chain visits the leaves from left to right, and their code lengths are their depths. */
  predicate Deep(codesize: seq<nat>, tree: Tree, syms: seq<nat>)
    requires |codesize| == SYMBOLS
  {
    Leaves(tree) == syms && forall k | 0 <= k < |syms| :: syms[k] < SYMBOLS && codesize[syms[k]] == Depths(tree, 0)[k]
  }

  /** The arrays of the procedure, and for each symbol the tree it is in (-1 for unused symbols). */
  datatype State = State(freq: seq<nat>, codesize: seq<nat>, others: seq<int>, owner: seq<int>, roots: map<nat, Root>) {
    predicate Shaped() {
      |freq| == SYMBOLS && |codesize| == SYMBOLS && |others| == SYMBOLS && |owner| == SYMBOLS
    }
  }

  /** The share of the code space that the first `n` symbols of tree `c` take up, in units of codes
      of length `d`. */
  function Kraft(owner: seq<int>, codesize: seq<nat>, c: int, n: nat, d: nat): nat
    requires n <= |owner| == |codesize|
  {
    if n == 0 then 0 else Kraft(owner, codesize, c, n - 1, d) + Share(owner[n - 1] == c, codesize[n - 1], d)
  }

  function Share(member: bool, size: nat, d: nat): nat { if member && size <= d then Pow2(d - size) else 0 }

  function Sum(f: seq<nat>, n: nat): nat
    requires n <= |f|
  {
    if n == 0 then 0 else Sum(f, n - 1) + f[n - 1]
  }

  predicate Linked(others: seq<int>, syms: seq<nat>, k: nat)
    requires k < |syms|
  {
    syms[k] < |others| && others[syms[k]] == if k + 1 < |syms| then syms[k + 1] else -1
  }

  predicate Links(others: seq<int>, syms: seq<nat>) { forall k | 0 <= k < |syms| :: Linked(others, syms, k) }

  predicate Members(owner: seq<int>, c: nat, syms: seq<nat>)
    requires |owner| == SYMBOLS
  {
    && (forall k | 0 <= k < |syms| :: syms[k] < SYMBOLS && owner[syms[k]] == c)
    && (forall s | 0 <= s < SYMBOLS && owner[s] == c :: s in syms)
  }

  predicate Distinct(syms: seq<nat>) { forall k, l | 0 <= k < l < |syms| :: syms[k] != syms[l] }

  /** The chain of a tree: it starts at the root and visits each of its symbols once. */
  predicate Chained(others: seq<int>, owner: seq<int>, c: nat, syms: seq<nat>)
    requires |others| == |owner| == SYMBOLS
  {
    |syms| >= 1 && syms[0] == c && Members(owner, c, syms) && Links(others, syms) && Distinct(syms)
  }

  /** The code lengths of a tree are those of a full binary tree of its height. */
  predicate Leveled(codesize: seq<nat>, owner: seq<int>, c: nat, height: nat)
    requires |codesize| == |owner| == SYMBOLS
  {
    && (forall s | 0 <= s < SYMBOLS && owner[s] == c ::
       codesize[s] <= height && (if height > 0 then codesize[s] > 0 else s == c))
    && Kraft(owner, codesize, c, SYMBOLS, height) == Pow2(height)
  }

  /** A tree of some height needs a large count. */
  predicate Heavy(count: nat, r: Root)
  {
    count >= Fib(r.height + 2) && (r.height > 0 ==> r.kid >= Fib(r.height + 1))
  }

  ghost predicate RootOk(st: State, c: nat)
    requires st.Shaped() && c in st.roots && c < SYMBOLS
  {
    && Chained(st.others, st.owner, c, st.roots[c].syms)
    && Deep(st.codesize, st.roots[c].tree, st.roots[c].syms)
    && Leveled(st.codesize, st.owner, c, st.roots[c].height)
    && Heavy(st.freq[c], st.roots[c])
  }

  ghost predicate Forest(st: State, freq0: seq<nat>)
  {
    && st.Shaped() && |freq0| == SYMBOLS
    && (forall c | c in st.roots :: c < SYMBOLS && st.freq[c] > 0 && RootOk(st, c))
    && (forall c: nat | c < SYMBOLS && st.freq[c] > 0 :: c in st.roots)
    && (forall s | 0 <= s < SYMBOLS :: (st.owner[s] >= 0 <==> freq0[s] > 0) && Owned(st, s))
    && (forall c, d | c in st.roots && d in st.roots && c != d :: st.freq[d] >= st.roots[c].kid)
    && Sum(st.freq, SYMBOLS) == Sum(freq0, SYMBOLS)
  }

  predicate Owned(st: State, s: int)
    requires st.Shaped() && 0 <= s < SYMBOLS
  {
    if st.owner[s] >= 0 then st.owner[s] in st.roots else st.codesize[s] == 0
  }

  // ---------------------------------------------------------------- the start

  function Start(freq: seq<nat>): (st: State)
    requires |freq| == SYMBOLS
    ensures st.Shaped() && st.freq == freq
  {
    State(freq, seq(SYMBOLS, _ => 0), seq(SYMBOLS, _ => -1),
          seq(SYMBOLS, i requires 0 <= i < SYMBOLS => if freq[i] > 0 then i else -1),
          map c: nat | c < SYMBOLS && freq[c] > 0 :: Root(Leaf(c), [c], 0, 0))
  }

  lemma {:induction false} KraftOne(owner: seq<int>, codesize: seq<nat>, c: nat, n: nat)
    requires n <= |owner| == |codesize| && c < |owner|
    requires forall s | 0 <= s < |owner| :: codesize[s] == 0 && (owner[s] == c <==> s == c)
    ensures Kraft(owner, codesize, c, n, 0) == if c < n then 1 else 0
  {
    if n > 0 {
      KraftOne(owner, codesize, c, n - 1);
    }
  }

  lemma StartForest(freq: seq<nat>)
    requires |freq| == SYMBOLS
    ensures Forest(Start(freq), freq)
  {
    hide Kraft, Pow2, Sum;
    var st := Start(freq);
    forall c | c in st.roots
      ensures RootOk(st, c)
    {
      KraftOne(st.owner, st.codesize, c, SYMBOLS);
      assert Pow2(0) == 1 by { PowerZero(); }
      assert Fib(2) == 1;
    }
  }

  lemma PowerZero()
    ensures Pow2(0) == 1
  {
  }

  // ---------------------------------------------------------------- merging two trees

  function Last(syms: seq<nat>): nat
    requires syms != []
  {
    syms[|syms| - 1]
  }

  function Joined(r1: Root, r2: Root, kid: nat): Root {
    Root(Node(r1.tree, r2.tree), r1.syms + r2.syms, 1 + Max(r1.height, r2.height), kid)
  }

  /** Tree `c2` is chained onto tree `c1`; all their codes get one bit longer. */
  function Join(st: State, c1: nat, c2: nat): (st': State)
    requires st.Shaped() && c1 in st.roots && c2 in st.roots && c1 < SYMBOLS && c2 < SYMBOLS
    requires st.roots[c1].syms != [] && Last(st.roots[c1].syms) < SYMBOLS
    ensures st'.Shaped()
  {
    var r1, r2 := st.roots[c1], st.roots[c2];
    State(st.freq[c1 := st.freq[c1] + st.freq[c2]][c2 := 0],
          Longer(st.codesize, st.owner, c1, c2),
          st.others[Last(r1.syms) := c2],
          Owners(st.owner, c1, c2),
          (st.roots - {c2})[c1 := Joined(r1, r2, st.freq[c2])])
  }

  function Longer(codesize: seq<nat>, owner: seq<int>, c1: nat, c2: nat): (r: seq<nat>)
    requires |codesize| == |owner| == SYMBOLS
    ensures |r| == SYMBOLS
  {
    seq(SYMBOLS, s requires 0 <= s < SYMBOLS =>
        if owner[s] == c1 || owner[s] == c2 then codesize[s] + 1 else codesize[s])
  }

  function Owners(owner: seq<int>, c1: nat, c2: nat): (r: seq<int>)
    requires |owner| == SYMBOLS
    ensures |r| == SYMBOLS
  {
    seq(SYMBOLS, s requires 0 <= s < SYMBOLS => if owner[s] == c2 then c1 else owner[s])
  }

  lemma JoinChained(others: seq<int>, owner: seq<int>, c1: nat, s1: seq<nat>, c2: nat, s2: seq<nat>)
    requires |others| == |owner| == SYMBOLS && c1 != c2 && Chained(others, owner, c1, s1)
        && Chained(others, owner, c2, s2)
    ensures Last(s1) < SYMBOLS && Chained(others[Last(s1) := c2], Owners(owner, c1, c2), c1, s1 + s2)
  {
    hide Members, Links, Distinct, Owners;
    MemberAt(owner, c1, s1, |s1| - 1);
    JoinMembers(owner, c1, s1, c2, s2);
    JoinLinks(others, owner, c1, s1, c2, s2);
    JoinDistinct(owner, c1, s1, c2, s2);
  }

  lemma MemberAt(owner: seq<int>, c: nat, syms: seq<nat>, k: nat)
    requires |owner| == SYMBOLS && Members(owner, c, syms) && k < |syms|
    ensures syms[k] < SYMBOLS && owner[syms[k]] == c
  {
  }

  lemma JoinMembers(owner: seq<int>, c1: nat, s1: seq<nat>, c2: nat, s2: seq<nat>)
    requires |owner| == SYMBOLS && Members(owner, c1, s1) && Members(owner, c2, s2)
    ensures Members(Owners(owner, c1, c2), c1, s1 + s2)
  {
    forall x | 0 <= x < SYMBOLS && Owners(owner, c1, c2)[x] == c1
      ensures x in s1 + s2
    {
      assert owner[x] == c1 ==> x in s1;
      assert owner[x] == c2 ==> x in s2;
    }
  }

  lemma JoinDistinct(owner: seq<int>, c1: nat, s1: seq<nat>, c2: nat, s2: seq<nat>)
    requires |owner| == SYMBOLS && c1 != c2 && Members(owner, c1, s1) && Members(owner, c2, s2) && Distinct(s1)
        && Distinct(s2)
    ensures Distinct(s1 + s2)
  {
    hide Members;
    forall k, l | 0 <= k < l < |s1 + s2|
      ensures (s1 + s2)[k] != (s1 + s2)[l]
    {
      if k < |s1| <= l {
        MemberAt(owner, c1, s1, k);
        MemberAt(owner, c2, s2, l - |s1|);
      }
    }
  }

  lemma JoinLinks(others: seq<int>, owner: seq<int>, c1: nat, s1: seq<nat>, c2: nat, s2: seq<nat>)
    requires |others| == |owner| == SYMBOLS && c1 != c2 && Chained(others, owner, c1, s1)
        && Chained(others, owner, c2, s2)
    ensures Last(s1) < SYMBOLS && Links(others[Last(s1) := c2], s1 + s2)
  {
    hide Members, Links, Distinct, Linked;
    MemberAt(owner, c1, s1, |s1| - 1);
    var others' := others[Last(s1) := c2];
    forall k | 0 <= k < |s1 + s2|
      ensures Linked(others', s1 + s2, k)
    {
      if k >= |s1| {
        SecondLink(others, owner, c1, s1, c2, s2, k);
      } else {
        FirstLink(others, owner, c1, s1, c2, s2, k);
      }
    }
    AllLinked(others', s1 + s2);
  }

  lemma AllLinked(others: seq<int>, syms: seq<nat>)
    requires forall k | 0 <= k < |syms| :: Linked(others, syms, k)
    ensures Links(others, syms)
  {
  }

  lemma FirstLink(others: seq<int>, owner: seq<int>, c1: nat, s1: seq<nat>, c2: nat, s2: seq<nat>, k: nat)
    requires |others| == |owner| == SYMBOLS && Chained(others, owner, c1, s1) && Chained(others, owner, c2, s2)
        && k < |s1|
    ensures Last(s1) < SYMBOLS && Linked(others[Last(s1) := c2], s1 + s2, k)
  {
    hide Members;
    MemberAt(owner, c1, s1, |s1| - 1);
    MemberAt(owner, c1, s1, k);
    assert Linked(others, s1, k);
  }

  lemma SecondLink(others: seq<int>, owner: seq<int>, c1: nat, s1: seq<nat>, c2: nat, s2: seq<nat>, k: nat)
    requires |others| == |owner| == SYMBOLS && Chained(others, owner, c1, s1) && Chained(others, owner, c2, s2)
        && c1 != c2
    requires |s1| <= k < |s1| + |s2|
    ensures Last(s1) < SYMBOLS && Linked(others[Last(s1) := c2], s1 + s2, k)
  {
    hide Members;
    var l := k - |s1|;
    MemberAt(owner, c1, s1, |s1| - 1);
    MemberAt(owner, c2, s2, l);
    assert Linked(others, s2, l);
    assert (s1 + s2)[k] == s2[l];
    assert l + 1 < |s2| ==> (s1 + s2)[k + 1] == s2[l + 1];
  }

  lemma OtherChained(others: seq<int>, owner: seq<int>, c1: nat, s1: seq<nat>, c2: nat, d: nat, sd: seq<nat>)
    requires |others| == |owner| == SYMBOLS && c1 != c2 && d != c1 && d != c2
    requires Chained(others, owner, c1, s1) && Chained(others, owner, d, sd)
    ensures Last(s1) < SYMBOLS && Chained(others[Last(s1) := c2], Owners(owner, c1, c2), d, sd)
  {
    hide Members, Linked, Owners;
    MemberAt(owner, c1, s1, |s1| - 1);
    OtherMembers(owner, c1, c2, d, sd);
    var others' := others[Last(s1) := c2];
    forall k | 0 <= k < |sd|
      ensures Linked(others', sd, k)
    {
      MemberAt(owner, d, sd, k);
      assert Linked(others, sd, k);
      OtherLink(others, Last(s1), c2, sd, k);
    }
  }

  lemma OtherMembers(owner: seq<int>, c1: nat, c2: nat, d: nat, sd: seq<nat>)
    requires |owner| == SYMBOLS && d != c1 && d != c2 && Members(owner, d, sd)
    ensures Members(Owners(owner, c1, c2), d, sd)
  {
  }

  lemma OtherLink(others: seq<int>, last: nat, c2: nat, sd: seq<nat>, k: nat)
    requires k < |sd| && Linked(others, sd, k) && last < |others| && sd[k] != last
    ensures Linked(others[last := c2], sd, k)
  {
  }

  lemma {:induction false} KraftJoin(owner: seq<int>, codesize: seq<nat>, c1: nat, c2: nat, n: nat, d: nat)
    requires |owner| == |codesize| == SYMBOLS && n <= SYMBOLS && c1 != c2
    ensures Kraft(Owners(owner, c1, c2), Longer(codesize, owner, c1, c2), c1, n, d + 1)
         == Kraft(owner, codesize, c1, n, d) + Kraft(owner, codesize, c2, n, d)
  {
    hide Pow2;
    if n > 0 {
      KraftJoin(owner, codesize, c1, c2, n - 1, d);
    }
  }

  lemma {:induction false} KraftOther(owner: seq<int>, codesize: seq<nat>, c1: nat, c2: nat, c: nat, n: nat, d: nat)
    requires |owner| == |codesize| == SYMBOLS && n <= SYMBOLS && c != c1 && c != c2
    ensures Kraft(Owners(owner, c1, c2), Longer(codesize, owner, c1, c2), c, n, d) == Kraft(owner, codesize, c, n, d)
  {
    hide Pow2;
    if n > 0 {
      KraftOther(owner, codesize, c1, c2, c, n - 1, d);
    }
  }

  /** Measured in longer codes. */
  lemma {:induction false} KraftScale(owner: seq<int>, codesize: seq<nat>, c: nat, n: nat, h: nat, d: nat)
    requires |owner| == |codesize| == SYMBOLS && n <= SYMBOLS && h <= d
    requires forall s | 0 <= s < SYMBOLS && owner[s] == c :: codesize[s] <= h
    ensures Kraft(owner, codesize, c, n, d) == Kraft(owner, codesize, c, n, h) * Pow2(d - h)
  {
    hide Pow2;
    if n > 0 {
      KraftScale(owner, codesize, c, n - 1, h, d);
      if owner[n - 1] == c {
        Pow2Add(h - codesize[n - 1], d - h);
      }
      Distribute(Kraft(owner, codesize, c, n - 1, h), Share(owner[n - 1] == c, codesize[n - 1], h), Pow2(d - h));
    }
  }

  lemma Distribute(a: int, b: int, p: int)
    ensures (a + b) * p == a * p + b * p
  {
  }

  lemma JoinLeveled(codesize: seq<nat>, owner: seq<int>, c1: nat, h1: nat, c2: nat, h2: nat)
    requires |codesize| == |owner| == SYMBOLS && c1 != c2 && Leveled(codesize, owner, c1, h1)
        && Leveled(codesize, owner, c2, h2)
    ensures Leveled(Longer(codesize, owner, c1, c2), Owners(owner, c1, c2), c1, 1 + Max(h1, h2))
  {
    hide Pow2, Kraft;
    var h := Max(h1, h2);
    KraftJoin(owner, codesize, c1, c2, SYMBOLS, h);
    KraftScale(owner, codesize, c1, SYMBOLS, h1, h);
    KraftScale(owner, codesize, c2, SYMBOLS, h2, h);
    Pow2Add(h1, h - h1);
    Pow2Add(h2, h - h2);
    assert Pow2(h + 1) == 2 * Pow2(h) by { PowerNext(h); }
  }

  lemma PowerNext(h: nat)
    ensures Pow2(h + 1) == 2 * Pow2(h)
  {
  }

  lemma ChainMembers(others: seq<int>, owner: seq<int>, c: nat, syms: seq<nat>)
    requires |others| == |owner| == SYMBOLS && Chained(others, owner, c, syms)
    ensures Members(owner, c, syms)
  {
  }

  lemma JoinDeep(codesize: seq<nat>, owner: seq<int>, c1: nat, r1: Root, c2: nat, r2: Root)
    requires |codesize| == |owner| == SYMBOLS && Members(owner, c1, r1.syms) && Members(owner, c2, r2.syms)
    requires Deep(codesize, r1.tree, r1.syms) && Deep(codesize, r2.tree, r2.syms)
    ensures Deep(Longer(codesize, owner, c1, c2), Node(r1.tree, r2.tree), r1.syms + r2.syms)
  {
    DepthsNext(r1.tree, 0);
    DepthsNext(r2.tree, 0);
    var syms := r1.syms + r2.syms;
    forall k | 0 <= k < |syms|
      ensures syms[k] < SYMBOLS
      ensures Longer(codesize, owner, c1, c2)[syms[k]] == Depths(Node(r1.tree, r2.tree), 0)[k]
    {
      if k < |r1.syms| {
        MemberAt(owner, c1, r1.syms, k);
      } else {
        MemberAt(owner, c2, r2.syms, k - |r1.syms|);
      }
    }
  }

  lemma OtherDeep(codesize: seq<nat>, owner: seq<int>, c1: nat, c2: nat, d: nat, r: Root)
    requires |codesize| == |owner| == SYMBOLS && d != c1 && d != c2 && Members(owner, d, r.syms)
    requires Deep(codesize, r.tree, r.syms)
    ensures Deep(Longer(codesize, owner, c1, c2), r.tree, r.syms)
  {
  }

  lemma OtherLeveled(codesize: seq<nat>, owner: seq<int>, c1: nat, c2: nat, d: nat, h: nat)
    requires |codesize| == |owner| == SYMBOLS && d != c1 && d != c2 && Leveled(codesize, owner, d, h)
    ensures Leveled(Longer(codesize, owner, c1, c2), Owners(owner, c1, c2), d, h)
  {
    hide Pow2, Kraft;
    KraftOther(owner, codesize, c1, c2, d, SYMBOLS, h);
  }

  lemma JoinHeavy(f1: nat, r1: Root, f2: nat, r2: Root)
    requires Heavy(f1, r1) && Heavy(f2, r2) && 0 < f1 <= f2 && f2 >= r1.kid && f1 >= r2.kid
    ensures Heavy(f1 + f2, Joined(r1, r2, f2))
  {
    var h := Max(r1.height, r2.height);
    assert Fib(h + 3) == Fib(h + 2) + Fib(h + 1);
    FibSmaller(h);
  }

  lemma FibSmaller(h: nat)
    ensures h > 0 ==> Fib(h + 1) <= Fib(h + 2)
    ensures h == 0 ==> Fib(h + 1) == 1 && Fib(h + 2) == 1
  {
  }

  /** No tree counts less than the two given ones. */
  predicate Least(st: State, c1: nat, c2: nat)
    requires st.Shaped()
  {
    && c1 != c2 && c1 in st.roots && c2 in st.roots && c1 < SYMBOLS && c2 < SYMBOLS
    && st.freq[c1] <= st.freq[c2]
       && forall d: nat | d in st.roots && d < SYMBOLS && d != c1 :: st.freq[c2] <= st.freq[d]
  }

  lemma JoinSum(f: seq<nat>, c1: nat, c2: nat, n: nat)
    requires n <= |f| && c1 < |f| && c2 < |f| && c1 != c2
    ensures Sum(f[c1 := f[c1] + f[c2]][c2 := 0], n)
         == Sum(f, n) + (if c1 < n then f[c2] as int else 0) - (if c2 < n then f[c2] as int else 0)
    decreases n
  {
    if n > 0 {
      JoinSum(f, c1, c2, n - 1);
    }
  }

  lemma ForestRoot(st: State, freq0: seq<nat>, c: nat)
    requires Forest(st, freq0) && c in st.roots
    ensures c < SYMBOLS && st.freq[c] > 0 && RootOk(st, c)
    ensures st.roots[c].syms != [] && Last(st.roots[c].syms) < SYMBOLS && st.owner[c] == c
  {
    hide Leveled, Heavy, Sum, Deep;
    assert c < SYMBOLS && RootOk(st, c);
    var s := st.roots[c].syms;
    assert s[|s| - 1] < SYMBOLS && st.owner[s[0]] == c;
  }

  lemma JoinedRoot(st: State, freq0: seq<nat>, c1: nat, c2: nat)
    requires Forest(st, freq0) && Least(st, c1, c2)
    ensures st.roots[c1].syms != [] && Last(st.roots[c1].syms) < SYMBOLS && RootOk(Join(st, c1, c2), c1)
  {
    hide Chained, Deep, Leveled, Heavy, Sum, Longer, Owners;
    ForestRoot(st, freq0, c1);
    ForestRoot(st, freq0, c2);
    var r1, r2 := st.roots[c1], st.roots[c2];
    JoinChained(st.others, st.owner, c1, r1.syms, c2, r2.syms);
    ChainMembers(st.others, st.owner, c1, r1.syms);
    ChainMembers(st.others, st.owner, c2, r2.syms);
    JoinDeep(st.codesize, st.owner, c1, r1, c2, r2);
    JoinLeveled(st.codesize, st.owner, c1, r1.height, c2, r2.height);
    JoinHeavy(st.freq[c1], r1, st.freq[c2], r2);
  }

  lemma OtherRoot(st: State, freq0: seq<nat>, c1: nat, c2: nat, d: nat)
    requires Forest(st, freq0) && Least(st, c1, c2) && d in st.roots && d != c1 && d != c2
    ensures st.roots[c1].syms != [] && Last(st.roots[c1].syms) < SYMBOLS && d < SYMBOLS && RootOk(Join(st, c1, c2), d)
  {
    hide Chained, Deep, Leveled, Heavy, Sum, Longer, Owners;
    ForestRoot(st, freq0, c1);
    ForestRoot(st, freq0, d);
    OtherChained(st.others, st.owner, c1, st.roots[c1].syms, c2, d, st.roots[d].syms);
    ChainMembers(st.others, st.owner, d, st.roots[d].syms);
    OtherDeep(st.codesize, st.owner, c1, c2, d, st.roots[d]);
    OtherLeveled(st.codesize, st.owner, c1, c2, d, st.roots[d].height);
  }

  /** Merging the two trees with the smallest counts keeps everything. */
  lemma JoinForest(st: State, freq0: seq<nat>, c1: nat, c2: nat)
    requires Forest(st, freq0) && Least(st, c1, c2)
    ensures st.roots[c1].syms != [] && Last(st.roots[c1].syms) < SYMBOLS && Forest(Join(st, c1, c2), freq0)
  {
    hide RootOk, Sum;
    JoinedRoot(st, freq0, c1, c2);
    var st' := Join(st, c1, c2);
    forall c | c in st'.roots
      ensures c < SYMBOLS && st'.freq[c] > 0 && RootOk(st', c)
    {
      if c != c1 {
        OtherRoot(st, freq0, c1, c2, c);
      }
    }
    forall c, d | c in st'.roots && d in st'.roots && c != d
      ensures st'.freq[d] >= st'.roots[c].kid
    {
      if c == c1 {
        assert st.freq[c2] <= st.freq[d];
      }
    }
    JoinSum(st.freq, c1, c2, SYMBOLS);
    forall s | 0 <= s < SYMBOLS
      ensures (st'.owner[s] >= 0 <==> freq0[s] > 0) && Owned(st', s)
    {
      assert (st.owner[s] >= 0 <==> freq0[s] > 0) && Owned(st, s);
    }
  }
}
