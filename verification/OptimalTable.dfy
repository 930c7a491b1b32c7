/** jpeg_gen_optimal_table: from symbol counts to a table that jpeg_make_c_derived_tbl accepts, with a
    code for each symbol that was counted. */
module OptimalTable {
  import opened Bits
  import opened Huffman
  import opened CodeLengths
  import opened HuffmanForest
  import opened HuffmanMerge
  import opened HuffmanOptimal
  import opened HuffmanPseudo
  import opened BestTables

  /** The counts with the pseudo-symbol put in. */
  function WithPseudo(freq: seq<nat>): (f: seq<nat>)
    requires |freq| == SYMBOLS
    ensures |f| == SYMBOLS
  {
    freq[PSEUDO := 1]
  }

  // ---------------------------------------------------------------- code lengths of all symbols

  /** The share of the code space that the first `n` symbols with a code take up. */
  function Fill(codesize: seq<nat>, n: nat, d: nat): nat
    requires n <= |codesize|
  {
    if n == 0 then 0 else Fill(codesize, n - 1, d) + Share(codesize[n - 1] > 0, codesize[n - 1], d)
  }

  /** How many of the first `n` symbols have a code of at most `l` bits. */
  function Coded(codesize: seq<nat>, n: nat, l: nat): nat
    requires n <= |codesize|
  {
    if n == 0 then 0 else Coded(codesize, n - 1, l) + if 0 < codesize[n - 1] <= l then 1 else 0
  }

  /** Code lengths for the used symbols that fill the code space; none exceeds `h`, and a long code
      takes a large total count. */
  ghost predicate Assigned(codesize: seq<nat>, freq: seq<nat>, h: nat)
  {
    && |codesize| == |freq| == SYMBOLS
    && (forall s | 0 <= s < SYMBOLS :: (codesize[s] > 0 <==> freq[s] > 0) && codesize[s] <= h)
    && Fill(codesize, SYMBOLS, h) == Pow2(h)
    && Sum(freq, SYMBOLS) >= Fib(h + 2)
  }

  lemma {:induction false} KraftIsFill(owner: seq<int>, codesize: seq<nat>, c: nat, n: nat, d: nat)
    requires |owner| == |codesize| && n <= |codesize|
        && forall s | 0 <= s < |codesize| :: owner[s] == c <==> codesize[s] > 0
    ensures Kraft(owner, codesize, c, n, d) == Fill(codesize, n, d)
  {
    hide Share;
    if n > 0 {
      KraftIsFill(owner, codesize, c, n - 1, d);
    }
  }

  /** The one tree left at the end holds all used symbols, of which there are at least two. */
  lemma OneTree(st: State, freq: seq<nat>, a: nat, b: nat) returns (h: nat)
    requires Forest(st, freq) && forall c, d | c in st.roots && d in st.roots :: c == d
    requires a < b < SYMBOLS && freq[a] > 0 && freq[b] > 0
    ensures Assigned(st.codesize, freq, h)
  {
    hide Kraft, Pow2, Fib, Chained;
    assert Owned(st, a) && Owned(st, b);
    var c := st.owner[a];
    assert c in st.roots && RootOk(st, c) && st.owner[b] == c;
    h := st.roots[c].height;
    forall s | 0 <= s < SYMBOLS
      ensures (st.codesize[s] > 0 <==> freq[s] > 0) && st.codesize[s] <= h && (st.owner[s] == c <==> freq[s] > 0)
    {
      assert (st.owner[s] >= 0 <==> freq[s] > 0) && Owned(st, s);
    }
    KraftIsFill(st.owner, st.codesize, c, SYMBOLS, h);
    OneOfSum(st.freq, c, SYMBOLS);
  }

  lemma {:induction false} FillScale(codesize: seq<nat>, n: nat, h: nat, d: nat)
    requires n <= |codesize| && h <= d && forall s | 0 <= s < |codesize| :: codesize[s] <= h
    ensures Fill(codesize, n, d) == Fill(codesize, n, h) * Pow2(d - h)
  {
    hide Pow2;
    if n > 0 {
      FillScale(codesize, n - 1, h, d);
      Pow2Add(h - codesize[n - 1], d - h);
      Distribute(Fill(codesize, n - 1, h), Share(codesize[n - 1] > 0, codesize[n - 1], h), Pow2(d - h));
    }
  }

  // ---------------------------------------------------------------- the depth bound

  lemma FibValues()
    ensures Fib(19) == 4181 && Fib(35) == 9227465
  {
    assert Fib(2) == 1 && Fib(3) == 2 && Fib(4) == 3 && Fib(5) == 5 && Fib(6) == 8 && Fib(7) == 13;
    assert Fib(8) == 21 && Fib(9) == 34;
    assert Fib(10) == 55 && Fib(11) == 89;
    FibSteps(10, 55, 89);
    FibSteps(15, 610, 987);
    assert Fib(17) == 1597 && Fib(18) == 2584;
    FibSteps(20, 6765, 10946);
    FibSteps(25, 75025, 121393);
    FibSteps(30, 832040, 1346269);
  }

  lemma FibSteps(n: nat, a: nat, b: nat)
    requires Fib(n) == a && Fib(n + 1) == b
    ensures Fib(n + 5) == 3 * a + 5 * b && Fib(n + 6) == 5 * a + 8 * b
  {
    assert Fib(n + 2) == a + b;
    assert Fib(n + 3) == a + 2 * b;
    assert Fib(n + 4) == 2 * a + 3 * b;
  }

  lemma {:induction false} FibMono(a: nat, b: nat)
    requires a <= b
    ensures Fib(a) <= Fib(b)
    decreases b
  {
    if a < b {
      FibMono(a, b - 1);
    }
  }

  /** Counts below the 35th Fibonacci number give no code of more than 32 bits, and below the 19th none of more
      than 16. */
  lemma DepthBound(codesize: seq<nat>, freq: seq<nat>, h: nat)
    requires Assigned(codesize, freq, h) && Sum(freq, SYMBOLS) < 9227465
    ensures h <= MAX_CLEN && forall s | 0 <= s < SYMBOLS :: codesize[s] <= MAX_CLEN
    ensures Sum(freq, SYMBOLS) < 4181 ==> forall s | 0 <= s < SYMBOLS :: codesize[s] <= 16
  {
    hide Fib, Fill;
    FibValues();
    if h > MAX_CLEN {
      FibMono(35, h + 2);
    }
    if h > 16 {
      FibMono(19, h + 2);
    }
  }

  // ---------------------------------------------------------------- counting lengths

  /** How many of the first `n` symbols have a code of exactly `l` bits. */
  function Exactly(codesize: seq<nat>, n: nat, l: nat): nat
    requires n <= |codesize|
  {
    if n == 0 then 0 else Exactly(codesize, n - 1, l) + if codesize[n - 1] == l then 1 else 0
  }

  /** The counts of the code lengths of the first `n` symbols. */
  ghost predicate Counted(bits: seq<nat>, codesize: seq<nat>, n: nat)
  {
    && |bits| == 33 && n <= |codesize| && bits[0] == 0
    && Used(bits, MAX_CLEN) == Fill(codesize, n, MAX_CLEN) && Total(bits, MAX_CLEN) == Coded(codesize, n, MAX_CLEN)
    && forall l | 1 <= l <= MAX_CLEN :: bits[l] == Exactly(codesize, n, l)
  }

  lemma CountOne(bits: seq<nat>, codesize: seq<nat>, n: nat)
    requires Counted(bits, codesize, n) && n < |codesize| && codesize[n] <= MAX_CLEN
    ensures codesize[n] == 0 ==> Counted(bits, codesize, n + 1)
    ensures codesize[n] > 0 ==> Counted(bits[codesize[n] := bits[codesize[n]] + 1], codesize, n + 1)
  {
    hide Used, Total, Pow2;
    if codesize[n] > 0 {
      UsedUpdate(bits, codesize[n], bits[codesize[n]] + 1, MAX_CLEN);
      TotalUpdate(bits, codesize[n], bits[codesize[n]] + 1, MAX_CLEN);
    }
  }

  /** Count the symbols of each code length; fails if a length exceeds MAX_CLEN. */
  method CountLengths(codesize: array<nat>) returns (ok: bool, bits: array<nat>)
    requires codesize.Length == SYMBOLS
    ensures fresh(bits) && bits.Length == 33
    ensures ok ==> Counted(bits[..], codesize[..], SYMBOLS)
    ensures ok <==> forall s | 0 <= s < SYMBOLS :: codesize[s] <= MAX_CLEN
  {
    hide Counted;
    bits := new nat[33](_ => 0);
    ghost var cs := codesize[..];
    CountNone(bits[..], cs);
    for i := 0 to SYMBOLS
      invariant fresh(bits) && codesize[..] == cs && Counted(bits[..], cs, i)
      invariant forall s | 0 <= s < i :: codesize[s] <= MAX_CLEN
    {
      if codesize[i] != 0 {
        if codesize[i] > MAX_CLEN {
          return false, bits;
        }
        CountOne(bits[..], cs, i);
        bits[codesize[i]] := bits[codesize[i]] + 1;
      } else {
        CountOne(bits[..], cs, i);
      }
    }
    ok := true;
  }

  lemma CountNone(bits: seq<nat>, codesize: seq<nat>)
    requires |bits| == 33 && forall k | 0 <= k < 33 :: bits[k] == 0
    ensures Counted(bits, codesize, 0)
  {
    UsedNone(bits, MAX_CLEN);
    TotalNone(bits, MAX_CLEN);
  }

  lemma {:induction false} TotalNone(bits: Lengths, l: nat)
    requires l <= MAX_CLEN && forall k | 0 <= k < 33 :: bits[k] == 0
    ensures Total(bits, l) == 0
    decreases l
  {
    if l > 0 {
      TotalNone(bits, l - 1);
    }
  }

  lemma {:induction false} CodedAtMost(codesize: seq<nat>, n: nat, l: nat)
    requires n <= |codesize|
    ensures Coded(codesize, n, l) <= n
  {
    if n > 0 {
      CodedAtMost(codesize, n - 1, l);
    }
  }

  lemma CountedComplete(bits: seq<nat>, codesize: seq<nat>, freq: seq<nat>, h: nat)
    requires Counted(bits, codesize, SYMBOLS) && Assigned(codesize, freq, h)
        && forall s | 0 <= s < SYMBOLS :: codesize[s] <= MAX_CLEN
    ensures Complete(bits, MAX_CLEN) && Total(bits, MAX_CLEN) <= 257
  {
    hide Used, Total, Pow2, Fill, Fib;
    CodedAtMost(codesize, SYMBOLS, MAX_CLEN);
    FillAny(codesize, h);
  }

  /** However long the codes are measured, they fill the code space. */
  lemma FillAny(codesize: seq<nat>, h: nat)
    requires |codesize| == SYMBOLS && Fill(codesize, SYMBOLS, h) == Pow2(h)
    requires forall s | 0 <= s < SYMBOLS :: codesize[s] <= h && codesize[s] <= MAX_CLEN
    ensures Fill(codesize, SYMBOLS, MAX_CLEN) == Pow2(MAX_CLEN)
  {
    hide Fill, Pow2;
    if h <= MAX_CLEN {
      FillScale(codesize, SYMBOLS, h, MAX_CLEN);
      Pow2Add(h, MAX_CLEN - h);
    } else {
      FillScale(codesize, SYMBOLS, MAX_CLEN, h);
      Pow2Add(MAX_CLEN, h - MAX_CLEN);
      Cancel(Fill(codesize, SYMBOLS, MAX_CLEN), Pow2(MAX_CLEN), Pow2(h - MAX_CLEN));
    }
  }

  lemma Cancel(a: int, b: int, p: int)
    requires p > 0 && a * p == b * p
    ensures a == b
  {
    MulAtLeast(a - b, p);
    assert (a - b) * p == a * p - b * p;
  }

  // ---------------------------------------------------------------- dropping the pseudo-symbol

  lemma {:induction false} UsedShorter(bits: Lengths, l: nat, m: nat)
    requires l <= m <= MAX_CLEN
    ensures Used(bits, m) >= Used(bits, l) * Pow2(m - l)
    ensures l < m ==> Used(bits, m) >= Used(bits, l) * Pow2(m - l) + bits[m]
    decreases m
  {
    if l < m {
      UsedShorter(bits, l, m - 1);
      MulDouble(Used(bits, l), Pow2(m - 1 - l));
    }
  }

  /** All codes shorter than the longest leave room. */
  lemma ShorterFit(bits: Lengths, l: nat, m: nat)
    requires Complete(bits, m) && bits[m] > 0 && l < m
    ensures Used(bits, l) < Pow2(l)
  {
    hide Used, Pow2;
    UsedShorter(bits, l, m);
    Pow2Add(l, m - l);
    MulAtLeast(Used(bits, l) - Pow2(l), Pow2(m - l));
    assert (Used(bits, l) - Pow2(l)) * Pow2(m - l) == Used(bits, l) * Pow2(m - l) - Pow2(l) * Pow2(m - l);
  }

  lemma {:induction false} LongerFull(bits: Lengths, m: nat, l: nat)
    requires Complete(bits, m) && m <= l <= MAX_CLEN
    ensures Used(bits, l) == Pow2(l)
    decreases l
  {
    if m < l {
      LongerFull(bits, m, l - 1);
    }
  }

  /** One code fewer of the greatest length: now every length leaves room. */
  lemma DropFits(bits: Lengths, m: nat, l: nat)
    requires Complete(bits, m) && bits[m] > 0 && l <= 16
    ensures Used(bits[m := bits[m] - 1], l) < Pow2(l)
  {
    hide Used, Pow2;
    if l < m {
      UsedSame(bits, bits[m := bits[m] - 1], l + 1);
      ShorterFit(bits, l, m);
    } else {
      LongerFull(bits, m, l);
      UsedUpdate(bits, m, bits[m] - 1, l);
      assert (bits[m] - 1 - bits[m]) * Pow2(l - m) == -Pow2(l - m);
    }
  }

  /** Remove the pseudo-symbol from the largest code length in use. */
  method DropPseudo(bits: array<nat>)
    requires bits.Length == 33 && Complete(bits[..], 16) && 1 <= Total(bits[..], MAX_CLEN)
    modifies bits
    ensures Total(bits[..], MAX_CLEN) == Total(old(bits[..]), MAX_CLEN) - 1
    ensures bits[0] == 0 && (forall k | 16 < k <= MAX_CLEN :: bits[k] == 0)
    ensures forall l: nat | l <= 16 :: Used(bits[..], l) < Pow2(l)
    ensures exists m :: Dropped(old(bits[..]), bits[..], m)
  {
    hide Used, Total, Pow2;
    ghost var b := bits[..];
    var i := 16;
    while bits[i] == 0
      invariant 0 < i <= 16 && Complete(b, i) && bits[..] == b
      decreases i
    {
      ShorterComplete(b, i);
      NotEmpty(b, i);
      i := i - 1;
    }
    forall l: nat | l <= 16
      ensures Used(b[i := b[i] - 1], l) < Pow2(l)
    {
      DropFits(b, i, l);
    }
    TotalUpdate(b, i, b[i] - 1, MAX_CLEN);
    bits[i] := bits[i] - 1;
    assert Dropped(b, bits[..], i);
  }

  /** One code fewer of the largest length in use. */
  predicate Dropped(before: Lengths, after: seq<nat>, m: nat)
  {
    1 <= m <= 16 && before[m] > 0 && Complete(before, m) && after == before[m := before[m] - 1]
  }

  lemma NotEmpty(bits: Lengths, i: nat)
    requires Complete(bits, i) && i > 0 && bits[i] == 0
    ensures i > 1
  {
    assert Used(bits, 1) == 2 * Used(bits, 0) + bits[1];
    assert Pow2(1) == 2 * Pow2(0);
  }

  // ---------------------------------------------------------------- the list of symbols

  lemma {:induction false} CodedNext(codesize: seq<nat>, n: nat, l: nat)
    requires n <= |codesize| && l >= 1
    ensures Coded(codesize, n, l) == Coded(codesize, n, l - 1) + Exactly(codesize, n, l)
  {
    if n > 0 {
      CodedNext(codesize, n - 1, l);
    }
  }

  lemma {:induction false} ExactlyMono(codesize: seq<nat>, j: nat, n: nat, l: nat)
    requires j <= n <= |codesize|
    ensures Exactly(codesize, j, l) <= Exactly(codesize, n, l)
    decreases n
  {
    if j < n {
      ExactlyMono(codesize, j, n - 1, l);
    }
  }

  /** Whether symbol `s` comes before the `i`-bit symbols from `j` on. */
  predicate Before(codesize: seq<nat>, i: nat, j: nat, s: nat)
  {
    |codesize| == SYMBOLS && s < 256 && 0 < codesize[s] && (codesize[s] < i || (codesize[s] == i && s < j))
  }

  /** The first `p` entries of the list are the symbols before that point. */
  ghost predicate Listed(vals: seq<nat>, p: nat, codesize: seq<nat>, i: nat, j: nat)
  {
    && |vals| == 256 && p <= 256 && |codesize| == SYMBOLS && j <= 256
    && (forall k | 0 <= k < p :: Before(codesize, i, j, vals[k]))
    && (forall s: nat | Before(codesize, i, j, s) :: s in vals[..p])
    && (forall k, l | 0 <= k < l < p :: vals[k] != vals[l])
  }

  lemma ListOne(vals: seq<nat>, p: nat, codesize: seq<nat>, i: nat, j: nat)
    requires Listed(vals, p, codesize, i, j) && j < 256 && i >= 1
    ensures codesize[j] != i ==> Listed(vals, p, codesize, i, j + 1)
    ensures codesize[j] == i && p < 256 ==> Listed(vals[p := j], p + 1, codesize, i, j + 1)
  {
    var j' := j + 1;
    forall s: nat | Before(codesize, i, j', s)
      ensures Before(codesize, i, j, s) || (s == j && codesize[j] == i)
    {
    }
    if codesize[j] == i && p < 256 {
      assert vals[p := j][..p + 1] == vals[..p] + [j];
    }
  }

  lemma ListNext(vals: seq<nat>, p: nat, codesize: seq<nat>, i: nat)
    requires Listed(vals, p, codesize, i, 256)
    ensures Listed(vals, p, codesize, i + 1, 0)
  {
    forall s: nat | Before(codesize, i + 1, 0, s)
      ensures Before(codesize, i, 256, s)
    {
    }
  }

  lemma RoomInList(codesize: seq<nat>, i: nat, j: nat, p: nat)
    requires |codesize| == SYMBOLS && j < 256 && i >= 1 && codesize[j] == i
    requires p == Coded(codesize, 256, i - 1) + Exactly(codesize, j, i)
    ensures p < 256
  {
    CodedNext(codesize, 256, i);
    ExactlyMono(codesize, j + 1, 256, i);
    CodedAtMost(codesize, 256, i);
  }

  /** Shorter codes first, and the smaller symbol where two are equally long. */
  ghost predicate Sorted(vals: seq<nat>, p: nat, codesize: seq<nat>)
  {
    && p <= |vals| && (forall k | 0 <= k < p :: vals[k] < |codesize|)
    && forall k, l | 0 <= k < l < p ::
      codesize[vals[k]] < codesize[vals[l]] || (codesize[vals[k]] == codesize[vals[l]] && vals[k] < vals[l])
  }

  /** Each of the first `p` entries has a place among the codes of its length. */
  ghost predicate Placed(vals: seq<nat>, p: nat, codesize: seq<nat>)
  {
    && p <= |vals| && |codesize| == SYMBOLS
    && forall k | 0 <= k < p ::
      && vals[k] < SYMBOLS && codesize[vals[k]] > 0
      && Coded(codesize, 256, codesize[vals[k]] - 1) <= k < Coded(codesize, 256, codesize[vals[k]])
  }

  lemma SortOne(vals: seq<nat>, p: nat, codesize: seq<nat>, i: nat, j: nat)
    requires Listed(vals, p, codesize, i, j) && Sorted(vals, p, codesize)
    requires j < 256 && p < 256 && codesize[j] == i
    ensures Sorted(vals[p := j], p + 1, codesize)
  {
    forall k | 0 <= k < p
      ensures codesize[vals[k]] < i || (codesize[vals[k]] == i && vals[k] < j)
    {
      assert Before(codesize, i, j, vals[k]);
    }
  }

  lemma PlaceOne(vals: seq<nat>, p: nat, codesize: seq<nat>, i: nat, j: nat)
    requires Placed(vals, p, codesize) && j < 256 && p < |vals| && i >= 1 && codesize[j] == i
    requires p == Coded(codesize, 256, i - 1) + Exactly(codesize, j, i)
    ensures Placed(vals[p := j], p + 1, codesize)
  {
    hide Coded;
    CodedNext(codesize, 256, i);
    ExactlyMono(codesize, j + 1, 256, i);
  }

  /** The symbols sorted by code length. */
  method ListSymbols(codesize: array<nat>) returns (huffval: array<nat>, p: nat)
    requires codesize.Length == SYMBOLS
    ensures fresh(huffval) && huffval.Length == 256 && Listed(huffval[..], p, codesize[..], MAX_CLEN + 1, 0)
    ensures p == Coded(codesize[..], 256, MAX_CLEN) && forall k | p <= k < 256 :: huffval[k] == 0
    ensures Sorted(huffval[..], p, codesize[..]) && Placed(huffval[..], p, codesize[..])
  {
    hide Listed, Coded, Exactly, Sorted, Placed;
    huffval := new nat[256](_ => 0);
    p := 0;
    ghost var cs := codesize[..];
    ListNone(huffval[..], cs);
    for i := 1 to MAX_CLEN + 1
      invariant fresh(huffval) && codesize[..] == cs && Listed(huffval[..], p, cs, i, 0)
      invariant Sorted(huffval[..], p, cs) && Placed(huffval[..], p, cs)
      invariant p == Coded(cs, 256, i - 1) <= 256 && forall k | p <= k < 256 :: huffval[k] == 0
    {
      ExactlyNone(cs, i);
      for j := 0 to 256
        invariant fresh(huffval) && codesize[..] == cs && Listed(huffval[..], p, cs, i, j)
        invariant Sorted(huffval[..], p, cs) && Placed(huffval[..], p, cs)
        invariant p == Coded(cs, 256, i - 1) + Exactly(cs, j, i) && p <= 256
            && forall k | p <= k < 256 :: huffval[k] == 0
      {
        ListOne(huffval[..], p, cs, i, j);
        ExactlyNext(cs, j, i);
        if codesize[j] == i {
          RoomInList(cs, i, j, p);
          SortOne(huffval[..], p, cs, i, j);
          PlaceOne(huffval[..], p, cs, i, j);
          huffval[p] := j;
          p := p + 1;
        }
      }
      CodedNext(cs, 256, i);
      ListNext(huffval[..], p, cs, i);
    }
  }

  lemma ListNone(vals: seq<nat>, codesize: seq<nat>)
    requires |vals| == 256 && |codesize| == SYMBOLS
    ensures Listed(vals, 0, codesize, 1, 0) && Coded(codesize, 256, 0) == 0
    ensures Sorted(vals, 0, codesize) && Placed(vals, 0, codesize)
  {
    NoneCoded(codesize, 256);
  }

  lemma {:induction false} NoneCoded(codesize: seq<nat>, n: nat)
    requires n <= |codesize|
    ensures Coded(codesize, n, 0) == 0
  {
    if n > 0 {
      NoneCoded(codesize, n - 1);
    }
  }

  lemma ExactlyNone(codesize: seq<nat>, i: nat)
    ensures Exactly(codesize, 0, i) == 0
  {
  }

  lemma ExactlyNext(codesize: seq<nat>, j: nat, i: nat)
    requires j < |codesize|
    ensures Exactly(codesize, j + 1, i) == Exactly(codesize, j, i) + if codesize[j] == i then 1 else 0
  {
  }

  // ---------------------------------------------------------------- the whole table

  lemma {:induction false} TableUsed(t: HuffTable, bits: Lengths, l: nat)
    requires t.Shaped() && t.bits == bits[..17] && bits[0] == 0 && l <= 16
    ensures l >= 1 ==> t.First(l) + t.bits[l] == Used(bits, l)
    ensures t.Count(l) == Total(bits, l)
    decreases l
  {
    if l > 0 {
      TableUsed(t, bits, l - 1);
    }
  }

  lemma {:induction false} TotalRest(bits: Lengths, l: nat)
    requires 16 <= l <= MAX_CLEN && forall k | 16 < k <= MAX_CLEN :: bits[k] == 0
    ensures Total(bits, l) == Total(bits, 16)
    decreases l
  {
    if l > 16 {
      TotalRest(bits, l - 1);
    }
  }

  /** The counts and the list make a valid table with a code for just the listed symbols. */
  lemma TableValid(t: HuffTable, bits: Lengths, p: nat, codesize: seq<nat>)
    requires t.Shaped() && t.bits == bits[..17] && bits[0] == 0 && Total(bits, MAX_CLEN) == p <= 256
    requires (forall k | 16 < k <= MAX_CLEN :: bits[k] == 0) && (forall l: nat | l <= 16 :: Used(bits, l) < Pow2(l))
    requires Listed(t.huffval, p, codesize, MAX_CLEN + 1, 0) && forall s | 0 <= s < SYMBOLS :: codesize[s] <= MAX_CLEN
    ensures t.Valid() && t.Count(16) == p
    ensures forall s: nat | s < 256 :: t.HasCode(s) <==> codesize[s] > 0
  {
    hide Used, Total, Pow2, HuffTable.First, HuffTable.Count;
    TotalRest(bits, MAX_CLEN);
    TableUsed(t, bits, 16);
    forall l | 1 <= l <= 16
      ensures t.First(l) + t.bits[l] < Pow2(l)
    {
      TableUsed(t, bits, l);
      assert Used(bits, l) < Pow2(l);
    }
    ListedCodes(t, p, codesize);
  }

  lemma ListedCodes(t: HuffTable, p: nat, codesize: seq<nat>)
    requires t.Shaped() && t.Count(16) == p && Listed(t.huffval, p, codesize, MAX_CLEN + 1, 0)
    requires forall s | 0 <= s < SYMBOLS :: codesize[s] <= MAX_CLEN
    ensures p <= 256 && t.DistinctSymbols() && forall s: nat | s < 256 :: t.HasCode(s) <==> codesize[s] > 0
  {
    hide HuffTable.Count;
    forall s: nat | s < 256
      ensures t.HasCode(s) <==> codesize[s] > 0
    {
      if codesize[s] > 0 {
        assert Before(codesize, MAX_CLEN + 1, 0, s);
        var k :| 0 <= k < p && t.huffval[..p][k] == s;
        assert t.huffval[k] == s;
      }
      if t.HasCode(s) {
        var k :| 0 <= k < p && k < 256 && t.huffval[k] == s;
        assert Before(codesize, MAX_CLEN + 1, 0, t.huffval[k]);
      }
    }
  }

  // ---------------------------------------------------------------- code lengths of the table

  lemma {:induction false} ExactlySome(codesize: seq<nat>, n: nat, l: nat) returns (s: nat)
    requires n <= |codesize| && Exactly(codesize, n, l) > 0
    ensures s < n && codesize[s] == l
  {
    if codesize[n - 1] == l {
      s := n - 1;
    } else {
      s := ExactlySome(codesize, n - 1, l);
    }
  }

  /** The pseudo-symbol is one of at least two symbols with the longest codes; dropping it leaves the others. */
  lemma OthersKept(before: Lengths, after: seq<nat>, m: nat, codesize: seq<nat>)
    requires Counted(before, codesize, SYMBOLS) && |codesize| == SYMBOLS && Dropped(before, after, m)
    requires codesize[PSEUDO] > 0 && forall s | 0 <= s < SYMBOLS :: codesize[s] <= codesize[PSEUDO] <= 16
    ensures m == codesize[PSEUDO] && after[m] > 0
    ensures forall l | 1 <= l <= 16 :: after[l] == Exactly(codesize, PSEUDO, l)
  {
    hide Used, Total, Pow2, Fill, Coded;
    assert before[m] == Exactly(codesize, SYMBOLS, m);
    var s := ExactlySome(codesize, SYMBOLS, m);
    assert Exactly(codesize, SYMBOLS, codesize[PSEUDO]) >= 1;
    assert before[codesize[PSEUDO]] == Exactly(codesize, SYMBOLS, codesize[PSEUDO]);
    LastEven(before, m);
  }

  lemma LastEven(bits: Lengths, m: nat)
    requires Complete(bits, m) && bits[m] > 0 && m > 0
    ensures bits[m] >= 2
  {
    assert Used(bits, m) == 2 * Used(bits, m - 1) + bits[m];
    assert Pow2(m) == 2 * Pow2(m - 1);
  }

  lemma {:induction false} CountsCoded(t: HuffTable, codesize: seq<nat>, l: nat)
    requires t.Shaped() && |codesize| == SYMBOLS && l <= 16
    requires forall l | 1 <= l <= 16 :: t.bits[l] == Exactly(codesize, PSEUDO, l)
    ensures t.Count(l) == Coded(codesize, PSEUDO, l)
    decreases l
  {
    hide Exactly;
    if l == 0 {
      NoneCoded(codesize, PSEUDO);
    } else {
      CountsCoded(t, codesize, l - 1);
      CodedNext(codesize, PSEUDO, l);
    }
  }

  /** Every entry of the table has its code size. */
  lemma PlacedSizes(t: HuffTable, codesize: seq<nat>, k: nat)
    requires t.Shaped() && k < t.Count(16) && Placed(t.huffval, t.Count(16), codesize)
    requires forall s | 0 <= s < SYMBOLS :: codesize[s] <= 16
    requires forall l | 1 <= l <= 16 :: t.bits[l] == Exactly(codesize, PSEUDO, l)
    ensures t.huffval[k] < SYMBOLS && t.Size(k) == codesize[t.huffval[k]]
  {
    hide HuffTable.Count, Coded, Exactly, HuffTable.Size;
    var l := codesize[t.huffval[k]];
    CountsCoded(t, codesize, l - 1);
    CountsCoded(t, codesize, l);
    t.SizeUnique(k, l);
  }

  /** The code of each symbol that occurs is as long as its code size. */
  ghost predicate AsLong(t: HuffTable, freq: seq<nat>, sizes: seq<nat>)
  {
    Covers(t, freq) && |sizes| == SYMBOLS && forall s: nat | s < 256 && freq[s] > 0 :: CodeLength(t, s) == sizes[s]
  }

  /** With code sizes of at most 16, each symbol gets a code of its size, and the table is a best one. */
  lemma SizesKept(t: HuffTable, freq: seq<nat>, codesize: seq<nat>)
    requires Covers(t, freq) && t.Count(16) > 0 && Placed(t.huffval, t.Count(16), codesize)
    requires |codesize| == SYMBOLS && Minimal(codesize, WithPseudo(freq))
    requires forall s: nat | s < 256 :: freq[s] > 0 <==> codesize[s] > 0
    requires codesize[PSEUDO] > 0 && forall s | 0 <= s < SYMBOLS :: codesize[s] <= codesize[PSEUDO] <= 16
    requires t.bits[codesize[PSEUDO]] > 0
    requires forall l | 1 <= l <= 16 :: t.bits[l] == Exactly(codesize, PSEUDO, l)
    ensures AsLong(t, freq, codesize) && Best(t, freq)
  {
    hide HuffTable.Count, Coded, Exactly, HuffTable.Size, Minimal, HuffTable.HasCode, HuffTable.Find, HuffTable.First,
      HuffTable.DistinctSymbols, Placed, Best;
    forall s: nat | s < 256 && freq[s] > 0
      ensures CodeLength(t, s) == codesize[s]
    {
      PlacedSizes(t, codesize, t.Index(s));
    }
    PlacedSizes(t, codesize, t.Count(16) - 1);
    LastInUse(t, codesize[PSEUDO]);
    MinimalIsBest(t, freq, codesize);
  }

  lemma LastInUse(t: HuffTable, m: nat)
    requires t.Shaped() && t.Count(16) > 0 && 1 <= m <= 16 && t.bits[m] > 0
    ensures Longest(t) >= m
  {
    hide HuffTable.Size;
    var k := t.Count(m) - 1;
    t.CountMono(m, 16);
    t.SizeUnique(k, m);
    NoneLonger(t, k);
  }

  /** A smaller code size never gets a longer code, whatever has become of the lengths over 16. */
  lemma ShorterFirst(t: HuffTable, codesize: seq<nat>, s: nat, u: nat)
    requires t.Shaped() && t.ValidCounts() && t.HasCode(s) && t.HasCode(u)
    requires Sorted(t.huffval, t.Count(16), codesize) && s < |codesize| && u < |codesize|
    requires codesize[s] < codesize[u]
    ensures CodeLength(t, s) <= CodeLength(t, u)
  {
    hide HuffTable.First, HuffTable.Find, HuffTable.SizeFrom;
    var k, l := t.Index(s), t.Index(u);
    if t.Size(l) < t.Size(k) {
      t.CountMono(t.Size(l), t.Size(k) - 1);
    }
  }

  /** The number of real symbols in use. */
  function RealSymbols(freq: seq<nat>, n: nat): nat
    requires n <= |freq|
  {
    if n == 0 then 0 else RealSymbols(freq, n - 1) + if freq[n - 1] > 0 then 1 else 0
  }

  lemma {:induction false} RealAreCoded(freq: seq<nat>, codesize: seq<nat>, n: nat)
    requires |freq| == |codesize| && n <= |freq|
    requires forall s | 0 <= s < |freq| :: (codesize[s] > 0 <==> freq[s] > 0) && codesize[s] <= MAX_CLEN
    ensures Coded(codesize, n, MAX_CLEN) == RealSymbols(freq, n)
  {
    if n > 0 {
      RealAreCoded(freq, codesize, n - 1);
    }
  }

  /** How many symbols have each code size. */
  function SizeCounts(sizes: seq<nat>): (bits: Lengths)
    requires |sizes| == SYMBOLS
  {
    seq(33, l requires 0 <= l < 33 => if l == 0 then 0 else Exactly(sizes, SYMBOLS, l))
  }

  lemma CountedSizes(bits: Lengths, sizes: seq<nat>)
    requires |sizes| == SYMBOLS && Counted(bits, sizes, SYMBOLS)
    ensures bits == SizeCounts(sizes)
  {
    hide Used, Total, Fill, Coded, Exactly;
  }

  /** The counts of the table are those of the code sizes, brought down to 16, without one of the longest. */
  ghost predicate LengthsLimited(t: HuffTable, sizes: seq<nat>)
  {
    |sizes| == SYMBOLS
    && exists bits: Lengths, m :: Dropped(Limited(SizeCounts(sizes), MAX_CLEN), bits, m) && t.bits == bits[..17]
  }

  lemma IsLimited(t: HuffTable, sizes: seq<nat>, b0: Lengths, b1: Lengths, b2: Lengths)
    requires |sizes| == SYMBOLS && Counted(b0, sizes, SYMBOLS) && b1 == Limited(b0, MAX_CLEN)
    requires (exists m :: Dropped(b1, b2, m)) && t.bits == b2[..17]
    ensures LengthsLimited(t, sizes)
  {
    hide Counted, Limited, SizeCounts, Dropped;
    CountedSizes(b0, sizes);
  }

  /** The table lists its symbols by code sizes that are the best for these counts; and if none of them exceeds 16,
      no valid table does better. */
  ghost predicate OptimizedBy(t: HuffTable, freq: seq<nat>, sizes: seq<nat>)
  {
    && |freq| == |sizes| == SYMBOLS && Minimal(sizes, WithPseudo(freq))
    && t.Valid() && Sorted(t.huffval, t.Count(16), sizes)
    && ((forall s | 0 <= s < SYMBOLS :: sizes[s] <= 16) ==> Best(t, freq))
    && (Sum(WithPseudo(freq), SYMBOLS) < 4181 ==> Best(t, freq))
  }

  ghost predicate Optimized(t: HuffTable, freq: seq<nat>) { exists sizes :: OptimizedBy(t, freq, sizes) }

  lemma IsOptimized(t: HuffTable, freq: seq<nat>, sizes: seq<nat>)
    requires OptimizedBy(t, freq, sizes)
    ensures Optimized(t, freq)
  {
  }

  /** jpeg_gen_optimal_table.  Fails only on code sizes above MAX_CLEN, which take a total count of at least the 35th
      Fibonacci number.  The symbols are listed by the code sizes of Huffman's procedure; where these are at most 16
      they are the lengths of the codes, and then no valid table does better. */
  method GenOptimalTable(freq: array<nat>) returns (ok: bool, t: HuffTable, ghost sizes: seq<nat>)
    requires freq.Length == 257 && Sum(WithPseudo(freq[..]), 257) <= 1000000000
    requires 1 <= RealSymbols(freq[..], 256) <= 254
    modifies freq
    ensures |sizes| == SYMBOLS && Minimal(sizes, WithPseudo(old(freq[..])))
    ensures ok <==> forall s | 0 <= s < SYMBOLS :: sizes[s] <= 32
    ensures Sum(WithPseudo(old(freq[..])), SYMBOLS) < 9227465 ==> ok
    ensures ok ==> t.Valid() && forall s: nat | s < 256 :: t.HasCode(s) <==> old(freq[s]) > 0
    ensures ok ==> t.Count(16) == RealSymbols(old(freq[..]), 256) && OptimizedBy(t, old(freq[..]), sizes)
    ensures ok ==> LengthsLimited(t, sizes)
    ensures (forall s | 0 <= s < SYMBOLS :: sizes[s] <= 16) ==>
      ok && AsLong(t, old(freq[..]), sizes)
  {
    hide Sum, Forest, Complete, Counted, Listed, Used, Total, Assigned, RealSymbols, Coded, WithPseudo, Pow2, Fill, Fib,
      HuffTable.Shaped, HuffTable.First, HuffTable.Count, HuffTable.HasCode, HuffTable.ValidCounts, Best, Minimal,
      HuffTable.DistinctSymbols, Sorted, Placed, Dropped, HuffTable.Find, HuffTable.SizeFrom, AsLong, LengthsLimited,
      Limited;
    ghost var f0 := freq[..];
    freq[256] := 1;
    ghost var f := freq[..];
    PseudoCounts(f0, f);
    var codesize: array<nat>;
    ghost var st;
    codesize, st := MergeAll(freq);
    sizes := codesize[..];
    var a := SomeSymbol(f0, 256);
    ghost var h := OneTree(st, f, a, 256);
    AssignedUsed(sizes, f, h);
    if Sum(f, SYMBOLS) < 9227465 {
      DepthBound(sizes, f, h);
    }
    t := HuffTable([], []);
    var bits: array<nat>;
    ok, bits := CountLengths(codesize);
    if !ok {
      return;
    }
    ghost var b0 := bits[..];
    CountedComplete(b0, sizes, f, h);
    CodedCount(b0, sizes, f0, f, h);
    LimitLengths(bits);
    ghost var b1 := bits[..];
    DropPseudo(bits);
    var huffval, p := ListSymbols(codesize);
    TableShaped(bits[..], huffval[..], p, sizes);
    t := HuffTable(bits[..17], huffval[..]);
    TableValid(t, bits[..], p, sizes);
    IsLimited(t, sizes, b0, b1, bits[..]);
    if forall s | 0 <= s < SYMBOLS :: sizes[s] <= 16 {
      ShortTable(t, f0, sizes, b0, b1, bits[..]);
    }
  }

  /** No code size exceeds 16, so the counts need no adjustment. */
  lemma ShortTable(t: HuffTable, freq: seq<nat>, sizes: seq<nat>, b0: Lengths, b1: Lengths, b2: Lengths)
    requires |freq| == SYMBOLS && Covers(t, freq) && 0 < t.Count(16) && Placed(t.huffval, t.Count(16), sizes)
    requires |sizes| == SYMBOLS && Minimal(sizes, WithPseudo(freq))
    requires forall s: nat | s < 256 :: freq[s] > 0 <==> sizes[s] > 0
    requires sizes[PSEUDO] > 0 && forall s | 0 <= s < SYMBOLS :: sizes[s] <= sizes[PSEUDO] <= 16
    requires Counted(b0, sizes, SYMBOLS) && ((forall k | 16 < k <= MAX_CLEN :: b0[k] == 0) ==> b1 == b0)
    requires (exists m :: Dropped(b1, b2, m)) && t.bits == b2[..17]
    ensures AsLong(t, freq, sizes) && Best(t, freq)
  {
    hide Complete, Coded, Exactly, Minimal, HuffTable.HasCode, HuffTable.Find, HuffTable.First, HuffTable.Count, Placed,
      Best, WithPseudo, HuffTable.DistinctSymbols, HuffTable.Size, Dropped;
    forall k | 16 < k <= MAX_CLEN
      ensures b0[k] == 0
    {
      assert b0[k] == Exactly(sizes, SYMBOLS, k);
      if b0[k] > 0 {
        var s := ExactlySome(sizes, SYMBOLS, k);
      }
    }
    var m :| Dropped(b1, b2, m);
    OthersKept(b1, b2, m, sizes);
    SizesKept(t, freq, sizes);
  }

  lemma PseudoCounts(f0: seq<nat>, f: seq<nat>)
    requires |f0| == SYMBOLS && f == f0[256 := 1]
    ensures f == WithPseudo(f0) && f[256] > 0
  {
  }

  lemma {:induction false} SomeSymbol(freq: seq<nat>, n: nat) returns (a: nat)
    requires n <= |freq| && RealSymbols(freq, n) >= 1
    ensures a < n && freq[a] > 0
  {
    if freq[n - 1] > 0 {
      a := n - 1;
    } else {
      a := SomeSymbol(freq, n - 1);
    }
  }

  lemma AssignedUsed(codesize: seq<nat>, freq: seq<nat>, h: nat)
    requires Assigned(codesize, freq, h)
    ensures forall s | 0 <= s < SYMBOLS :: codesize[s] > 0 <==> freq[s] > 0
  {
  }

  /** All used symbols are counted, the pseudo-symbol among them. */
  lemma CodedCount(bits: seq<nat>, codesize: seq<nat>, f0: seq<nat>, f: seq<nat>, h: nat)
    requires |f0| == SYMBOLS && f == f0[256 := 1] && Assigned(codesize, f, h) && Counted(bits, codesize, SYMBOLS)
    requires forall s | 0 <= s < SYMBOLS :: codesize[s] <= MAX_CLEN
    ensures Total(bits, MAX_CLEN) == Coded(codesize, 256, MAX_CLEN) + 1
        && Coded(codesize, 256, MAX_CLEN) == RealSymbols(f0, 256)
  {
    hide Total, Used, Fill, Pow2, Fib, Sum;
    RealAreCoded(f, codesize, 256);
    SameReal(f0, f, 256);
    assert codesize[256] > 0;
  }

  lemma {:induction false} SameReal(f0: seq<nat>, f: seq<nat>, n: nat)
    requires |f0| == |f| == SYMBOLS && n <= 256 && forall s | 0 <= s < 256 :: f0[s] == f[s]
    ensures RealSymbols(f0, n) == RealSymbols(f, n)
  {
    if n > 0 {
      SameReal(f0, f, n - 1);
    }
  }

  /** The bytes of the table are in range. */
  lemma TableShaped(bits: seq<nat>, vals: seq<nat>, p: nat, codesize: seq<nat>)
    requires |bits| == 33 && Total(bits, MAX_CLEN) == p < 256 && Listed(vals, p, codesize, MAX_CLEN + 1, 0)
    requires forall k | p <= k < 256 :: vals[k] == 0
    ensures |vals| == 256 && HuffTable(bits[..17], vals).Shaped()
  {
    hide Total;
    forall k | 0 <= k < 17
      ensures bits[k] < 256
    {
      OneOfTotal(bits, k, MAX_CLEN);
    }
    forall k | 0 <= k < 256
      ensures vals[k] < 256
    {
      assert k < p ==> Before(codesize, MAX_CLEN + 1, 0, vals[k]);
    }
  }
}
