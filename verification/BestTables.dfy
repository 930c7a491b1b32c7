/** What it means for a Huffman table to be as good as any: code lengths of a table leave room, and the least total
    that Huffman's procedure gives is the least that any table can reach. */
module BestTables {
  import opened Bits
  import opened Huffman
  import opened HuffmanForest
  import opened HuffmanOptimal
  import opened HuffmanPseudo

  /** A valid table with codes for all symbols that occur. */
  ghost predicate Covers(t: HuffTable, freq: seq<nat>)
  {
    |freq| == SYMBOLS && t.Valid() && forall s: nat | s < 256 && freq[s] > 0 :: t.HasCode(s)
  }

  /** The length of the code of a symbol. */
  function CodeLength(t: HuffTable, s: nat): (l: nat)
    requires t.Shaped() && t.ValidCounts() && t.HasCode(s)
    ensures 1 <= l <= 16
  {
    t.Size(t.Index(s))
  }

  /** The bits that the occurrences of the first `n` symbols take. */
  ghost function CodeBits(t: HuffTable, freq: seq<nat>, n: nat): int
    requires |freq| == SYMBOLS && t.Shaped() && t.ValidCounts() && n <= 256
    requires forall s: nat | s < 256 && freq[s] > 0 :: t.HasCode(s)
  {
    if n == 0 then 0
    else CodeBits(t, freq, n - 1) + (if freq[n - 1] > 0 then freq[n - 1] * CodeLength(t, n - 1) else 0)
  }

  /** The length of the longest code. */
  function Longest(t: HuffTable): (l: nat)
    requires t.Shaped() && t.Count(16) > 0
    ensures 1 <= l <= 16
  {
    t.Size(t.Count(16) - 1)
  }

  /** No valid table sends the symbols in fewer bits, if a code of the greatest length is added for the
      pseudo-symbol. */
  ghost predicate Best(t: HuffTable, freq: seq<nat>)
  {
    && Covers(t, freq) && t.Count(16) > 0
    && forall u: HuffTable | Covers(u, freq) && u.Count(16) > 0 ::
      CodeBits(t, freq, 256) + Longest(t) <= CodeBits(u, freq, 256) + Longest(u)
  }

  // ---------------------------------------------------------------- the room that the codes of a table take

  function Spaces(t: HuffTable, k: nat, d: nat): nat
    requires t.Shaped() && k <= t.Count(16)
    decreases k
  {
    if k == 0 then 0 else Spaces(t, k - 1, d) + Room(t.Size(k - 1), d)
  }

  lemma {:induction false} SpacesDouble(t: HuffTable, k: nat, d: nat)
    requires t.Shaped() && k <= t.Count(16) && d > 0 && forall j | 0 <= j < k :: t.Size(j) < d
    ensures Spaces(t, k, d) == 2 * Spaces(t, k, d - 1)
    decreases k
  {
    hide HuffTable.Size, HuffTable.Count, Room;
    if k > 0 {
      SpacesDouble(t, k - 1, d);
      RoomHalves(t.Size(k - 1), d);
    }
  }

  lemma {:induction false} SpacesRun(t: HuffTable, l: nat, j: nat)
    requires t.Shaped() && 1 <= l <= 16 && j <= t.bits[l]
    ensures t.Count(l - 1) + j <= t.Count(l) <= t.Count(16)
    ensures Spaces(t, t.Count(l - 1) + j, l) == Spaces(t, t.Count(l - 1), l) + j
    decreases j
  {
    hide HuffTable.Size, Pow2;
    t.CountMono(l, 16);
    if j > 0 {
      SpacesRun(t, l, j - 1);
      t.SizeUnique(t.Count(l - 1) + j - 1, l);
      SmallRooms(l);
    }
  }

  lemma ShorterSizes(t: HuffTable, l: nat)
    requires t.Shaped() && 1 <= l <= 16
    ensures t.Count(l - 1) <= t.Count(16) && forall j | 0 <= j < t.Count(l - 1) :: t.Size(j) < l
  {
    hide HuffTable.SizeFrom;
    t.CountMono(l - 1, 16);
    forall j | 0 <= j < t.Count(l - 1)
      ensures t.Size(j) < l
    {
      if t.Size(j) >= l {
        t.CountMono(l - 1, t.Size(j) - 1);
      }
    }
  }

  /** All codes of up to `l` bits take what the canonical numbering has given away. */
  lemma {:induction false} SpacesGiven(t: HuffTable, l: nat)
    requires t.Shaped() && 1 <= l <= 16
    ensures t.Count(l) <= t.Count(16) && Spaces(t, t.Count(l), l) == t.First(l) + t.bits[l]
    decreases l
  {
    hide HuffTable.Size, Pow2, Room;
    t.CountMono(l, 16);
    SpacesRun(t, l, t.bits[l]);
    ShorterSizes(t, l);
    if l > 1 {
      SpacesGiven(t, l - 1);
      SpacesDouble(t, t.Count(l - 1), l);
    }
  }

  // ---------------------------------------------------------------- the lengths of a table

  /** The length of each symbol that occurs, and of one more code as long as the longest. */
  function LengthsOf(t: HuffTable, freq: seq<nat>): (l: seq<nat>)
    requires |freq| == SYMBOLS && t.Shaped() && t.ValidCounts() && t.Count(16) > 0
    requires forall s: nat | s < 256 && freq[s] > 0 :: t.HasCode(s)
    ensures |l| == SYMBOLS
  {
    seq(SYMBOLS, s requires 0 <= s < SYMBOLS =>
      if s == PSEUDO then Longest(t) else if freq[s] > 0 then CodeLength(t, s) else 0)
  }

  /** The room of the first `n` symbols, as far as they are among the first `k` of the table. */
  function Taken(t: HuffTable, freq: seq<nat>, n: nat, k: nat, d: nat): nat
    requires |freq| == SYMBOLS && t.Shaped() && t.ValidCounts() && n <= 256
    requires forall s: nat | s < 256 && freq[s] > 0 :: t.HasCode(s)
  {
    if n == 0 then 0
    else
      Taken(t, freq, n - 1, k, d)
      + if freq[n - 1] > 0 && t.Index(n - 1) < k then Room(CodeLength(t, n - 1), d) else 0
  }

  lemma {:induction false} TakenNext(t: HuffTable, freq: seq<nat>, n: nat, k: nat, d: nat)
    requires |freq| == SYMBOLS && t.Shaped() && t.ValidCounts() && n <= 256 && k < t.Count(16)
    requires forall s: nat | s < 256 && freq[s] > 0 :: t.HasCode(s)
    ensures Taken(t, freq, n, k + 1, d) <= Taken(t, freq, n, k, d)
        + if t.huffval[k] < n then Room(t.Size(k), d) else 0
  {
    hide HuffTable.Size, HuffTable.Count, HuffTable.First, HuffTable.Find, Room, HuffTable.HasCode;
    if n > 0 {
      TakenNext(t, freq, n - 1, k, d);
      if freq[n - 1] > 0 {
        assert t.huffval[t.Index(n - 1)] == n - 1;
      }
    }
  }

  lemma {:induction false} TakenNone(t: HuffTable, freq: seq<nat>, n: nat, d: nat)
    requires |freq| == SYMBOLS && t.Shaped() && t.ValidCounts() && n <= 256
    requires forall s: nat | s < 256 && freq[s] > 0 :: t.HasCode(s)
    ensures Taken(t, freq, n, 0, d) == 0
  {
    if n > 0 {
      TakenNone(t, freq, n - 1, d);
    }
  }

  lemma {:induction false} TakenFits(t: HuffTable, freq: seq<nat>, k: nat, d: nat)
    requires |freq| == SYMBOLS && t.Shaped() && t.ValidCounts() && k <= t.Count(16)
    requires forall s: nat | s < 256 && freq[s] > 0 :: t.HasCode(s)
    ensures Taken(t, freq, 256, k, d) <= Spaces(t, k, d)
    decreases k
  {
    hide HuffTable.Size, HuffTable.Count, HuffTable.First, Room, Taken, HuffTable.HasCode;
    if k == 0 {
      TakenNone(t, freq, 256, d);
    } else {
      TakenFits(t, freq, k - 1, d);
      TakenNext(t, freq, 256, k - 1, d);
    }
  }

  lemma {:induction false} RoomsTaken(t: HuffTable, freq: seq<nat>, f: seq<nat>, n: nat, d: nat)
    requires |freq| == SYMBOLS && t.Shaped() && t.ValidCounts() && t.Count(16) > 0 && n <= 256
    requires forall s: nat | s < 256 && freq[s] > 0 :: t.HasCode(s)
    requires f == freq[PSEUDO := 1]
    ensures Rooms(f, LengthsOf(t, freq), n, d) == Taken(t, freq, n, t.Count(16), d)
  {
    hide HuffTable.Size, HuffTable.Count, HuffTable.First, HuffTable.Find, Room, HuffTable.HasCode;
    if n > 0 {
      RoomsTaken(t, freq, f, n - 1, d);
    }
  }

  /** No code is longer than the last. */
  lemma NoneLonger(t: HuffTable, p: nat)
    requires t.Shaped() && p < t.Count(16)
    ensures t.Size(p) <= Longest(t) && t.Count(Longest(t)) == t.Count(16)
  {
    hide HuffTable.SizeFrom;
    var m := Longest(t);
    t.CountMono(m, 16);
    if t.Size(p) > m {
      t.CountMono(m, t.Size(p) - 1);
    }
  }

  /** The lengths of any table leave room for a code word of all ones. */
  lemma TableFeasible(t: HuffTable, freq: seq<nat>)
    requires Covers(t, freq) && t.Count(16) > 0
    ensures Feasible(freq[PSEUDO := 1], LengthsOf(t, freq), Longest(t))
  {
    hide HuffTable.Size, HuffTable.Count, HuffTable.First, HuffTable.Find, Room, Rooms, HuffTable.HasCode, Pow2;
    var f, l, m := freq[PSEUDO := 1], LengthsOf(t, freq), Longest(t);
    forall i | 0 <= i < SYMBOLS && f[i] > 0
      ensures l[i] <= m
    {
      if i != PSEUDO {
        NoneLonger(t, t.Index(i));
      }
    }
    RoomsTaken(t, freq, f, PSEUDO, m);
    TakenFits(t, freq, t.Count(16), m);
    SpacesGiven(t, m);
    NoneLonger(t, t.Count(16) - 1);
    assert t.First(m) + t.bits[m] < Pow2(m);
    OneMoreRoom(f, l, m);
  }

  lemma OneMoreRoom(f: seq<nat>, l: seq<nat>, m: nat)
    requires |f| == |l| == SYMBOLS && f[PSEUDO] == 1 && l[PSEUDO] == m
    ensures Rooms(f, l, SYMBOLS, m) == Rooms(f, l, PSEUDO, m) + 1
  {
  }

  lemma {:induction false} CostIsBits(t: HuffTable, freq: seq<nat>, l: seq<nat>, n: nat)
    requires Covers(t, freq) && n <= 256 && |l| == SYMBOLS
    requires forall s: nat | s < 256 :: l[s] == if freq[s] > 0 then CodeLength(t, s) else 0
    ensures Cost(freq[PSEUDO := 1], l, n) == CodeBits(t, freq, n)
  {
    hide HuffTable.Size, HuffTable.Count, HuffTable.First, HuffTable.Find, HuffTable.HasCode;
    if n > 0 {
      CostIsBits(t, freq, l, n - 1);
      var f := freq[PSEUDO := 1];
      assert f[n - 1] == freq[n - 1];
      if freq[n - 1] > 0 {
        assert f[n - 1] * l[n - 1] == freq[n - 1] * CodeLength(t, n - 1);
      } else {
        assert f[n - 1] * l[n - 1] == 0;
      }
    }
  }

  lemma PseudoCost(f: seq<nat>, l: seq<nat>)
    requires |f| == |l| == SYMBOLS && f[PSEUDO] == 1
    ensures Cost(f, l, SYMBOLS) == Cost(f, l, PSEUDO) + l[PSEUDO]
  {
  }

  /** A table whose code lengths are minimal is a best one. */
  lemma MinimalIsBest(t: HuffTable, freq: seq<nat>, codesize: seq<nat>)
    requires Covers(t, freq) && t.Count(16) > 0 && Minimal(codesize, freq[PSEUDO := 1])
    requires codesize[PSEUDO] == Longest(t)
    requires forall s: nat | s < 256 :: codesize[s] == if freq[s] > 0 then CodeLength(t, s) else 0
    ensures Best(t, freq)
  {
    hide HuffTable.Size, HuffTable.Count, HuffTable.First, HuffTable.Find, HuffTable.HasCode, Cost, Feasible, CodeBits,
      HuffTable.Shaped, HuffTable.DistinctSymbols;
    var f := freq[PSEUDO := 1];
    CostIsBits(t, freq, codesize, 256);
    PseudoCost(f, codesize);
    forall u: HuffTable | Covers(u, freq) && u.Count(16) > 0
      ensures CodeBits(t, freq, 256) + Longest(t) <= CodeBits(u, freq, 256) + Longest(u)
    {
      var l := LengthsOf(u, freq);
      TableFeasible(u, freq);
      CostIsBits(u, freq, l, 256);
      PseudoCost(f, l);
      assert Cost(f, codesize, SYMBOLS) <= Cost(f, l, SYMBOLS);
    }
  }
}
