/** Huffman's procedure gives code lengths that cannot be improved: no other lengths that leave room for all codes
    make the coded symbols shorter in total. */
module HuffmanOptimal {
  import opened Bits
  import opened HuffmanForest

  // ---------------------------------------------------------------- cost and room

  /** The total length of the first `n` symbols when symbol `i` occurs `w[i]` times. */
  function Cost(w: seq<nat>, l: seq<nat>, n: nat): nat
    requires n <= |w| == |l|
  {
    if n == 0 then 0 else Cost(w, l, n - 1) + w[n - 1] * l[n - 1]
  }

  /** What a code of `l` bits takes of the code space, in units of codes of `d` bits. */
  function Room(l: nat, d: nat): nat { if l <= d then Pow2(d - l) else 0 }

  function Rooms(w: seq<nat>, l: seq<nat>, n: nat, d: nat): nat
    requires n <= |w| == |l|
  {
    if n == 0 then 0 else Rooms(w, l, n - 1, d) + if w[n - 1] > 0 then Room(l[n - 1], d) else 0
  }

  /** Lengths of at most `d` bits for the symbols that occur, which leave room for all of them (Kraft's inequality). */
  predicate Feasible(w: seq<nat>, l: seq<nat>, d: nat)
  {
    |w| == |l| && (forall i | 0 <= i < |w| && w[i] > 0 :: l[i] <= d) && Rooms(w, l, |w|, d) <= Pow2(d)
  }

  lemma {:induction false} CostAfter(w: seq<nat>, l: seq<nat>, n: nat, i: nat, v: nat)
    requires n <= |w| == |l| && i < |w|
    ensures Cost(w, l[i := v], n) == Cost(w, l, n) + if i < n then w[i] * v - w[i] * l[i] else 0
    decreases n
  {
    if n > 0 {
      CostAfter(w, l, n - 1, i, v);
    }
  }

  lemma {:induction false} RoomsAfter(w: seq<nat>, l: seq<nat>, n: nat, i: nat, v: nat, d: nat)
    requires n <= |w| == |l| && i < |w| && w[i] > 0
    ensures Rooms(w, l[i := v], n, d) == Rooms(w, l, n, d) + if i < n then Room(v, d) - Room(l[i], d) else 0
    decreases n
  {
    hide Room;
    if n > 0 {
      RoomsAfter(w, l, n - 1, i, v, d);
    }
  }

  /** A longer code for a rarer symbol, in exchange. */
  lemma Exchanged(w: seq<nat>, l: seq<nat>, d: nat, i: nat, j: nat)
    requires Feasible(w, l, d) && i < |w| && j < |w| && w[i] > 0 && w[j] > 0 && w[i] <= w[j] && l[i] <= l[j]
    ensures Feasible(w, l[i := l[j]][j := l[i]], d)
    ensures Cost(w, l[i := l[j]][j := l[i]], |w|) <= Cost(w, l, |w|)
  {
    hide Pow2, Room, Rooms, Cost;
    var l1 := l[i := l[j]];
    RoomsAfter(w, l, |w|, i, l[j], d);
    RoomsAfter(w, l1, |w|, j, l[i], d);
    CostAfter(w, l, |w|, i, l[j]);
    CostAfter(w, l1, |w|, j, l[i]);
    if i != j {
      Less(w[i], w[j], l[j] - l[i]);
      assert w[i] * (l[j] - l[i]) == w[i] * l[j] - w[i] * l[i];
      assert w[j] * (l[j] - l[i]) == w[j] * l[j] - w[j] * l[i];
    }
  }

  lemma Less(a: nat, b: nat, c: nat)
    requires a <= b
    ensures a * c <= b * c
  {
    assert (b - a) * c >= 0;
    assert (b - a) * c == b * c - a * c;
  }

  /** Without codes of the full length, all rooms come in pairs. */
  lemma {:induction false} RoomsHalve(w: seq<nat>, l: seq<nat>, n: nat, d: nat)
    requires n <= |w| == |l| && d > 0 && forall i | 0 <= i < n && w[i] > 0 :: l[i] < d
    ensures Rooms(w, l, n, d) == 2 * Rooms(w, l, n, d - 1)
    decreases n
  {
    if n > 0 {
      RoomsHalve(w, l, n - 1, d);
      if w[n - 1] > 0 {
        assert Room(l[n - 1], d) == 2 * Room(l[n - 1], d - 1) by { RoomHalves(l[n - 1], d); }
      }
    }
  }

  lemma RoomHalves(l: nat, d: nat)
    requires l < d
    ensures Room(l, d) == 2 * Room(l, d - 1)
  {
    assert Pow2(d - l) == 2 * Pow2(d - 1 - l);
  }

  /** Then shorter codes are feasible as well. */
  lemma Tightened(w: seq<nat>, l: seq<nat>, d: nat)
    requires Feasible(w, l, d) && d > 0 && forall i | 0 <= i < |w| && w[i] > 0 :: l[i] < d
    ensures Feasible(w, l, d - 1)
  {
    hide Rooms;
    RoomsHalve(w, l, |w|, d);
    assert Pow2(d) == 2 * Pow2(d - 1);
  }

  /** A single code of the full length has a room of its own beside it. */
  lemma Shortened(w: seq<nat>, l: seq<nat>, d: nat, c: nat)
    requires Feasible(w, l, d) && d > 0 && c < |w| && w[c] > 0 && l[c] == d
    requires forall i | 0 <= i < |w| && w[i] > 0 && i != c :: l[i] < d
    ensures Feasible(w, l[c := d - 1], d - 1) && Cost(w, l[c := d - 1], |w|) <= Cost(w, l, |w|)
  {
    hide Rooms, Cost, Pow2, Room;
    var l' := l[c := d - 1];
    RoomsAfter(w, l, |w|, c, d - 1, d);
    CostAfter(w, l, |w|, c, d - 1);
    assert w[c] * d - w[c] * (d - 1) == w[c];
    RoomsHalve(w, l', |w|, d);
    assert Room(d, d) == 1 && Room(d - 1, d) == 2 && Pow2(d) == 2 * Pow2(d - 1) by { SmallRooms(d); }
  }

  lemma SmallRooms(d: nat)
    requires d > 0
    ensures Room(d, d) == 1 && Room(d - 1, d) == 2 && Pow2(d) == 2 * Pow2(d - 1)
  {
    assert Pow2(1) == 2 * Pow2(0);
  }

  lemma {:induction false} RoomsOfTwo(w: seq<nat>, l: seq<nat>, n: nat, i: nat, j: nat)
    requires n <= |w| == |l| && i < j < n && w[i] > 0 && w[j] > 0 && l[i] == l[j] == 0
    ensures Rooms(w, l, n, 0) >= 2
    decreases n
  {
    if j < n - 1 {
      RoomsOfTwo(w, l, n - 1, i, j);
    } else {
      RoomsOfOne(w, l, n - 1, i);
      assert Room(0, 0) == 1;
    }
  }

  lemma {:induction false} RoomsOfOne(w: seq<nat>, l: seq<nat>, n: nat, i: nat)
    requires n <= |w| == |l| && i < n && w[i] > 0 && l[i] == 0
    ensures Rooms(w, l, n, 0) >= 1
    decreases n
  {
    if i < n - 1 {
      RoomsOfOne(w, l, n - 1, i);
    } else {
      assert Room(0, 0) == 1;
    }
  }

  // ---------------------------------------------------------------- the two rarest symbols

  /** No symbol that occurs is rarer than `c1`, and none but that one than `c2`. */
  predicate Rarest(w: seq<nat>, c1: nat, c2: nat)
  {
    && c1 < |w| && c2 < |w| && c1 != c2 && w[c1] > 0 && w[c2] > 0 && w[c1] <= w[c2]
    && forall i | 0 <= i < |w| && w[i] > 0 && i != c1 :: w[c2] <= w[i]
  }

  /** Some symbol other than `c` with a code of `d` bits. */
  predicate Another(w: seq<nat>, l: seq<nat>, d: nat, c: nat, a: nat)
    requires |w| == |l|
  {
    a < |w| && w[a] > 0 && a != c && l[a] == d
  }

  /** They may as well have the longest codes, of the same length. */
  lemma {:induction false} Together(w: seq<nat>, l: seq<nat>, d: nat, c1: nat, c2: nat) returns (l': seq<nat>, m: nat)
    requires Feasible(w, l, d) && Rarest(w, c1, c2)
    ensures Feasible(w, l', m) && Cost(w, l', |w|) <= Cost(w, l, |w|) && l'[c1] == l'[c2] == m >= 1
    decreases d
  {
    hide Rooms, Cost, Pow2;
    if d == 0 {
      RoomsOfTwo(w, l, |w|, if c1 < c2 then c1 else c2, if c1 < c2 then c2 else c1);
      assert Pow2(0) == 1 by { PowerZero(); }
    }
    if a: nat :| a < |w| && w[a] > 0 && l[a] == d {
      Exchanged(w, l, d, c1, a);
      var l1 := l[c1 := l[a]][a := l[c1]];
      if b: nat :| Another(w, l1, d, c1, b) {
        Exchanged(w, l1, d, c2, b);
        l', m := l1[c2 := l1[b]][b := l1[c2]], d;
      } else {
        forall i | 0 <= i < |w| && w[i] > 0 && i != c1
          ensures l1[i] < d
        {
          assert !Another(w, l1, d, c1, i);
        }
        Shortened(w, l1, d, c1);
        l', m := Together(w, l1[c1 := d - 1], d - 1, c1, c2);
      }
    } else {
      Tightened(w, l, d);
      l', m := Together(w, l, d - 1, c1, c2);
    }
  }

  /** The counts after the two have been merged. */
  function MergedCounts(w: seq<nat>, c1: nat, c2: nat): (r: seq<nat>)
    requires c1 < |w| && c2 < |w|
    ensures |r| == |w|
  {
    w[c1 := w[c1] + w[c2]][c2 := 0]
  }

  lemma {:induction false} CostMerged(w: seq<nat>, l: seq<nat>, n: nat, c1: nat, c2: nat, m: nat)
    requires n <= |w| == |l| && c1 < |w| && c2 < |w| && c1 != c2 && m >= 1 && l[c1] == l[c2] == m
    ensures Cost(MergedCounts(w, c1, c2), l[c1 := m - 1], n) + (if c1 < n then w[c1] * m else 0)
            + (if c2 < n then w[c2] * m else 0)
        == Cost(w, l, n) + (if c1 < n then (w[c1] + w[c2]) * (m - 1) else 0)
    decreases n
  {
    if n > 0 {
      CostMerged(w, l, n - 1, c1, c2, m);
    }
  }

  lemma {:induction false} RoomsMerged(w: seq<nat>, l: seq<nat>, n: nat, c1: nat, c2: nat, m: nat)
    requires n <= |w| == |l| && c1 < |w| && c2 < |w| && c1 != c2 && m >= 1 && l[c1] == l[c2] == m
    requires w[c1] > 0 && w[c2] > 0
    ensures Rooms(MergedCounts(w, c1, c2), l[c1 := m - 1], n, m)
        == Rooms(w, l, n, m) + (if c1 < n then 1 else 0) - (if c2 < n then 1 else 0)
    decreases n
  {
    hide Room, Pow2;
    if n > 0 {
      RoomsMerged(w, l, n - 1, c1, c2, m);
      SmallRooms(m);
    }
  }

  /** Lengths for the merged symbol and the others, which save one bit for each occurrence of the two. */
  lemma MergedBetter(w: seq<nat>, l: seq<nat>, d: nat, c1: nat, c2: nat) returns (l': seq<nat>, d': nat)
    requires Feasible(w, l, d) && Rarest(w, c1, c2)
    ensures Feasible(MergedCounts(w, c1, c2), l', d')
    ensures Cost(MergedCounts(w, c1, c2), l', |w|) + w[c1] + w[c2] <= Cost(w, l, |w|)
  {
    hide Rooms, Cost, Pow2;
    var l1, m := Together(w, l, d, c1, c2);
    l', d' := l1[c1 := m - 1], m;
    CostMerged(w, l1, |w|, c1, c2, m);
    RoomsMerged(w, l1, |w|, c1, c2, m);
    assert (w[c1] + w[c2]) * (m - 1) == w[c1] * m + w[c2] * m - w[c1] - w[c2];
  }

  // ---------------------------------------------------------------- the procedure

  /** The occurrences of the symbols of tree `c`. */
  function Weight(owner: seq<int>, freq: seq<nat>, c: int, n: nat): nat
    requires n <= |owner| == |freq|
  {
    if n == 0 then 0 else Weight(owner, freq, c, n - 1) + if owner[n - 1] == c then freq[n - 1] else 0
  }

  predicate Weighed(st: State, freq0: seq<nat>)
    requires st.Shaped() && |freq0| == SYMBOLS
  {
    forall c: nat | c < SYMBOLS && st.freq[c] > 0 :: Weight(st.owner, freq0, c, SYMBOLS) == st.freq[c]
  }

  /** Lengths for the trees as they are, which with the lengths inside the trees make no more than `limit`. */
  ghost predicate Within(w: seq<nat>, spent: nat, limit: nat)
  {
    exists l: seq<nat>, d: nat :: Feasible(w, l, d) && spent + Cost(w, l, |w|) <= limit
  }

  /** Whatever lengths the symbols might have, the trees built so far can be part of something as good. */
  ghost predicate OnCourse(st: State, freq0: seq<nat>)
    requires st.Shaped() && |freq0| == SYMBOLS
  {
    forall l: seq<nat>, d: nat | Feasible(freq0, l, d) ::
      Within(st.freq, Cost(freq0, st.codesize, SYMBOLS), Cost(freq0, l, SYMBOLS))
  }

  /** No feasible lengths give a smaller total. */
  ghost predicate Minimal(codesize: seq<nat>, freq0: seq<nat>)
  {
    |codesize| == |freq0| == SYMBOLS
    && forall l: seq<nat>, d: nat | Feasible(freq0, l, d) :: Cost(freq0, codesize, SYMBOLS) <= Cost(freq0, l, SYMBOLS)
  }

  lemma {:induction false} NoLengths(freq: seq<nat>, l: seq<nat>, n: nat)
    requires n <= |freq| == |l| && forall i | 0 <= i < |l| :: l[i] == 0
    ensures Cost(freq, l, n) == 0
    decreases n
  {
    if n > 0 {
      NoLengths(freq, l, n - 1);
    }
  }

  lemma {:induction false} OwnWeight(owner: seq<int>, freq: seq<nat>, c: nat, n: nat)
    requires n <= |owner| == |freq| && c < |owner| && forall s | 0 <= s < |owner| :: owner[s] == c <==> s == c
    ensures Weight(owner, freq, c, n) == if c < n then freq[c] else 0
    decreases n
  {
    if n > 0 {
      OwnWeight(owner, freq, c, n - 1);
    }
  }

  lemma StartOnCourse(freq: seq<nat>)
    requires |freq| == SYMBOLS
    ensures Weighed(Start(freq), freq) && OnCourse(Start(freq), freq)
  {
    hide Rooms, Cost, Weight;
    var st := Start(freq);
    NoLengths(freq, st.codesize, SYMBOLS);
    forall c: nat | c < SYMBOLS && st.freq[c] > 0
      ensures Weight(st.owner, freq, c, SYMBOLS) == st.freq[c]
    {
      OwnWeight(st.owner, freq, c, SYMBOLS);
    }
    forall l: seq<nat>, d: nat | Feasible(freq, l, d)
      ensures Within(st.freq, Cost(freq, st.codesize, SYMBOLS), Cost(freq, l, SYMBOLS))
    {
      assert |l| == SYMBOLS by { SameLength(freq, l, d); }
    }
  }

  lemma SameLength(w: seq<nat>, l: seq<nat>, d: nat)
    requires Feasible(w, l, d)
    ensures |w| == |l|
  {
  }

  /** All codes of two trees get one bit longer. */
  lemma {:induction false} CostLonger(freq: seq<nat>, codesize: seq<nat>, owner: seq<int>, c1: nat, c2: nat, n: nat)
    requires |freq| == |codesize| == |owner| == SYMBOLS && n <= SYMBOLS && c1 != c2
    ensures Cost(freq, Longer(codesize, owner, c1, c2), n)
        == Cost(freq, codesize, n) + Weight(owner, freq, c1, n) + Weight(owner, freq, c2, n)
    decreases n
  {
    if n > 0 {
      CostLonger(freq, codesize, owner, c1, c2, n - 1);
      var s := n - 1;
      assert freq[s] * (codesize[s] + 1) == freq[s] * codesize[s] + freq[s];
    }
  }

  lemma {:induction false} WeightJoin(owner: seq<int>, freq: seq<nat>, c1: nat, c2: nat, c: nat, n: nat)
    requires |freq| == |owner| == SYMBOLS && n <= SYMBOLS && c1 != c2 && c != c2
    ensures Weight(Owners(owner, c1, c2), freq, c, n)
        == Weight(owner, freq, c, n) + if c == c1 then Weight(owner, freq, c2, n) else 0
    decreases n
  {
    if n > 0 {
      WeightJoin(owner, freq, c1, c2, c, n - 1);
    }
  }

  /** Merging the two rarest trees keeps on course. */
  lemma JoinOnCourse(st: State, freq0: seq<nat>, c1: nat, c2: nat)
    requires Forest(st, freq0) && Least(st, c1, c2) && Weighed(st, freq0) && OnCourse(st, freq0)
    requires st.roots[c1].syms != [] && Last(st.roots[c1].syms) < SYMBOLS
    ensures Weighed(Join(st, c1, c2), freq0) && OnCourse(Join(st, c1, c2), freq0)
  {
    hide Cost, Weight, Longer, Owners, Rooms, RootOk, Sum;
    LeastRarest(st, freq0, c1, c2);
    var st' := Join(st, c1, c2);
    assert st'.freq == MergedCounts(st.freq, c1, c2);
    forall c: nat | c < SYMBOLS && st'.freq[c] > 0
      ensures Weight(st'.owner, freq0, c, SYMBOLS) == st'.freq[c]
    {
      WeightJoin(st.owner, freq0, c1, c2, c, SYMBOLS);
    }
    CostLonger(freq0, st.codesize, st.owner, c1, c2, SYMBOLS);
    var spent, spent' := Cost(freq0, st.codesize, SYMBOLS), Cost(freq0, st'.codesize, SYMBOLS);
    forall l: seq<nat>, d: nat | Feasible(freq0, l, d)
      ensures Within(st'.freq, spent', Cost(freq0, l, SYMBOLS))
    {
      StillWithin(st.freq, c1, c2, spent, Cost(freq0, l, SYMBOLS));
    }
  }

  lemma StillWithin(w: seq<nat>, c1: nat, c2: nat, spent: nat, limit: nat)
    requires Within(w, spent, limit) && Rarest(w, c1, c2)
    ensures Within(MergedCounts(w, c1, c2), spent + w[c1] + w[c2], limit)
  {
    hide Cost, Rooms;
    var l: seq<nat>, d: nat :| Feasible(w, l, d) && spent + Cost(w, l, |w|) <= limit;
    var l', d' := MergedBetter(w, l, d, c1, c2);
    SameLength(MergedCounts(w, c1, c2), l', d');
  }

  lemma LeastRarest(st: State, freq0: seq<nat>, c1: nat, c2: nat)
    requires Forest(st, freq0) && Least(st, c1, c2)
    ensures Rarest(st.freq, c1, c2)
  {
    hide RootOk, Sum;
  }

  /** When a single tree is left there is nothing more to spend. */
  lemma DoneMinimal(st: State, freq0: seq<nat>)
    requires st.Shaped() && |freq0| == SYMBOLS && OnCourse(st, freq0)
    ensures Minimal(st.codesize, freq0)
  {
    hide Cost, Rooms;
    forall l: seq<nat>, d: nat | Feasible(freq0, l, d)
      ensures Cost(freq0, st.codesize, SYMBOLS) <= Cost(freq0, l, SYMBOLS)
    {
      assert Within(st.freq, Cost(freq0, st.codesize, SYMBOLS), Cost(freq0, l, SYMBOLS));
    }
  }
}
