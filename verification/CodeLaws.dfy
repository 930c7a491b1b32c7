/** The canonical code of a Huffman table as T.81 generates it (Annex C, figures C.1 to C.3). */
module CodeLaws {
  import opened Bits
  import opened Huffman

  /** Without codes of the lengths in between, the first code of a longer length is the next one of a shorter length
      with zeroes appended. */
  lemma {:induction false} FirstJump(t: HuffTable, s: nat, l: nat)
    requires t.Shaped() && 1 <= s < l <= 16 && forall k | s < k < l :: t.bits[k] == 0
    ensures t.First(l) == (t.First(s) + t.bits[s]) * Pow2(l - s) && t.Count(l - 1) == t.Count(s)
    decreases l
  {
    if l == s + 1 {
      assert Pow2(1) == 2 * Pow2(0);
    } else {
      FirstJump(t, s, l - 1);
      MulDouble(t.First(s) + t.bits[s], Pow2(l - 1 - s));
    }
  }

  lemma Between(t: HuffTable, p: nat)
    requires t.Shaped() && p + 1 < t.Count(16)
    ensures t.Size(p) <= t.Size(p + 1) && forall k | t.Size(p) < k < t.Size(p + 1) :: t.bits[k] == 0
    ensures t.Size(p) < t.Size(p + 1) ==> p + 1 == t.Count(t.Size(p))
  {
    hide HuffTable.SizeFrom, HuffTable.First;
    var s, l := t.Size(p), t.Size(p + 1);
    if l < s {
      t.CountMono(l, s - 1);
    }
    forall k | s < k < l
      ensures t.bits[k] == 0
    {
      t.CountMono(s, k - 1);
      t.CountMono(k, l - 1);
    }
    if s < l {
      t.CountMono(s, l - 1);
    }
  }

  /** The first code word is all zeroes; each further one is the one before it plus one, with zeroes appended if it is
      longer. */
  lemma CanonicalLaw(t: HuffTable, p: nat)
    requires t.Shaped() && p + 1 < t.Count(16)
    ensures t.Code(0) == 0
    ensures t.Size(p) <= t.Size(p + 1) && t.Code(p + 1) == (t.Code(p) + 1) * Pow2(t.Size(p + 1) - t.Size(p))
  {
    hide HuffTable.SizeFrom, HuffTable.First, HuffTable.Count, Pow2;
    FirstCode(t);
    Between(t, p);
    var s, l := t.Size(p), t.Size(p + 1);
    if s < l {
      FirstJump(t, s, l);
      CountStep(t, s);
    } else {
      assert Pow2(0) == 1 by { NoPower(); }
    }
  }

  lemma NoPower()
    ensures Pow2(0) == 1
  {
  }

  lemma CountStep(t: HuffTable, s: nat)
    requires t.Shaped() && 1 <= s <= 16
    ensures t.Count(s) == t.Count(s - 1) + t.bits[s]
  {
  }

  lemma FirstCode(t: HuffTable)
    requires t.Shaped() && t.Count(16) > 0
    ensures t.Code(0) == 0
  {
    hide HuffTable.SizeFrom;
    var s := t.Size(0);
    NoneShorter(t, s);
  }

  lemma {:induction false} NoneShorter(t: HuffTable, s: nat)
    requires t.Shaped() && 1 <= s <= 16 && t.Count(s - 1) == 0
    ensures t.First(s) == 0
    decreases s
  {
    if s > 1 {
      CountStep(t, s - 1);
      NoneShorter(t, s - 1);
    }
  }

  /** What is sent for a symbol is its code word, the most significant bit first. */
  lemma SentLaw(t: HuffTable, s: nat, j: nat)
    requires t.Shaped() && t.ValidCounts() && t.HasCode(s) && j < t.Size(t.Index(s))
    ensures t.huffval[t.Index(s)] == s && |t.EncodeSym(s)| == t.Size(t.Index(s))
    ensures t.EncodeSym(s)[j] <==> t.Code(t.Index(s)) / Pow2(t.Size(t.Index(s)) - 1 - j) % 2 == 1
  {
    hide HuffTable.SizeFrom, HuffTable.First, HuffTable.Count, Pow2, HuffTable.Find, HuffTable.HasCode;
    BitAt(t.Code(t.Index(s)), t.Size(t.Index(s)), j);
  }

  /** Bit `j` of an `n`-bit string for a number. */
  lemma {:induction false} BitAt(v: int, n: nat, j: nat)
    requires j < n
    ensures ToBits(v, n)[j] <==> v / Pow2(n - 1 - j) % 2 == 1
    decreases n
  {
    if j < n - 1 {
      BitAt(v / 2, n - 1, j);
      DivTwice(v, Pow2(n - 2 - j));
    }
  }

  lemma DivTwice(v: int, p: int)
    requires p > 0
    ensures v / 2 / p == v / (2 * p)
  {
    var q := v / 2 / p;
    var r := v / 2 - q * p;
    assert v / 2 == q * p + r && 0 <= r < p;
    assert v == q * (2 * p) + (2 * r + v % 2);
    OneQuotient(v, 2 * p, q, 2 * r + v % 2);
  }

  lemma OneQuotient(v: int, d: int, q: int, r: int)
    requires d > 0 && v == q * d + r && 0 <= r < d
    ensures v / d == q
  {
    var e := v / d - q;
    assert e * d == v / d * d - q * d;
    MulAtLeast(e, d);
  }

  // ---------------------------------------------------------------- valid counts

  /** Codes of up to `l` bits, weighted: one of `k` bits counts 2^(d - k). */
  function Weighted(t: HuffTable, l: nat, d: nat): int
    requires t.Shaped() && l <= d && l <= 16
    decreases l
  {
    if l == 0 then 0 else Weighted(t, l - 1, d) + t.bits[l] * Pow2(d - l)
  }

  lemma {:induction false} WeightedTwice(t: HuffTable, l: nat, d: nat)
    requires t.Shaped() && l <= d && l <= 16
    ensures Weighted(t, l, d + 1) == 2 * Weighted(t, l, d)
    decreases l
  {
    if l > 0 {
      WeightedTwice(t, l - 1, d);
      MulDouble(t.bits[l], Pow2(d - l));
      assert Pow2(d + 1 - l) == 2 * Pow2(d - l);
    }
  }

  lemma {:induction false} WeightedIs(t: HuffTable, l: nat)
    requires t.Shaped() && 1 <= l <= 16
    ensures Weighted(t, l, l) == t.First(l) + t.bits[l]
    decreases l
  {
    assert t.bits[l] * Pow2(l - l) == t.bits[l] by { NoPower(); }
    if l > 1 {
      WeightedIs(t, l - 1);
      WeightedTwice(t, l - 1, l - 1);
    }
  }

  lemma {:induction false} WeightedFits(t: HuffTable, l: nat, d: nat)
    requires t.Shaped() && 1 <= l <= d <= 16 && Weighted(t, d, d) < Pow2(d)
    ensures Weighted(t, l, l) < Pow2(l)
    decreases d
  {
    if l < d {
      WeightedTwice(t, d - 1, d - 1);
      assert t.bits[d] * Pow2(d - d) == t.bits[d] by { NoPower(); }
      assert Pow2(d) == 2 * Pow2(d - 1);
      WeightedFits(t, l, d - 1);
    }
  }

  /** The counts are those of a code without a word of all ones just if there are at most 256 codes and they satisfy
      Kraft's inequality strictly. */
  lemma ValidLaw(t: HuffTable)
    requires t.Shaped()
    ensures t.ValidCounts() <==> t.Count(16) <= 256 && Weighted(t, 16, 16) < 65536
  {
    hide HuffTable.Count, HuffTable.First, Weighted, Pow2;
    Pow2Values();
    WeightedIs(t, 16);
    if Weighted(t, 16, 16) < 65536 {
      forall l | 1 <= l <= 16
        ensures t.First(l) + t.bits[l] < Pow2(l)
      {
        WeightedIs(t, l);
        WeightedFits(t, l, 16);
      }
    }
  }
}
