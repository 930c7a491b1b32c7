/** Counts of code lengths: how much of the code space they use up (the Kraft sum), and the
    adjustment of section K.2 of T.81 that brings all lengths down to 16. */
module CodeLengths {
  import opened Bits

  const MAX_CLEN: nat := 32

  type Lengths = b: seq<nat> | |b| == 33 witness seq(33, _ => 0)

  /** The part of the code space of `l`-bit strings that codes of up to `l` bits use up. */
  function Used(bits: Lengths, l: nat): (u: nat)
    requires l <= MAX_CLEN
  {
    if l == 0 then bits[0] else 2 * Used(bits, l - 1) + bits[l]
  }

  function Total(bits: Lengths, l: nat): (n: nat)
    requires l <= MAX_CLEN
  {
    if l == 0 then bits[0] else Total(bits, l - 1) + bits[l]
  }

  /** No code is longer than `i`, and the codes fill the code space exactly. */
  predicate Complete(bits: Lengths, i: nat)
  {
    i <= MAX_CLEN && bits[0] == 0 && Used(bits, i) == Pow2(i) && forall k | i < k <= MAX_CLEN :: bits[k] == 0
  }

  lemma {:induction false} UsedUpdate(bits: Lengths, k: nat, n: nat, l: nat)
    requires k <= l <= MAX_CLEN
    ensures Used(bits[k := n], l) == Used(bits, l) + (n - bits[k]) * Pow2(l - k)
    decreases l
  {
    if l == k {
      UsedSame(bits, bits[k := n], k);
    } else {
      UsedUpdate(bits, k, n, l - 1);
      MulDouble(n - bits[k], Pow2(l - 1 - k));
    }
  }

  lemma {:induction false} TotalUpdate(bits: Lengths, k: nat, n: nat, l: nat)
    requires k <= l <= MAX_CLEN
    ensures Total(bits[k := n], l) == Total(bits, l) + n - bits[k]
    decreases l
  {
    if l == k {
      UsedSame(bits, bits[k := n], k);
    } else {
      TotalUpdate(bits, k, n, l - 1);
    }
  }

  /** Only the counts below `l` matter for what is used below `l`. */
  lemma {:induction false} UsedSame(a: Lengths, b: Lengths, l: nat)
    requires l <= MAX_CLEN && forall k | 0 <= k < l :: a[k] == b[k]
    ensures l > 0 ==> Used(a, l - 1) == Used(b, l - 1) && Total(a, l - 1) == Total(b, l - 1)
    decreases l
  {
    if l > 1 {
      UsedSame(a, b, l - 1);
    }
  }

  lemma {:induction false} UsedNone(bits: Lengths, l: nat)
    requires l <= MAX_CLEN && forall k | 0 <= k <= l :: bits[k] == 0
    ensures Used(bits, l) == 0
    decreases l
  {
    if l > 0 {
      UsedNone(bits, l - 1);
    }
  }

  lemma {:induction false} OneOfTotal(bits: Lengths, k: nat, l: nat)
    requires k <= l <= MAX_CLEN
    ensures bits[k] <= Total(bits, l)
    ensures k < l ==> bits[k] + bits[l] <= Total(bits, l)
    decreases l
  {
    if k < l {
      OneOfTotal(bits, k, l - 1);
    }
  }

  lemma {:induction false} TotalGrows(bits: Lengths, k: nat, l: nat)
    requires k <= l <= MAX_CLEN
    ensures Total(bits, k) <= Total(bits, l)
    decreases l
  {
    if k < l {
      TotalGrows(bits, k, l - 1);
    }
  }

  /** Codes of the greatest length come in pairs, and some code is at least two bits shorter. */
  lemma LongCodes(bits: Lengths, i: nat)
    requires Complete(bits, i) && i > 16 && bits[i] > 0 && Total(bits, MAX_CLEN) <= 257
    ensures bits[i] >= 2
    ensures exists j | 1 <= j <= i - 2 :: bits[j] > 0
  {
    hide Pow2, Total;
    assert Pow2(i) == 2 * Pow2(i - 1) by { PowerEven(i); }
    if forall j | 1 <= j <= i - 2 :: bits[j] == 0 {
      UsedNone(bits, i - 2);
      assert Used(bits, i) == 2 * bits[i - 1] + bits[i];
      OneOfTotal(bits, i - 1, i);
      TotalGrows(bits, i, MAX_CLEN);
      Pow2Mono(16, i);
      Pow2Values();
    }
  }

  lemma PowerEven(i: nat)
    requires i > 0
    ensures Pow2(i) == 2 * Pow2(i - 1)
  {
  }

  /** One step of the adjustment: a pair of `i`-bit codes goes; one of them gets their prefix, the
      other shares a code of `j` bits, which becomes a prefix of two codes. */
  function Adjusted(bits: Lengths, i: nat, j: nat): (b: Lengths)
    requires 1 <= j <= i - 2 && i <= MAX_CLEN && bits[i] >= 2 && bits[j] >= 1
  {
    Plus(Plus(Plus(Plus(bits, i, -2), i - 1, 1), j + 1, 2), j, -1)
  }

  lemma AdjustKeeps(bits: Lengths, i: nat, j: nat)
    requires Complete(bits, i) && 1 <= j <= i - 2 && bits[i] >= 2 && bits[j] >= 1
    ensures Complete(Adjusted(bits, i, j), i) && Total(Adjusted(bits, i, j), MAX_CLEN) == Total(bits, MAX_CLEN)
    ensures Adjusted(bits, i, j)[i] == bits[i] - 2
  {
    hide Pow2, Used, Total;
    AdjustUsed(bits, i, j);
    AdjustTotal(bits, i, j);
  }

  lemma AdjustTotal(bits: Lengths, i: nat, j: nat)
    requires 1 <= j <= i - 2 && i <= MAX_CLEN && bits[i] >= 2 && bits[j] >= 1
    ensures Total(Adjusted(bits, i, j), MAX_CLEN) == Total(bits, MAX_CLEN)
  {
    hide Total;
    var b1: Lengths := Plus(bits, i, -2);
    var b2: Lengths := Plus(b1, i - 1, 1);
    var b3: Lengths := Plus(b2, j + 1, 2);
    PlusTotal(bits, i, -2);
    PlusTotal(b1, i - 1, 1);
    PlusTotal(b2, j + 1, 2);
    PlusTotal(b3, j, -1);
  }

  function Plus(bits: Lengths, k: nat, d: int): (b: Lengths)
    requires k <= MAX_CLEN && bits[k] + d >= 0
  {
    bits[k := bits[k] + d]
  }

  lemma PlusTotal(bits: Lengths, k: nat, d: int)
    requires k <= MAX_CLEN && bits[k] + d >= 0
    ensures Total(Plus(bits, k, d), MAX_CLEN) == Total(bits, MAX_CLEN) + d
  {
    TotalUpdate(bits, k, bits[k] + d, MAX_CLEN);
  }

  lemma AdjustUsed(bits: Lengths, i: nat, j: nat)
    requires 1 <= j <= i - 2 && i <= MAX_CLEN && bits[i] >= 2 && bits[j] >= 1
    ensures Used(Adjusted(bits, i, j), i) == Used(bits, i)
  {
    hide Used, Total;
    var b1 := bits[i := bits[i] - 2];
    var b2 := b1[i - 1 := b1[i - 1] + 1];
    var b3 := b2[j + 1 := b2[j + 1] + 2];
    UsedUpdate(bits, i, bits[i] - 2, i);
    UsedUpdate(b1, i - 1, b1[i - 1] + 1, i);
    UsedUpdate(b2, j + 1, b2[j + 1] + 2, i);
    UsedUpdate(b3, j, b3[j] - 1, i);
    assert Pow2(i - i) == 1 && Pow2(i - (i - 1)) == 2 * Pow2(0);
    assert Pow2(i - j) == 2 * Pow2(i - (j + 1));
    var p := Pow2(i - (j + 1));
    assert -1 * (2 * p) == -2 * p && 2 * p == p * 2;
  }

  /** The longest code length in use, of those up to `j`; 0 if there is none. */
  function LongestUpTo(bits: Lengths, j: nat): (r: nat)
    requires j <= MAX_CLEN
    ensures r <= j && (r > 0 ==> bits[r] > 0) && forall k | r < k <= j :: bits[k] == 0
  {
    if j == 0 || bits[j] > 0 then j else LongestUpTo(bits, j - 1)
  }

  /** What becomes of the counts: as long as there are codes of `i` bits, and then of fewer down to 17, a pair of them
      is taken away with the help of the longest code that is at least two bits shorter. */
  function Limited(bits: Lengths, i: nat): (b: Lengths)
    requires i <= MAX_CLEN
    decreases i, bits[i]
  {
    if i <= 16 then bits
    else if bits[i] == 0 then Limited(bits, i - 1)
    else
      var j := LongestUpTo(bits, i - 2);
      if bits[i] == 1 || j == 0 then bits else Limited(Adjusted(bits, i, j), i)
  }

  lemma OneAdjusted(bits: Lengths, i: nat, j: nat)
    requires 16 < i <= MAX_CLEN && bits[i] >= 2 && 1 <= j <= i - 2 && bits[j] > 0
    requires forall k | j < k <= i - 2 :: bits[k] == 0
    ensures Limited(bits, i) == Limited(Adjusted(bits, i, j), i)
  {
  }

  /** What one step does: the two longest codes become one that is a bit shorter, and the longest code that is at least
      two bits shorter becomes two that are a bit longer. */
  lemma StepLaw(bits: Lengths, i: nat, j: nat, l: nat)
    requires 16 < i <= 32 && bits[i] >= 2 && 1 <= j <= i - 2 && bits[j] > 0 && l <= 32
    requires forall k | j < k <= i - 2 :: bits[k] == 0
    ensures Limited(bits, i) == Limited(Adjusted(bits, i, j), i)
    ensures Adjusted(bits, i, j)[l] == bits[l] - (if l == i then 2 else 0) + (if l == i - 1 then 1 else 0)
        + (if l == j + 1 then 2 else 0) - (if l == j then 1 else 0)
  {
    OneAdjusted(bits, i, j);
  }

  /** The adjustment: afterwards no code is longer than 16 bits, the code space is still filled, and
      the number of codes is the same. */
  method LimitLengths(bits: array<nat>)
    requires bits.Length == 33 && Complete(bits[..], MAX_CLEN) && Total(bits[..], MAX_CLEN) <= 257
    modifies bits
    ensures Complete(bits[..], 16) && Total(bits[..], MAX_CLEN) == Total(old(bits[..]), MAX_CLEN)
    ensures bits[..] == Limited(old(bits[..]), MAX_CLEN)
    ensures (forall k | 16 < k <= MAX_CLEN :: old(bits[k]) == 0) ==> bits[..] == old(bits[..])
  {
    hide Complete, Used, Total, Limited;
    ghost var n, b0 := Total(bits[..], MAX_CLEN), bits[..];
    var i := MAX_CLEN;
    while i > 16
      invariant 16 <= i <= MAX_CLEN && Complete(bits[..], i) && Total(bits[..], MAX_CLEN) == n
      invariant Limited(bits[..], i) == Limited(b0, MAX_CLEN)
    {
      while bits[i] > 0
        invariant Complete(bits[..], i) && Total(bits[..], MAX_CLEN) == n
        invariant Limited(bits[..], i) == Limited(b0, MAX_CLEN)
      {
        ghost var b := bits[..];
        LongCodes(b, i);
        var j := i - 2;
        while bits[j] == 0
          invariant 1 <= j <= i - 2 && exists k | 1 <= k <= j :: b[k] > 0
          invariant forall k | j < k <= i - 2 :: b[k] == 0
          decreases j
        {
          j := j - 1;
        }
        AdjustKeeps(b, i, j);
        OneAdjusted(b, i, j);
        bits[i] := bits[i] - 2;
        bits[i - 1] := bits[i - 1] + 1;
        bits[j + 1] := bits[j + 1] + 2;
        bits[j] := bits[j] - 1;
        assert bits[..] == Adjusted(b, i, j);
      }
      ShorterComplete(bits[..], i);
      NoneLeft(bits[..], i);
      i := i - 1;
    }
    NothingToLimit(bits[..], 16);
    if forall k | 16 < k <= MAX_CLEN :: b0[k] == 0 {
      NothingToLimit(b0, MAX_CLEN);
    }
  }

  lemma {:induction false} NothingToLimit(bits: Lengths, i: nat)
    requires 16 <= i <= MAX_CLEN && forall k | 16 < k <= i :: bits[k] == 0
    ensures Limited(bits, i) == bits
    decreases i
  {
    if i > 16 {
      NothingToLimit(bits, i - 1);
    }
  }

  lemma NoneLeft(bits: Lengths, i: nat)
    requires 16 < i <= MAX_CLEN && bits[i] == 0
    ensures Limited(bits, i) == Limited(bits, i - 1)
  {
  }

  lemma ShorterComplete(bits: Lengths, i: nat)
    requires Complete(bits, i) && i > 0 && bits[i] == 0
    ensures Complete(bits, i - 1)
  {
  }
}
