/** What a sequential scan sends for a block (T.81, figures F.1 to F.3), without the recursion of its specification. */
module SeqLaws {
  import opened Bits
  import opened Coef
  import opened Huffman
  import opened AcScan
  import opened AcLaws
  import opened DcScan
  import opened SeqScan
  import opened SeqGather

  /** The DC difference: its number of bits as a symbol, then the bits, negative ones as the complement of the
      magnitude. */
  lemma DiffLaw(t: HuffTable, diff: int, n: nat)
    requires t.Shaped() && t.ValidCounts() && t.HasCode(n)
    requires if diff == 0 then n == 0 else n > 0 && Pow2(n - 1) <= Abs(diff) < Pow2(n)
    ensures BitLen(Abs(diff)) == n && DiffBits(t, diff) == t.EncodeSym(n) + MagBits(diff, n)
    ensures |MagBits(diff, n)| == n
    ensures diff != 0 ==> Value(MagBits(diff, n)) == if diff > 0 then diff else Pow2(n) - 1 + diff
  {
    hide HuffTable.EncodeSym, HuffTable.Shaped, HuffTable.ValidCounts, HuffTable.HasCode;
    if diff != 0 {
      CategoryLaw(diff, n);
    }
  }

  /** The next nonzero coefficient after `16 * q + r` zeroes: that many run lengths of 16, then the run of the remaining
      zeroes with the number of bits, then the bits. */
  lemma AcLaw(z: Block, k: nat, m: nat, zeros: nat, q: nat, r: nat, n: nat)
    requires 1 <= k <= m <= 63 && (forall i | k <= i < m :: z[i] == 0)
    requires n > 0 && Pow2(n - 1) <= Abs(z[m]) < Pow2(n) && zeros + (m - k) == 16 * q + r && r < 16
    ensures AcRest(z, k, zeros) == Sixteens(q) + [Sym(16 * r + n), Raw(MagBits(z[m], n))] + AcRest(z, m + 1, 0)
  {
    hide InitialHead, MagBits, BitLen, EndOfBlock, HeadEnd;
    var e := HeadEnd(WHOLE, z);
    EndAfter(z, m);
    assert Pow2(0) == 1 && Abs(z[m]) * 1 == Abs(z[m]);
    FirstPassLaw(WHOLE, z, k, m, e, zeros, q, r, z[m], n);
    var a, b := Sixteens(q) + [Sym(16 * r + n), Raw(MagBits(z[m], n))], InitialHead(WHOLE, z, m + 1, e, 0);
    assert (a + b) + EndOfBlock(z) == a + (b + EndOfBlock(z));
  }

  lemma EndAfter(z: Block, m: nat)
    requires 1 <= m <= 63 && z[m] != 0
    ensures m < HeadEnd(WHOLE, z) <= 64
  {
    hide Mag;
    ZeroMag(z[m], 0);
    assert Sends(WHOLE, z[m]);
  }

  /** Only zeroes left: an end-of-block symbol, unless the block was complete. */
  lemma EndLaw(z: Block, k: nat, zeros: nat)
    requires 1 <= k <= 64 && (forall i | k <= i < 64 :: z[i] == 0) && (k == 1 || z[k - 1] != 0)
    ensures AcRest(z, k, zeros) == if k < 64 then [Sym(0)] else []
  {
    hide Mag;
    var e := HeadEnd(WHOLE, z);
    if k > 1 {
      EndAfter(z, k - 1);
    }
    if e > k {
      assert Sends(WHOLE, z[e - 1]);
      ZeroMag(z[e - 1], 0);
    }
    assert InitialHead(WHOLE, z, k, e, zeros) == [];
  }

  /** The prediction for a component is the DC value of its last block in the segment, and 0 at the start. */
  lemma {:induction false} PredictionLaw(items: seq<McuBlock>, n: nat, ci: nat, i: nat)
    requires BlocksOk(items, n) && ci < n && i <= |items|
    requires forall j | i <= j < |items| :: items[j].ci != ci
    requires i > 0 ==> items[i - 1].ci == ci
    ensures LastDc(items, NoDc(n))[ci] == if i > 0 then items[i - 1].z[0] else 0
    decreases |items|
  {
    if |items| > i {
      PredictionLaw(items[..|items| - 1], n, ci, i);
    }
  }

  /** Blocks the encoder takes: coefficients of up to 10 bits, and a DC difference of up to 11. */
  lemma BlockRangeLaw(z: Block, last: int)
    ensures BlockInRange(z, last)
        <==> -2048 < z[0] - last < 2048 && forall k | 1 <= k <= 63 :: -1024 < z[k] < 1024
  {
    hide BitLen, Mag;
    RangeLaw(WHOLE, z);
    ElevenBits(Abs(z[0] - last));
    assert Pow2(0) == 1;
  }

  lemma ElevenBits(n: nat)
    ensures BitLen(n) <= 11 <==> n < 2048
  {
    hide BitLen, Pow2;
    Pow2Values();
    assert Pow2(11) == 2 * Pow2(10) by { NextPower(10); }
    if n < 2048 {
      BitLenBound(n, 11);
    } else if BitLen(n) <= 11 {
      Pow2Mono(BitLen(n), 11);
    }
  }

  lemma NextPower(n: nat)
    ensures Pow2(n + 1) == 2 * Pow2(n)
  {
  }

  // ---------------------------------------------------------------- first scans of progressive DC

  /** The shifted value of the last of the items that belongs to component `ci`, or `start` if there is none. */
  function LastShifted(al: nat, items: seq<Item>, ci: nat, start: int): int
  {
    if items == [] then start
    else
      var n := |items| - 1;
      if items[n].ci == ci then Shr(items[n].dc, al) else LastShifted(al, items[..n], ci, start)
  }

  lemma {:induction false} LastFromSecond(al: nat, items: seq<Item>, last: seq<int>, ci: nat)
    requires items != [] && items[0].ci < |last| && ci < |last|
    ensures LastShifted(al, items, ci, last[ci])
        == LastShifted(al, items[1..], ci, last[items[0].ci := Shr(items[0].dc, al)][ci])
    decreases |items|
  {
    hide Shr;
    var n := |items| - 1;
    if n > 0 && items[n].ci != ci {
      LastFromSecond(al, items[..n], last, ci);
      assert items[..n][1..] == items[1..][..n - 1];
    }
  }

  /** Each value is rounded down and sent as the difference to the last one of its component. */
  lemma {:induction false} DcFirstLaw(ts: seq<HuffTable>, al: nat, items: seq<Item>, it: Item, last: seq<int>)
    requires ValidTables(ts, |last|) && ItemsOk(items + [it], |last|) && DiffsCoded(ts, al, items + [it], last)
    ensures ItemsOk(items, |last|) && it.ci < |last| && DiffsCoded(ts, al, items, last)
    ensures var diff := Shr(it.dc, al) - LastShifted(al, items, it.ci, last[it.ci]);
      && ts[it.ci].HasCode(BitLen(Abs(diff)))
      && FirstBits(ts, al, items + [it], last) == FirstBits(ts, al, items, last) + DiffBits(ts[it.ci], diff)
    decreases |items|
  {
    hide Shr, DiffBits, BitLen, HuffTable.HasCode, HuffTable.Shaped, HuffTable.ValidCounts, FirstBits, DiffsCoded,
      ItemsOk, LastShifted;
    ItemsParts(items, it, |last|);
    if items == [] {
      OneDiff(ts, al, it, last);
    } else {
      var ci, v := items[0].ci, Shr(items[0].dc, al);
      assert (items + [it])[1..] == items[1..] + [it];
      FirstUnfold(ts, al, items + [it], last);
      DcFirstLaw(ts, al, items[1..], it, last[ci := v]);
      FirstUnfold(ts, al, items, last);
      LastFromSecond(al, items, last, it.ci);
      Regroup(DiffBits(ts[ci], v - last[ci]), FirstBits(ts, al, items[1..], last[ci := v]),
        DiffBits(ts[it.ci], Shr(it.dc, al) - LastShifted(al, items, it.ci, last[it.ci])));
    }
  }

  lemma Regroup(a: BitSeq, b: BitSeq, c: BitSeq)
    ensures a + (b + c) == (a + b) + c
  {
  }

  /** The first item and the others. */
  lemma FirstUnfold(ts: seq<HuffTable>, al: nat, items: seq<Item>, last: seq<int>)
    requires ValidTables(ts, |last|) && ItemsOk(items, |last|) && items != []
    ensures items[0].ci < |last| && ItemsOk(items[1..], |last|)
    ensures var v, ci := Shr(items[0].dc, al), items[0].ci;
      && (DiffsCoded(ts, al, items, last)
          <==> ts[ci].HasCode(BitLen(Abs(v - last[ci]))) && DiffsCoded(ts, al, items[1..], last[ci := v]))
      && (DiffsCoded(ts, al, items, last) ==>
          FirstBits(ts, al, items, last)
          == DiffBits(ts[ci], v - last[ci]) + FirstBits(ts, al, items[1..], last[ci := v]))
  {
    hide Shr, DiffBits, BitLen, HuffTable.HasCode, HuffTable.Shaped, HuffTable.ValidCounts;
  }

  lemma ItemsParts(items: seq<Item>, it: Item, n: nat)
    requires ItemsOk(items + [it], n)
    ensures ItemsOk(items, n) && it.ci < n
  {
    assert (items + [it])[|items|] == it;
    forall i | 0 <= i < |items|
      ensures items[i].ci < n
    {
      assert (items + [it])[i] == items[i];
    }
  }

  lemma OneDiff(ts: seq<HuffTable>, al: nat, it: Item, last: seq<int>)
    requires ValidTables(ts, |last|) && it.ci < |last| && ItemsOk([] + [it], |last|)
        && DiffsCoded(ts, al, [] + [it], last)
    ensures ItemsOk([], |last|) && DiffsCoded(ts, al, [], last)
    ensures LastShifted(al, [], it.ci, last[it.ci]) == last[it.ci]
    ensures ts[it.ci].HasCode(BitLen(Abs(Shr(it.dc, al) - last[it.ci])))
    ensures FirstBits(ts, al, [] + [it], last)
        == FirstBits(ts, al, [], last) + DiffBits(ts[it.ci], Shr(it.dc, al) - last[it.ci])
  {
    hide Shr, DiffBits, BitLen, HuffTable.HasCode, HuffTable.Shaped, HuffTable.ValidCounts, FirstBits, DiffsCoded;
    var v := Shr(it.dc, al);
    assert [] + [it] == [it] && [it][1..] == [];
    FirstUnfold(ts, al, [it], last);
    NoDiffs(ts, al, last);
    NoDiffs(ts, al, last[it.ci := v]);
    var d := DiffBits(ts[it.ci], v - last[it.ci]);
    assert d + [] == d && [] + d == d;
  }

  lemma NoDiffs(ts: seq<HuffTable>, al: nat, last: seq<int>)
    requires ValidTables(ts, |last|)
    ensures ItemsOk([], |last|) && DiffsCoded(ts, al, [], last) && FirstBits(ts, al, [], last) == []
  {
  }
}
