/** Huffman tables as JPEG transmits them, and the canonical code they stand for
    (ITU-T T.81, Annex C): code words of one length are consecutive, and the first code word of
    a length is twice the number that follows the last code word one bit shorter. */
module Huffman {
  import opened Bits
  import opened Reading

  datatype HuffTable = HuffTable(bits: seq<nat>, huffval: seq<nat>) {

    /** The ranges of the C fields: 17 counts (entry 0 unused) and 256 symbols, all bytes. */
    predicate Shaped() {
      && |bits| == 17 && |huffval| == 256
      && (forall i | 0 <= i < 17 :: bits[i] < 256)
      && (forall i | 0 <= i < 256 :: huffval[i] < 256)
    }

    /** The number of code words of length at most `l`. */
    function Count(l: nat): nat
      requires Shaped() && l <= 16
      decreases bits, l
    {
      if l == 0 then 0 else Count(l - 1) + bits[l]
    }

    /** The first code word of length `l`. */
    function First(l: nat): nat
      requires Shaped() && 1 <= l <= 16
      decreases bits, l
    {
      if l == 1 then 0 else 2 * (First(l - 1) + bits[l - 1])
    }

    /** The counts describe a code tree in which no code word is all ones. */
    predicate ValidCounts()
      requires Shaped()
    {
      Count(16) <= 256 && forall l | 1 <= l <= 16 :: First(l) + bits[l] < Pow2(l)
    }

    predicate DistinctSymbols()
      requires Shaped() && Count(16) <= 256
    {
      forall p, q | 0 <= p < q < Count(16) :: huffval[p] != huffval[q]
    }

    predicate SymbolsAtMost(max: nat)
      requires Shaped() && Count(16) <= 256
    {
      forall p | 0 <= p < Count(16) :: huffval[p] <= max
    }

    predicate Valid() {
      Shaped() && ValidCounts() && DistinctSymbols()
    }

    function SizeFrom(p: nat, l: nat): (s: nat)
      requires Shaped() && 1 <= l <= 16 && Count(l - 1) <= p < Count(16)
      ensures l <= s <= 16 && Count(s - 1) <= p < Count(s)
      decreases 16 - l
    {
      if p < Count(l) then l else SizeFrom(p, l + 1)
    }

    /** The length of the `p`-th code word. */
    function Size(p: nat): (s: nat)
      requires Shaped() && p < Count(16)
      ensures 1 <= s <= 16 && Count(s - 1) <= p < Count(s)
    {
      SizeFrom(p, 1)
    }

    /** The `p`-th code word. */
    function Code(p: nat): nat
      requires Shaped() && p < Count(16)
    {
      First(Size(p)) + p - Count(Size(p) - 1)
    }

    function CodeBits(p: nat): BitSeq
      requires Shaped() && p < Count(16)
    {
      ToBits(Code(p), Size(p))
    }

    predicate HasCode(sym: nat)
      requires Shaped()
    {
      exists p | 0 <= p < Count(16) && p < 256 :: huffval[p] == sym
    }

    function Find(sym: nat, p: nat): (q: nat)
      requires Shaped() && ValidCounts() && p <= Count(16)
      requires exists i | p <= i < Count(16) :: huffval[i] == sym
      ensures p <= q < Count(16) && huffval[q] == sym
      decreases Count(16) - p
    {
      if huffval[p] == sym then p else Find(sym, p + 1)
    }

    function Index(sym: nat): (p: nat)
      requires Shaped() && ValidCounts() && HasCode(sym)
      ensures p < Count(16) && huffval[p] == sym
    {
      Find(sym, 0)
    }

    /** What the encoder sends for a symbol. */
    function EncodeSym(sym: nat): BitSeq
      requires Shaped() && ValidCounts() && HasCode(sym)
    {
      CodeBits(Index(sym))
    }

    /** The first `l` bits form a number too big for a code word of length `l`. */
    predicate Miss(bs: BitSeq, l: nat)
      requires Shaped()
    {
      1 <= l <= 16 && l <= |bs| && Value(bs[..l]) >= First(l) + bits[l]
    }

    /** Decoding one bit at a time (T.81, figure F.16): the first length, from `l` on, at which
        the search stops.  Garbage input runs into the sentinel at 17 bits. */
    function Stop(bs: BitSeq, l: nat): (r: nat)
      requires Shaped() && 1 <= l <= 17
      ensures l <= r <= 17 && !Miss(bs, r)
      ensures forall k | l <= k < r :: Miss(bs, k)
      decreases 17 - l
    {
      if Miss(bs, l) then Stop(bs, l + 1) else l
    }

    /** The symbol of the code word of length `l` with value `code`. */
    function SymbolAt(l: nat, code: nat): (sym: nat)
      requires Shaped() && ValidCounts() && 1 <= l <= 16 && First(l) <= code < First(l) + bits[l]
      ensures sym < 256
    {
      CountMono(l, 16);
      huffval[Count(l - 1) + (code - First(l))]
    }

    function DecodeSym(bs: BitSeq): (r: Read<nat>)
      requires Shaped() && ValidCounts()
      ensures r.Got? ==> r.value < 256 && |r.rest| < |bs|
    {
      var l := Stop(bs, 1);
      if |bs| < l then More
      else if l == 17 then Got(0, bs[17..])
      else MissAtLeastFirst(bs, l); Got(SymbolAt(l, Value(bs[..l])), bs[l..])
    }

    lemma MissAtLeastFirst(bs: BitSeq, l: nat)
      requires Shaped() && 1 <= l <= 16 && l <= |bs|
      requires l > 1 ==> Miss(bs, l - 1)
      ensures Value(bs[..l]) >= First(l)
    {
      if l > 1 {
        PrefixSnoc(bs, l - 1);
      }
    }

    lemma StopUnique(bs: BitSeq, l: nat)
      requires Shaped() && 1 <= l <= 17 && !Miss(bs, l)
      requires forall k | 1 <= k < l :: Miss(bs, k)
      ensures Stop(bs, 1) == l
    {
    }

    lemma {:induction false} CountMono(l: nat, m: nat)
      requires Shaped() && l <= m <= 16
      ensures Count(l) <= Count(m)
    {
      if l < m {
        CountMono(l, m - 1);
      }
    }

    lemma SizeUnique(p: nat, l: nat)
      requires Shaped() && 1 <= l <= 16 && Count(l - 1) <= p < Count(l)
      ensures p < Count(16) && Size(p) == l
    {
      CountMono(l, 16);
      if Size(p) < l {
        CountMono(Size(p), l - 1);
      } else if l < Size(p) {
        CountMono(l, Size(p) - 1);
      }
    }

    /** Every code word of length `l` or less is, left justified, below every longer one. */
    lemma {:induction false} FirstGrows(l: nat, s: nat)
      requires Shaped() && 1 <= l < s <= 16
      ensures First(s) >= (First(l) + bits[l]) * Pow2(s - l)
      decreases s
    {
      if s == l + 1 {
        assert Pow2(1) == 2 * Pow2(0);
      } else {
        FirstGrows(l, s - 1);
        MulDouble(First(l) + bits[l], Pow2(s - 1 - l));
      }
    }

    /** Lengths past the last used one never fail the check on the counts. */
    lemma {:induction false} ValidTail(l: nat, m: nat)
      requires Shaped() && 1 <= l <= m <= 16
      requires First(l) + bits[l] < Pow2(l) && Count(l) == Count(m)
      ensures First(m) + bits[m] < Pow2(m)
      decreases m
    {
      if l < m {
        CountMono(l, m - 1);
        ValidTail(l, m - 1);
      }
    }

    lemma CodeFits(p: nat)
      requires Shaped() && ValidCounts() && p < Count(16)
      ensures Code(p) + 1 < Pow2(Size(p))
    {
      var s := Size(p);
      assert First(s) + bits[s] < Pow2(s);
    }

    lemma PrefixTooBig(p: nat, l: nat)
      requires Shaped() && ValidCounts() && p < Count(16) && 1 <= l < Size(p)
      ensures Value(CodeBits(p)[..l]) >= First(l) + bits[l]
    {
      hide Value, Pow2, First, ToBits, ValidCounts, SizeFrom;
      var s := Size(p);
      var hi, lo := CodeBits(p)[..l], CodeBits(p)[l..];
      assert hi + lo == CodeBits(p);
      CodeValue(p);
      ValueConcat(hi, lo);
      ValueBound(lo);
      FirstGrows(l, s);
      QuotientAtLeast(First(l) + bits[l], Value(hi), Pow2(s - l), Value(lo));
    }

    lemma CodeValue(p: nat)
      requires Shaped() && ValidCounts() && p < Count(16)
      ensures Value(CodeBits(p)) == Code(p)
    {
      CodeFits(p);
      ValueToBits(Code(p), Size(p));
    }

    lemma PrefixSnoc(b: BitSeq, l: nat)
      requires l < |b|
      ensures Value(b[..l + 1]) == 2 * Value(b[..l]) + BitVal(b[l])
    {
      assert b[..l + 1] == b[..l] + [b[l]];
      ValueSnoc(b[..l], b[l]);
    }

    lemma StopAtCode(p: nat, rest: BitSeq)
      requires Shaped() && ValidCounts() && p < Count(16)
      ensures Stop(CodeBits(p) + rest, 1) == Size(p)
    {
      var bs := CodeBits(p) + rest;
      forall k | 1 <= k < Size(p)
        ensures Miss(bs, k)
      {
        PrefixTooBig(p, k);
        assert bs[..k] == CodeBits(p)[..k];
      }
      assert bs[..Size(p)] == CodeBits(p);
      CodeValue(p);
      StopUnique(bs, Size(p));
    }

    /** No code word is a prefix of another, so decoding inverts encoding whatever follows. */
    lemma DecodeEncode(sym: nat, rest: BitSeq)
      requires Shaped() && ValidCounts() && HasCode(sym)
      ensures DecodeSym(EncodeSym(sym) + rest) == Got(sym, rest)
    {
      hide Value, Pow2, First, Stop, Find, ToBits;
      var p := Index(sym);
      var bs := CodeBits(p) + rest;
      StopAtCode(p, rest);
      CodeValue(p);
      assert bs[..Size(p)] == CodeBits(p) && bs[Size(p)..] == rest;
    }

    lemma PrefixFree(p: nat, q: nat)
      requires Shaped() && ValidCounts() && p < Count(16) && q < Count(16)
      requires CodeBits(p) <= CodeBits(q)
      ensures p == q
    {
      var l := Size(p);
      if l < Size(q) {
        PrefixTooBig(q, l);
        assert CodeBits(q)[..l] == CodeBits(p);
        CodeFits(p);
        ValueToBits(Code(p), l);
      } else {
        assert CodeBits(p) == CodeBits(q);
        CodeFits(p);
        CodeFits(q);
        ValueToBits(Code(p), l);
        ValueToBits(Code(q), l);
      }
    }
  }
}
