/** Reading one Huffman code through the bit buffer: a table lookup on the next 8 bits when there
    are that many, otherwise, or for longer codes, one bit at a time. */
module HuffDecoding {
  import opened Bits
  import opened Reading
  import opened Huffman
  import opened HuffTables
  import opened BitInput

  lemma MissExtends(t: HuffTable, bs: BitSeq, ext: BitSeq, l: nat)
    requires t.Shaped() && t.Miss(bs, l)
    ensures t.Miss(bs + ext, l)
  {
    assert (bs + ext)[..l] == bs[..l];
  }

  /** What decodes from some bits decodes the same when more bits follow them. */
  lemma DecodeExtends(t: HuffTable, bs: BitSeq, ext: BitSeq)
    requires t.Shaped() && t.ValidCounts() && t.DecodeSym(bs).Got?
    ensures t.DecodeSym(bs + ext) == Got(t.DecodeSym(bs).value, t.DecodeSym(bs).rest + ext)
  {
    hide Value, HuffTable.First, HuffTable.ValidCounts, HuffTable.SymbolAt;
    var l := t.Stop(bs, 1);
    forall k | 1 <= k < l
      ensures t.Miss(bs + ext, k)
    {
      MissExtends(t, bs, ext, k);
    }
    assert l <= 16 ==> (bs + ext)[..l] == bs[..l];
    assert (bs + ext)[l..] == bs[l..] + ext;
    t.StopUnique(bs + ext, l);
  }

  /** The first `l` bits of `a` have been collected, and no shorter prefix is a code word. */
  ghost predicate Collected(t: HuffTable, a: BitSeq, l: nat, code: nat)
    requires t.Shaped()
  {
    1 <= l <= 17 && l <= |a| && code == Value(a[..l]) && AllMiss(t, a, l)
  }

  ghost predicate AllMiss(t: HuffTable, a: BitSeq, l: nat)
    requires t.Shaped()
  {
    forall k | 1 <= k < l :: t.Miss(a, k)
  }

  lemma TooShort(t: HuffTable, a: BitSeq, l: nat)
    requires t.Shaped() && t.ValidCounts() && |a| < l <= 17 && AllMiss(t, a, l)
    ensures t.DecodeSym(a) == More
  {
  }

  lemma AllMissExtends(t: HuffTable, a: BitSeq, ext: BitSeq, l: nat)
    requires t.Shaped() && AllMiss(t, a, l)
    ensures AllMiss(t, a + ext, l)
  {
    hide HuffTable.Miss;
    forall k | 1 <= k < l
      ensures t.Miss(a + ext, k)
    {
      MissExtends(t, a, ext, k);
    }
  }

  /** The bound table says whether the bits collected so far are still too big. */
  lemma BoundSays(t: HuffTable, d: DDerived, a: BitSeq, l: nat, code: nat)
    requires DMatches(t, d) && Collected(t, a, l, code)
    ensures code > d.maxcode[l] <==> t.Miss(a, l)
    ensures t.Miss(a, l) ==> l <= 16
  {
    hide Value, LookMatches, HuffTable.ValidCounts, HuffTable.First;
    if l == 17 {
      ValueBound(a[..17]);
      Pow2Values();
      assert Pow2(17) == 2 * Pow2(16);
    } else {
      t.MissAtLeastFirst(a, l);
      assert BoundMatches(t, l, d.maxcode[l], d.valoffset[l]);
    }
  }

  lemma Collect(t: HuffTable, a: BitSeq, ext: BitSeq, l: nat, code: nat, bit: nat)
    requires t.Shaped() && Collected(t, a, l, code) && t.Miss(a, l) && l <= 16
    requires Take(1, (a + ext)[l..]).Got? && Take(1, (a + ext)[l..]).value == bit
    ensures Collected(t, a + ext, l + 1, 2 * code + bit)
  {
    hide Value, HuffTable.Miss;
    MissExtends(t, a, ext, l);
    AllMissExtends(t, a, ext, l);
    assert (a + ext)[..l] == a[..l];
    t.PrefixSnoc(a + ext, l);
    var x := (a + ext)[l];
    assert (a + ext)[l..][..1] == [x] && [] + [x] == [x];
    ValueSnoc([], x);
    assert Value([]) == 0 by { NoValue(); }
  }

  lemma NoValue()
    ensures Value([]) == 0
  {
  }

  /** Where the bound table ends the search, the symbol table has the answer. */
  lemma FoundSymbol(t: HuffTable, d: DDerived, a: BitSeq, l: nat, code: nat)
    requires DMatches(t, d) && Collected(t, a, l, code) && !t.Miss(a, l)
    ensures l == 17 ==> t.DecodeSym(a) == Got(0, a[17..])
    ensures l <= 16 ==>
        0 <= code + d.valoffset[l] < 256 && t.DecodeSym(a) == Got(t.huffval[code + d.valoffset[l]], a[l..])
  {
    hide Value, LookMatches, HuffTable.First;
    t.StopUnique(a, l);
    if l <= 16 {
      t.MissAtLeastFirst(a, l);
      t.CountMono(l, 16);
      assert BoundMatches(t, l, d.maxcode[l], d.valoffset[l]);
    }
  }

  /** Where the slow search stands: `l` bits of what there was to read, or of zeroes supplied at a
      marker, make up `code`. */
  ghost predicate Searching(br: BitReader, t: HuffTable, d: DDerived, all: BitSeq, zeros: nat, l: nat,
        code: nat, warned: bool)
    reads br
  {
    && br.Valid() && DMatches(t, d) && Collected(t, all + ToBits(0, zeros), l, code)
    && br.Avail() == (all + ToBits(0, zeros))[l..]
    && (if zeros == 0 then br.insufficient == warned
       else br.insufficient && br.unreadMarker != 0 && t.DecodeSym(all) == More)
  }

  lemma TableSizes(t: HuffTable, d: DDerived)
    requires DMatches(t, d)
    ensures t.Shaped() && t.ValidCounts() && |t.huffval| == 256
    ensures |d.maxcode| == 18 && |d.valoffset| == 17 && |d.lookNbits| == 256 && |d.lookSym| == 256
  {
  }

  /** Read one more bit. */
  method SearchBit(br: BitReader, t: HuffTable, d: DDerived, l: nat, code: nat, ghost all: BitSeq, ghost zeros: nat,
        ghost warned: bool)
    returns (ok: bool, bit: nat, ghost zeros': nat)
    requires Searching(br, t, d, all, zeros, l, code, warned) && t.Miss(all + ToBits(0, zeros), l) && l <= 16
    modifies br
    ensures br.Valid() && br.data == old(br.data)
    ensures br.Follows(old(br.pos), old(br.unreadMarker), old(br.insufficient))
    ensures ok ==> Searching(br, t, d, all, zeros', l + 1, 2 * code + bit, warned)
    ensures !ok ==> Dry(br.data, br.pos, br.unreadMarker)
  {
    hide ToBits, Value, ToRead, AllMiss, Collected, HuffTable.Shaped, HuffTable.Miss, HuffTable.DecodeSym,
        HuffTable.ValidCounts;
    ghost var a := all + ToBits(0, zeros);
    ghost var more;
    ok, bit, more := br.Fetch(1);
    if more > 0 && zeros == 0 && ok {
      NoBitsLeft(t, all, a, l, code);
    }
    if ok {
      NextBit(t, all, a, l, code, zeros, more, bit);
    }
    zeros' := zeros + more;
  }

  lemma FirstFetch(t: HuffTable, all: BitSeq, zeros: nat, l: nat, code: nat)
    requires t.Shaped() && t.ValidCounts() && 1 <= l <= 16 && AllMiss(t, all, l)
    requires Take(l, all + ToBits(0, zeros)).Got? && Take(l, all + ToBits(0, zeros)).value == code
    ensures Collected(t, all + ToBits(0, zeros), l, code)
    ensures |all| < l ==> t.DecodeSym(all) == More
  {
    hide Value, HuffTable.Miss, HuffTable.DecodeSym, ToBits;
    AllMissExtends(t, all, ToBits(0, zeros), l);
    if |all| < l {
      TooShort(t, all, l);
    }
  }

  lemma SearchGoesOn(br: BitReader, t: HuffTable, d: DDerived, all: BitSeq, zeros: nat, l: nat, code: nat, warned: bool)
    requires Searching(br, t, d, all, zeros, l, code, warned)
    ensures 1 <= l <= 17 && |d.maxcode| == 18
    ensures code > d.maxcode[l] <==> t.Miss(all + ToBits(0, zeros), l)
    ensures t.Miss(all + ToBits(0, zeros), l) ==> l <= 16
  {
    BoundSays(t, d, all + ToBits(0, zeros), l, code);
  }

  /** jpeg_huff_decode: collect `minBits` bits at once, the others one by one. */
  method SlowDecode(br: BitReader, t: HuffTable, d: DDerived, minBits: nat)
    returns (ok: bool, sym: nat, ghost zeros: nat)
    requires br.Valid() && DMatches(t, d) && 1 <= minBits <= 9 && AllMiss(t, br.Avail(), minBits)
    modifies br
    ensures br.Valid() && br.data == old(br.data)
    ensures br.Follows(old(br.pos), old(br.unreadMarker), old(br.insufficient))
    ensures ok ==> t.DecodeSym(old(br.Avail()) + ToBits(0, zeros)) == Got(sym, br.Avail())
    ensures ok && zeros == 0 ==> br.insufficient == old(br.insufficient)
    ensures ok && zeros > 0 ==> br.insufficient && br.unreadMarker != 0 && t.DecodeSym(old(br.Avail())) == More
    ensures !ok ==> Dry(br.data, br.pos, br.unreadMarker)
  {
    hide ToBits, Value, DMatches, ToRead, AllMiss, Collected, HuffTable.Shaped, HuffTable.Miss, HuffTable.DecodeSym,
        HuffTable.ValidCounts;
    TableSizes(t, d);
    ghost var all := br.Avail();
    ghost var warned := br.insufficient;
    sym := 0;
    var l: nat, code: nat := minBits, 0;
    ok, code, zeros := br.Fetch(l);
    if !ok {
      return;
    }
    FirstFetch(t, all, zeros, l, code);
    SearchGoesOn(br, t, d, all, zeros, l, code, warned);
    while code > d.maxcode[l]
      invariant Searching(br, t, d, all, zeros, l, code, warned) && br.data == old(br.data)
      invariant br.Follows(old(br.pos), old(br.unreadMarker), old(br.insufficient))
      invariant 1 <= l <= 17
      invariant code > d.maxcode[l] <==> t.Miss(all + ToBits(0, zeros), l)
      invariant t.Miss(all + ToBits(0, zeros), l) ==> l <= 16
      decreases 17 - l
    {
      var bit: nat;
      ok, bit, zeros := SearchBit(br, t, d, l, code, all, zeros, warned);
      if !ok {
        return;
      }
      code := 2 * code + bit;
      l := l + 1;
      SearchGoesOn(br, t, d, all, zeros, l, code, warned);
    }
    FoundSymbol(t, d, all + ToBits(0, zeros), l, code);
    if l > 16 {
      return true, 0, zeros;
    }
    return true, t.huffval[code + d.valoffset[l]], zeros;
  }

  lemma NoBitsLeft(t: HuffTable, all: BitSeq, a: BitSeq, l: nat, code: nat)
    requires t.Shaped() && t.ValidCounts() && a == all + ToBits(0, 0)
    requires Collected(t, a, l, code) && t.Miss(a, l) && l <= 16 && |a[l..]| < 1
    ensures t.DecodeSym(all) == More
  {
    hide Value, HuffTable.DecodeSym;
    assert ToBits(0, 0) == [] && a == all;
    TooShort(t, all, l + 1);
  }

  lemma NextBit(t: HuffTable, all: BitSeq, a: BitSeq, l: nat, code: nat, zeros: nat, more: nat, bit: nat)
    requires t.Shaped() && Collected(t, a, l, code) && t.Miss(a, l) && l <= 16 && a == all + ToBits(0, zeros)
    requires Take(1, a[l..] + ToBits(0, more)).Got? && Take(1, a[l..] + ToBits(0, more)).value == bit
    ensures Collected(t, a + ToBits(0, more), l + 1, 2 * code + bit)
    ensures a + ToBits(0, more) == all + ToBits(0, zeros + more)
    ensures Take(1, a[l..] + ToBits(0, more)).rest == (a + ToBits(0, more))[l + 1..]
  {
    hide ToBits, Value, HuffTable.Miss;
    ToBitsConcat(0, 0, zeros, more);
    assert (a + ToBits(0, more))[l..] == a[l..] + ToBits(0, more);
    Collect(t, a, ToBits(0, more), l, code, bit);
  }

  lemma NoneMissed(t: HuffTable, a: BitSeq)
    requires t.Shaped()
    ensures AllMiss(t, a, 1)
  {
  }

  /** A hit in the lookahead table is the symbol; a zero entry means that the code is longer. */
  lemma LookedUp(t: HuffTable, d: DDerived, a: BitSeq, look: nat)
    requires DMatches(t, d) && Take(HUFF_LOOKAHEAD, a).Got? && Take(HUFF_LOOKAHEAD, a).value == look
    ensures look < 256 && d.lookNbits[look] <= HUFF_LOOKAHEAD
    ensures d.lookNbits[look] != 0 ==> t.DecodeSym(a) == Got(d.lookSym[look], a[d.lookNbits[look]..])
    ensures d.lookNbits[look] == 0 ==> AllMiss(t, a, HUFF_LOOKAHEAD + 1)
  {
    hide Value, HuffTable.First, BoundMatches, HuffTable.ValidCounts, HuffTable.SymbolAt;
    var b := a[..8];
    ToBitsOfValue(b);
    ValueBound(b);
    Pow2Values();
    var l := t.Stop(b, 1);
    assert LookMatches(t, look, d.lookNbits[look], d.lookSym[look]);
    assert b + a[8..] == a;
    forall k | 1 <= k < l
      ensures t.Miss(a, k)
    {
      MissExtends(t, b, a[8..], k);
    }
    if l <= 8 {
      assert a[..l] == b[..l];
      t.StopUnique(a, l);
    }
  }

  /** HUFF_DECODE. */
  method HuffDecode(br: BitReader, t: HuffTable, d: DDerived) returns (ok: bool, sym: nat, ghost zeros: nat)
    requires br.Valid() && DMatches(t, d)
    modifies br
    ensures br.Valid() && br.data == old(br.data)
    ensures br.Follows(old(br.pos), old(br.unreadMarker), old(br.insufficient))
    ensures ok ==> t.DecodeSym(old(br.Avail()) + ToBits(0, zeros)) == Got(sym, br.Avail())
    ensures ok && zeros == 0 ==> br.insufficient == old(br.insufficient)
    ensures ok && zeros > 0 ==> br.insufficient && br.unreadMarker != 0 && t.DecodeSym(old(br.Avail())) == More
    ensures !ok ==> Dry(br.data, br.pos, br.unreadMarker)
  {
    hide ToBits, Value, DMatches, ToRead, AllMiss, Collected, HuffTable.Shaped, HuffTable.Miss, HuffTable.DecodeSym,
        HuffTable.ValidCounts;
    TableSizes(t, d);
    NoZeroes(br.Avail());
    sym, zeros := 0, 0;
    if br.bitsLeft < HUFF_LOOKAHEAD {
      ok := br.FillBitBuffer(0);
      if !ok {
        return;
      }
      if br.bitsLeft < HUFF_LOOKAHEAD {
        NoneMissed(t, br.Avail());
        ok, sym, zeros := SlowDecode(br, t, d, 1);
        return;
      }
    }
    ghost var a := br.Avail();
    var look := br.PeekBits(HUFF_LOOKAHEAD);
    LookedUp(t, d, a, look);
    var nb := d.lookNbits[look];
    if nb != 0 {
      br.DropBits(nb);
      return true, d.lookSym[look], 0;
    }
    ok, sym, zeros := SlowDecode(br, t, d, HUFF_LOOKAHEAD + 1);
  }

  lemma NoZeroes(a: BitSeq)
    ensures a + ToBits(0, 0) == a
  {
  }
}
