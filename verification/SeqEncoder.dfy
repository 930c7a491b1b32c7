/** The sequential Huffman encoder: blocks and MCUs straight into the bit buffer, with restarts. */
module SeqEncoder {
  import opened Bits
  import opened Coef
  import opened Huffman
  import opened HuffTables
  import opened BitOutput
  import opened Segments
  import opened AcScan
  import opened AcRoundTrip
  import opened AcEncoding
  import opened AcEncoder
  import opened DcScan
  import opened SeqScan
  import opened Zigzag

  // ---------------------------------------------------------------- one block

  /** Of the tokens `all`, those in `toks` have been written behind `seg0`, and `rest` is to come. */
  ghost predicate Sending(t: HuffTable, all: seq<Token>, toks: seq<Token>, rest: seq<Token>, seg0: BitSeq,
        segment: BitSeq)
  {
    t.Shaped() && t.ValidCounts() && toks + rest == all && Coded(t, toks) && segment == seg0 + ToksBits(t, toks)
  }

  lemma TokenAdded(t: HuffTable, toks: seq<Token>, tok: Token)
    requires t.Shaped() && t.ValidCounts() && Coded(t, toks) && (tok.Sym? ==> t.HasCode(tok.sym))
    ensures Coded(t, toks + [tok]) && ToksBits(t, toks + [tok]) == ToksBits(t, toks) + TokenBits(t, tok)
  {
    hide HuffTable.Shaped, HuffTable.ValidCounts, HuffTable.HasCode, TokenBits;
    OneToken(t, tok);
    ToksBitsConcat(t, toks, [tok]);
  }

  lemma SendingSym(t: HuffTable, all: seq<Token>, toks: seq<Token>, s: nat, rest: seq<Token>, seg0: BitSeq,
        segment: BitSeq)
    requires Sending(t, all, toks, [Sym(s)] + rest, seg0, segment)
    ensures t.Shaped() && t.ValidCounts()
    ensures t.HasCode(s) ==> Sending(t, all, toks + [Sym(s)], rest, seg0, segment + t.EncodeSym(s))
    ensures !t.HasCode(s) ==> !Coded(t, all)
  {
    hide HuffTable.Shaped, HuffTable.ValidCounts, HuffTable.HasCode, HuffTable.EncodeSym, Coded, ToksBits;
    if t.HasCode(s) {
      TokenAdded(t, toks, Sym(s));
      assert toks + ([Sym(s)] + rest) == (toks + [Sym(s)]) + rest;
    } else {
      FirstUncoded(t, [Sym(s)]);
      UncodedInside(t, all, toks, [Sym(s)], rest);
    }
  }

  lemma SendingRaw(t: HuffTable, all: seq<Token>, toks: seq<Token>, b: BitSeq, rest: seq<Token>, seg0: BitSeq,
        segment: BitSeq)
    requires Sending(t, all, toks, [Raw(b)] + rest, seg0, segment)
    ensures Sending(t, all, toks + [Raw(b)], rest, seg0, segment + b)
  {
    hide HuffTable.Shaped, HuffTable.ValidCounts, HuffTable.HasCode, HuffTable.EncodeSym, Coded, ToksBits;
    TokenAdded(t, toks, Raw(b));
    assert toks + ([Raw(b)] + rest) == (toks + [Raw(b)]) + rest;
  }

  lemma SendingStarts(t: HuffTable, all: seq<Token>, seg0: BitSeq)
    requires t.Shaped() && t.ValidCounts()
    ensures Sending(t, all, [], all, seg0, seg0)
  {
    NoTokens(t);
    assert seg0 + [] == seg0 && [] + all == all;
  }

  lemma SendingDone(t: HuffTable, all: seq<Token>, toks: seq<Token>, seg0: BitSeq, segment: BitSeq)
    requires Sending(t, all, toks, [], seg0, segment)
    ensures t.Shaped() && t.ValidCounts() && Coded(t, all) && segment == seg0 + ToksBits(t, all)
  {
    assert toks + [] == toks;
  }

  /** Emit the code of a symbol, if it has one. */
  method EmitCode(w: BitWriter, t: HuffTable, c: CDerived, s: nat) returns (ok: bool)
    requires w.Valid() && CMatches(t, c) && s < 256
    modifies w
    ensures w.Valid() && w.done == old(w.done) && t.Shaped() && t.ValidCounts()
    ensures ok <==> t.HasCode(s)
    ensures ok ==> w.segment == old(w.segment) + t.EncodeSym(s)
  {
    hide CMatches, BitWriter.Valid, HuffTable.HasCode, HuffTable.EncodeSym, HuffTable.Shaped, HuffTable.ValidCounts;
    Entry(t, c, s);
    ok := w.EmitBits(c.ehufco[s], c.ehufsi[s]);
  }

  method SendSymbol(w: BitWriter, t: HuffTable, c: CDerived, s: nat, ghost all: seq<Token>, ghost toks: seq<Token>,
        ghost rest: seq<Token>, ghost seg0: BitSeq)
    returns (ok: bool)
    requires w.Valid() && CMatches(t, c) && s < 256 && Sending(t, all, toks, [Sym(s)] + rest, seg0, w.segment)
    modifies w
    ensures w.Valid() && w.done == old(w.done) && t.Shaped()
    ensures ok ==> Sending(t, all, toks + [Sym(s)], rest, seg0, w.segment)
    ensures !ok ==> !Coded(t, all)
  {
    hide CMatches, BitWriter.Valid, Sending, Coded, HuffTable.Shaped, HuffTable.ValidCounts, HuffTable.HasCode,
        HuffTable.EncodeSym;
    SendingSym(t, all, toks, s, rest, seg0, w.segment);
    ok := EmitCode(w, t, c, s);
  }

  /** One nonzero AC coefficient after `r0` zeroes: runs of 16, then the symbol and the value. */
  method EncodeCoef(w: BitWriter, t: HuffTable, c: CDerived, coef: int, r0: nat, ghost z: Block,
        ghost toks0: seq<Token>, ghost k: nat, ghost seg0: BitSeq)
    returns (ok: bool, ghost toks: seq<Token>)
    requires w.Valid() && CMatches(t, c) && 1 <= k <= 63 && coef == z[k] != 0
    requires Sending(t, AcTokens(z), toks0, AcRest(z, k, r0), seg0, w.segment)
    modifies w
    ensures w.Valid() && w.done == old(w.done) && t.Shaped()
    ensures ok ==>
        BitLen(Abs(coef)) <= MAX_COEF_BITS && Sending(t, AcTokens(z), toks, AcRest(z, k + 1, 0), seg0, w.segment)
    ensures !ok ==> BitLen(Abs(coef)) > MAX_COEF_BITS || !Coded(t, AcTokens(z))
  {
    hide CMatches, BitWriter.Valid, Sending, Coded, AcRest, AcTokens, BitLen, MagBits, ToBits, HuffTable.Shaped,
        HuffTable.ValidCounts;
    ok, toks := true, toks0;
    var r: nat := r0;
    SendingTable(t, AcTokens(z), toks, AcRest(z, k, r), seg0, w.segment);
    while r > 15
      invariant w.Valid() && w.done == old(w.done) && Sending(t, AcTokens(z), toks, AcRest(z, k, r), seg0, w.segment)
    {
      RestZrl(z, k, r);
      ok := SendSymbol(w, t, c, ZRL, AcTokens(z), toks, AcRest(z, k, r - 16), seg0);
      if !ok {
        return;
      }
      toks := toks + [Sym(ZRL)];
      r := r - 16;
    }
    var temp2 := if coef < 0 then coef - 1 else coef;
    var nbits := MagnitudeBits(Abs(coef));
    if nbits > MAX_COEF_BITS {
      return false, toks;
    }
    RestValue(z, k, r);
    SomeBits(coef);
    var bits := MagBits(coef, nbits);
    ok := SendSymbol(w, t, c, 16 * r + nbits, AcTokens(z), toks, [Raw(bits)] + AcRest(z, k + 1, 0), seg0);
    if !ok {
      return;
    }
    toks := toks + [Sym(16 * r + nbits)];
    SendingRaw(t, AcTokens(z), toks, bits, AcRest(z, k + 1, 0), seg0, w.segment);
    ValueBits(coef, nbits);
    ok := w.EmitBits(temp2, nbits);
    toks := toks + [Raw(bits)];
  }

  lemma SendingTable(t: HuffTable, all: seq<Token>, toks: seq<Token>, rest: seq<Token>, seg0: BitSeq, segment: BitSeq)
    requires Sending(t, all, toks, rest, seg0, segment)
    ensures t.Shaped() && t.ValidCounts()
  {
  }

  lemma SomeBits(v: int)
    ensures v != 0 <==> BitLen(Abs(v)) >= 1
  {
  }

  lemma ValueBits(v: int, n: nat)
    ensures ToBits(if v < 0 then v - 1 else v, n) == MagBits(v, n)
  {
  }

  lemma Magnitude(c: int)
    ensures Mag(c, 0) == Abs(c)
  {
  }

  /** The AC coefficients of a block: fails just when one is out of range or a symbol has no code. */
  method EncodeAc(w: BitWriter, t: HuffTable, c: CDerived, block: seq<int>) returns (ok: bool)
    requires w.Valid() && CMatches(t, c) && |block| == 64
    modifies w
    ensures w.Valid() && w.done == old(w.done) && t.Shaped() && t.ValidCounts()
    ensures ok <==> AcInRange(ZigzagOf(block)) && Coded(t, AcTokens(ZigzagOf(block)))
    ensures ok ==> w.segment == old(w.segment) + ToksBits(t, AcTokens(ZigzagOf(block)))
  {
    hide CMatches, BitWriter.Valid, Sending, Coded, AcRest, BitLen, HeadEnd, ZigzagOf, Natural, SmallBefore,
        AcInRange, HuffTable.Shaped, HuffTable.ValidCounts, ToksBits;
    EncoderTables(false, t, c);
    ghost var z, seg0, toks := ZigzagOf(block), w.segment, [];
    SendingStarts(t, AcTokens(z), seg0);
    RangeEnds(z);
    var r: nat, k: nat := 0, 1;
    while k < 64
      invariant 1 <= k <= 64 && w.Valid() && w.done == old(w.done)
      invariant Sending(t, AcTokens(z), toks, AcRest(z, k, r), seg0, w.segment)
      invariant SmallBefore(WHOLE, z, k)
      invariant k >= HeadEnd(WHOLE, z) ==> (r > 0 <==> k > HeadEnd(WHOLE, z))
    {
      StepTo(z, block, k);
      var temp := block[Natural(k)];
      if temp == 0 {
        RestZero(z, k, r);
        r := r + 1;
      } else {
        ok, toks := EncodeCoef(w, t, c, temp, r, z, toks, k, seg0);
        if !ok {
          return;
        }
        r := 0;
      }
      k := k + 1;
    }
    ok := true;
    RestDone(z, r);
    EndSymbol(z);
    if r > 0 {
      assert [Sym(0)] + [] == [Sym(0)];
      ok := SendSymbol(w, t, c, 0, AcTokens(z), toks, [], seg0);
      if !ok {
        return;
      }
      toks := toks + [Sym(0)];
    }
    SendingDone(t, AcTokens(z), toks, seg0, w.segment);
  }

  lemma EndSymbol(z: Block)
    ensures EndOfBlock(z) == if HeadEnd(WHOLE, z) <= 63 then [Sym(0)] else []
    ensures 1 <= HeadEnd(WHOLE, z) <= 64
  {
    hide HeadEnd;
  }

  lemma RangeEnds(z: Block)
    ensures SmallBefore(WHOLE, z, 1)
    ensures SmallBefore(WHOLE, z, 64) <==> AcInRange(z)
    ensures 1 <= HeadEnd(WHOLE, z) <= 64
  {
    hide HeadEnd, SmallBefore, InRange;
    SmallStart(WHOLE, z);
  }

  /** What coefficient `k` means for the range and for the end of the head. */
  lemma StepTo(z: Block, block: seq<int>, k: nat)
    requires |block| == 64 && z == ZigzagOf(block) && 1 <= k <= 63 && SmallBefore(WHOLE, z, k)
    ensures block[Natural(k)] == z[k]
    ensures BitLen(Abs(z[k])) <= MAX_COEF_BITS <==> SmallBefore(WHOLE, z, k + 1)
    ensures BitLen(Abs(z[k])) > MAX_COEF_BITS ==> !SmallBefore(WHOLE, z, 64)
    ensures z[k] == 0 ==> SmallBefore(WHOLE, z, k + 1)
    ensures z[k] != 0 ==> k < HeadEnd(WHOLE, z)
    ensures z[k] == 0 ==> k + 1 != HeadEnd(WHOLE, z)
  {
    hide HeadEnd, SmallBefore, Natural, BitLen, ZigzagOf;
    CoefAt(WHOLE, z, block, k);
    RangeAt(WHOLE, z, k);
    SeqSends(z, k);
    Magnitude(z[k]);
  }

  /** The DC difference. */
  method EncodeDiff(w: BitWriter, t: HuffTable, c: CDerived, diff: int) returns (ok: bool)
    requires w.Valid() && CMatches(t, c)
    modifies w
    ensures w.Valid() && w.done == old(w.done) && t.Shaped() && t.ValidCounts()
    ensures ok <==> BitLen(Abs(diff)) <= MAX_DIFF_BITS && t.HasCode(BitLen(Abs(diff)))
    ensures ok ==> w.segment == old(w.segment) + DiffBits(t, diff)
  {
    hide CMatches, BitWriter.Valid, BitLen, MagBits, ToBits, HuffTable.HasCode, HuffTable.EncodeSym, HuffTable.Shaped,
        HuffTable.ValidCounts;
    EncoderTables(false, t, c);
    var temp2 := if diff < 0 then diff - 1 else diff;
    var nbits := MagnitudeBits(Abs(diff));
    if nbits > MAX_DIFF_BITS {
      return false;
    }
    ok := EmitCode(w, t, c, nbits);
    if !ok {
      return;
    }
    ghost var segment := w.segment;
    ValueBits(diff, nbits);
    if nbits != 0 {
      ok := w.EmitBits(temp2, nbits);
    } else {
      assert segment + MagBits(diff, nbits) == segment;
    }
    assert (old(w.segment) + t.EncodeSym(nbits)) + MagBits(diff, nbits)
        == old(w.segment) + (t.EncodeSym(nbits) + MagBits(diff, nbits));
  }

  /** encode_one_block: succeeds just when all values are in range and all symbols have codes. */
  method EncodeOneBlock(w: BitWriter, block: seq<int>, lastDcVal: int, dc: HuffTable, dctbl: CDerived,
        ac: HuffTable, actbl: CDerived) returns (ok: bool)
    requires w.Valid() && CMatches(dc, dctbl) && CMatches(ac, actbl) && |block| == 64
    modifies w
    ensures w.Valid() && w.done == old(w.done)
    ensures ok <==> BlockCoded(dc, ac, ZigzagOf(block), lastDcVal)
    ensures ok ==> w.segment == old(w.segment) + BlockBits(dc, ac, ZigzagOf(block), lastDcVal)
  {
    hide CMatches, BitWriter.Valid, BitLen, DiffBits, ToksBits, Coded, AcTokens, ZigzagOf, AcInRange, HuffTable.HasCode,
        HuffTable.Shaped, HuffTable.ValidCounts;
    ghost var z := ZigzagOf(block);
    EncoderTables(false, ac, actbl);
    FirstStored(block);
    ok := EncodeDiff(w, dc, dctbl, block[0] - lastDcVal);
    if ok {
      ghost var seg, d := old(w.segment), DiffBits(dc, z[0] - lastDcVal);
      ok := EncodeAc(w, ac, actbl, block);
      if ok {
        assert (seg + d) + ToksBits(ac, AcTokens(z)) == seg + (d + ToksBits(ac, AcTokens(z)));
      }
    }
  }

  lemma FirstStored(block: seq<int>)
    requires |block| == 64
    ensures ZigzagOf(block)[0] == block[0]
  {
  }
}
