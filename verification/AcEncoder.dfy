/** The progressive AC encoders: one block at a time, in a pass that either writes the scan or only
    counts its symbols. */
module AcEncoder {
  import opened Bits
  import opened Coef
  import opened Huffman
  import opened HuffTables
  import opened BitOutput
  import opened Segments
  import opened AcScan
  import opened AcRoundTrip
  import opened AcEncoding
  import opened Zigzag

  const MAX_CORR_BITS: nat := 1000
  const MAX_COEF_BITS: nat := 10

  // ---------------------------------------------------------------- counting and writing

  function Occurs(toks: seq<Token>, s: nat): nat
  {
    if toks == [] then 0
    else Occurs(toks[..|toks| - 1], s) + (if toks[|toks| - 1] == Sym(s) then 1 else 0)
  }

  /** The symbols of AC scans: a run length and at most MAX_COEF_BITS bits. */
  predicate AcSymbol(s: nat) { s < 256 && s % 16 <= MAX_COEF_BITS }

  ghost predicate CountsOf(counts: seq<nat>, toks: seq<Token>)
  {
    |counts| == 257 && forall s: nat | s < 257 :: counts[s] == Occurs(toks, s)
  }

  ghost predicate CountsAre(counts: seq<nat>, toks: seq<Token>)
  {
    CountsOf(counts, toks) && forall i | 0 <= i < |toks| && toks[i].Sym? :: AcSymbol(toks[i].sym)
  }

  /** What a pass has to show for the tokens it was given: the bits of the current segment, or the
      symbol counts. */
  ghost predicate Shown(gather: bool, t: HuffTable, past: seq<Token>, toks: seq<Token>, segment: BitSeq,
        counts: seq<nat>)
  {
    if gather then CountsAre(counts, past + toks)
    else t.Shaped() && t.ValidCounts() && Coded(t, toks) && segment == ToksBits(t, toks)
  }

  lemma ShowNone(gather: bool, t: HuffTable, c: CDerived, counts: seq<nat>)
    requires gather || CMatches(t, c)
    requires |counts| == 257 && forall s | 0 <= s < 257 :: counts[s] == 0
    ensures Shown(gather, t, [], [], [], counts)
  {
    hide HuffTable.Shaped, HuffTable.ValidCounts, HuffTable.HasCode, EntryMatches;
    var none: seq<Token> := [];
    assert none + none == none;
  }

  lemma CountOne(counts: seq<nat>, toks: seq<Token>, s: nat)
    requires CountsAre(counts, toks) && AcSymbol(s)
    ensures CountsAre(counts[s := counts[s] + 1], toks + [Sym(s)])
  {
    assert (toks + [Sym(s)])[..|toks|] == toks;
  }

  lemma CountRaw(counts: seq<nat>, toks: seq<Token>, b: BitSeq)
    requires CountsAre(counts, toks)
    ensures CountsAre(counts, toks + [Raw(b)])
  {
    assert (toks + [Raw(b)])[..|toks|] == toks;
  }

  lemma ShowSym(gather: bool, t: HuffTable, past: seq<Token>, toks: seq<Token>, segment: BitSeq, counts: seq<nat>,
        s: nat)
    requires Shown(gather, t, past, toks, segment, counts) && AcSymbol(s)
    ensures gather ==> |counts| == 257 && Shown(gather, t, past, toks + [Sym(s)], segment, counts[s := counts[s] + 1])
    ensures !gather ==> t.Shaped() && t.ValidCounts()
    ensures !gather && t.HasCode(s) ==> Shown(gather, t, past, toks + [Sym(s)], segment + t.EncodeSym(s), counts)
  {
    hide HuffTable.Shaped, HuffTable.ValidCounts, HuffTable.HasCode, HuffTable.EncodeSym, Occurs;
    if gather {
      assert past + (toks + [Sym(s)]) == (past + toks) + [Sym(s)];
      CountOne(counts, past + toks, s);
    } else if t.HasCode(s) {
      OneToken(t, Sym(s));
      ToksBitsConcat(t, toks, [Sym(s)]);
    }
  }

  lemma ShowRaw(gather: bool, t: HuffTable, past: seq<Token>, toks: seq<Token>, segment: BitSeq, counts: seq<nat>,
        b: BitSeq)
    requires Shown(gather, t, past, toks, segment, counts)
    ensures gather ==> Shown(gather, t, past, toks + [Raw(b)], segment, counts)
    ensures !gather ==> Shown(gather, t, past, toks + [Raw(b)], segment + b, counts)
  {
    hide HuffTable.Shaped, HuffTable.ValidCounts, HuffTable.HasCode, HuffTable.EncodeSym, Occurs, CountsAre;
    if gather {
      assert past + (toks + [Raw(b)]) == (past + toks) + [Raw(b)];
      CountRaw(counts, past + toks, b);
    } else {
      OneToken(t, Raw(b));
      ToksBitsConcat(t, toks, [Raw(b)]);
    }
  }

  lemma OneToken(t: HuffTable, tok: Token)
    requires t.Shaped() && t.ValidCounts() && (tok.Sym? ==> t.HasCode(tok.sym))
    ensures Coded(t, [tok]) && ToksBits(t, [tok]) == TokenBits(t, tok)
  {
    hide HuffTable.HasCode, HuffTable.EncodeSym;
    assert [tok][1..] == [];
    assert TokenBits(t, tok) + [] == TokenBits(t, tok);
  }

  /** The segment of the tokens `toks`, and the bytes `after` it, have been written. */
  ghost predicate Closes(t: HuffTable, toks: seq<Token>, before: seq<Byte>, after: seq<Byte>, out: seq<Byte>)
  {
    t.Shaped() && t.ValidCounts() && Coded(t, toks) && out == before + SegmentBytes(ToksBits(t, toks)) + after
  }

  /** Some symbol of `toks` has no code. */
  ghost predicate Missing(t: HuffTable, toks: seq<Token>)
  {
    t.Shaped() && t.ValidCounts() && !Coded(t, toks)
  }

  lemma MissingLast(t: HuffTable, a: seq<Token>, b: seq<Token>)
    requires Missing(t, b)
    ensures Missing(t, a + b)
  {
    assert b + [] == b;
    UncodedInside(t, a + b, a, b, []);
  }

  /** CountBits: the number of bits of a magnitude, by shifting. */
  method MagnitudeBits(v: nat) returns (n: nat)
    ensures n == BitLen(v)
  {
    n := 0;
    var temp := v;
    while temp != 0
      invariant BitLen(v) == n + BitLen(temp)
    {
      n := n + 1;
      temp := temp / 2;
    }
  }

  // ---------------------------------------------------------------- the encoder

  class PhuffEncoder {
    const sc: Scan
    const gather: bool
    const t: HuffTable
    const c: CDerived
    const w: BitWriter
    const counts: array<nat>
    const bitBuffer: array<bool>
    var eobrun: nat
    var be: nat
    ghost var past: seq<Token>
    ghost var toks: seq<Token>

    ghost predicate Ready()
      reads this, w, counts, bitBuffer
    {
      && sc.Valid() && w.Valid() && counts.Length == 257 && bitBuffer.Length == MAX_CORR_BITS
      && (gather || CMatches(t, c))
      && Shown(gather, t, past, toks, w.segment, counts[..])
    }

    ghost predicate Valid()
      reads this, w, counts, bitBuffer
    {
      Ready() && eobrun < MAX_EOBRUN && be <= MAX_BE && (eobrun == 0 ==> be == 0)
    }

    ghost function Pend(): Pending
      requires bitBuffer.Length == MAX_CORR_BITS && be <= MAX_CORR_BITS
      reads this, bitBuffer
    {
      AcScan.Pending(eobrun, bitBuffer[..be])
    }

    /** start_pass_phuff. */
    constructor (sc: Scan, gather: bool, t: HuffTable, c: CDerived, w: BitWriter)
      requires sc.Valid() && w.Valid() && w.segment == [] && (gather || CMatches(t, c))
      ensures Valid() && this.sc == sc && this.gather == gather && this.t == t && this.w == w
      ensures fresh(counts) && fresh(bitBuffer) && Pend() == NONE && past == [] && toks == []
    {
      hide CMatches, BitWriter.Valid;
      this.sc, this.gather, this.t, this.c, this.w := sc, gather, t, c, w;
      counts, bitBuffer := new nat[257](_ => 0), new bool[MAX_CORR_BITS];
      eobrun, be, past, toks := 0, 0, [], [];
      new;
      ShowNone(gather, t, c, counts[..]);
    }

    /** emit_symbol.  Fails if the symbol has no code. */
    method EmitSymbol(s: nat) returns (ok: bool)
      requires Ready() && AcSymbol(s)
      modifies this`toks, w, counts
      ensures ok ==> Ready() && w.done == old(w.done) && toks == old(toks) + [Sym(s)]
      ensures ok <==> gather || t.HasCode(s)
    {
      hide Shown, CMatches, BitWriter.Valid, HuffTable.HasCode;
      ShowSym(gather, t, past, toks, w.segment, counts[..], s);
      if gather {
        counts[s] := counts[s] + 1;
        ok := true;
      } else {
        Entry(t, c, s);
        ok := w.EmitBits(c.ehufco[s], c.ehufsi[s]);
      }
      toks := toks + [Sym(s)];
    }

    /** emit_bits. */
    method EmitBits(code: int, size: nat)
      requires Ready() && 1 <= size <= 16
      modifies this`toks, w
      ensures Ready() && w.done == old(w.done) && toks == old(toks) + [Raw(ToBits(code, size))]
    {
      hide Shown, CMatches, BitWriter.Valid;
      ShowRaw(gather, t, past, toks, w.segment, counts[..], ToBits(code, size));
      if !gather {
        var ok := w.EmitBits(code, size);
      }
      toks := toks + [Raw(ToBits(code, size))];
    }

    /** emit_buffered_bits. */
    method EmitBufferedBits(start: nat, nbits: nat)
      requires Ready() && start + nbits <= MAX_CORR_BITS
      modifies this`toks, w
      ensures Ready() && w.done == old(w.done) && toks == old(toks) + [Raw(bitBuffer[start..start + nbits])]
    {
      hide Shown, CMatches, BitWriter.Valid;
      ghost var all := bitBuffer[start..start + nbits];
      ShowRaw(gather, t, past, toks, w.segment, counts[..], all);
      if !gather {
        ghost var segment := w.segment;
        var i: nat := 0;
        assert segment + all[..0] == segment;
        while i < nbits
          invariant i <= nbits && w.Valid() && w.done == old(w.done) && w.segment == segment + all[..i]
          invariant toks == old(toks)
        {
          var bit := bitBuffer[start + i];
          var ok := w.EmitBits(if bit then 1 else 0, 1);
          OneBitOut(bit);
          assert all[..i + 1] == all[..i] + [bit];
          i := i + 1;
        }
        assert all[..nbits] == all;
      }
      toks := toks + [Raw(all)];
    }

    /** emit_eobrun: what is pending, if anything.  The run always fits in its 14 bits. */
    method EmitEobrun() returns (ok: bool)
      requires Ready() && eobrun <= MAX_EOBRUN && be <= MAX_CORR_BITS && (eobrun == 0 ==> be == 0)
      modifies this`toks, this`eobrun, this`be, w, counts
      ensures ok ==> Valid() && w.done == old(w.done) && Pend() == NONE && toks == old(toks) + EobTokens(old(Pend()))
      ensures !ok ==> !gather && t.Shaped() && t.ValidCounts() && !Coded(t, EobTokens(old(Pend())))
    {
      hide Shown, CMatches, BitWriter.Valid, HuffTable.HasCode, ToBits, BitLen, EobTokens, Coded, HuffTable.Shaped,
          HuffTable.ValidCounts;
      ghost var toks0, p := toks, Pend();
      EncoderTables(gather, t, c);
      EobParts(p);
      if eobrun > 0 {
        var nbits := RunCategory(eobrun);
        if nbits > 14 {
          return false;
        }
        ok := EmitSymbol(16 * nbits);
        if !ok {
          FirstUncoded(t, EobTokens(p));
          return;
        }
        if nbits != 0 {
          EmitBits(eobrun, nbits);
        } else {
          NoBits(eobrun);
        }
        eobrun := 0;
        EmitBufferedBits(0, be);
        be := 0;
        ThreeMore(toks0, Sym(16 * nbits), Raw(ToBits(p.eobrun, nbits)), Raw(p.be));
      } else {
        assert toks + [] == toks;
      }
      return true;
    }

    /** What has been emitted since `toks0`, with what is left from coefficient `k` on, is what block
        `z` stands for after `p0` was pending. */
    ghost predicate Underway(z: Block, toks0: seq<Token>, p0: AcScan.Pending, k: nat, r: nat, br: BitSeq)
      reads this, w, counts, bitBuffer
    {
      && Valid() && sc.ss <= k <= sc.se + 1
      && Then(toks, EncodeFrom(sc, z, k, r, br, Pend())) == Then(toks0, EncodeBlock(sc, z, p0))
    }

    /** The tokens of a block cannot all be written. */
    ghost predicate Uncodable(z: Block, toks0: seq<Token>, p0: AcScan.Pending)
      reads this
    {
      !gather && t.Shaped() && t.ValidCounts() && sc.Valid() && !Coded(t, toks0 + EncodeBlock(sc, z, p0).0)
    }

    /** Emit what is pending before a symbol of the block. */
    method ClearPending(ghost z: Block, ghost toks0: seq<Token>, ghost p0: AcScan.Pending, ghost k: nat,
          ghost r: nat, ghost br: BitSeq)
      returns (ok: bool)
      requires Underway(z, toks0, p0, k, r, br) && k < HeadEnd(sc, z)
      modifies this`toks, this`eobrun, this`be, w, counts
      ensures ok ==> Underway(z, toks0, p0, k, r, br) && eobrun == 0 && w.done == old(w.done)
      ensures !ok ==> Uncodable(z, toks0, p0)
    {
      hide Shown, CMatches, BitWriter.Valid, EncodeFrom, EncodeBlock, HeadEnd, EobTokens, Coded, HuffTable.Shaped,
          HuffTable.ValidCounts;
      ghost var p, before := Pend(), toks;
      FromPending(sc, z, k, r, br, p);
      ok := EmitEobrun();
      if !ok {
        UncodedInside(t, toks0 + EncodeBlock(sc, z, p0).0, before, EobTokens(p), EncodeFrom(sc, z, k, r, br, NONE).0);
      } else {
        MoreThen(before, EobTokens(p), EncodeFrom(sc, z, k, r, br, NONE));
      }
    }

    /** Emit the symbol `sym` that comes next. */
    method EmitNext(sym: nat, ghost z: Block, ghost toks0: seq<Token>, ghost p0: AcScan.Pending,
          ghost rest: (seq<Token>, AcScan.Pending))
      returns (ok: bool)
      requires Valid() && AcSymbol(sym) && Then(toks, Then([Sym(sym)], rest)) == Then(toks0, EncodeBlock(sc, z, p0))
      modifies this`toks, w, counts
      ensures ok ==> Valid() && w.done == old(w.done) && toks == old(toks) + [Sym(sym)]
                     && Then(toks, rest) == Then(toks0, EncodeBlock(sc, z, p0))
      ensures !ok ==> Uncodable(z, toks0, p0)
    {
      hide Shown, CMatches, BitWriter.Valid, EncodeBlock, HuffTable.Shaped, HuffTable.ValidCounts, HuffTable.HasCode,
          Coded;
      EncoderTables(gather, t, c);
      ghost var before := toks;
      MoreThen(before, [Sym(sym)], rest);
      ok := EmitSymbol(sym);
      if !ok {
        FirstUncoded(t, [Sym(sym)]);
        UncodedInside(t, toks0 + EncodeBlock(sc, z, p0).0, before, [Sym(sym)], rest.0);
      }
    }

    /** One nonzero coefficient of a first pass: pending run, ZRLs, symbol, value. */
    method EmitCoef(ghost z: Block, ghost toks0: seq<Token>, ghost p0: AcScan.Pending, ghost k: nat, r0: nat,
          temp: nat, temp2: int)
      returns (ok: bool)
      requires sc.mode == Initial && k <= sc.se && CoefIs(sc.al, z, k, temp, temp2)
      requires Underway(z, toks0, p0, k, r0, [])
      modifies this`toks, this`eobrun, this`be, w, counts
      ensures ok ==>
          Underway(z, toks0, p0, k + 1, 0, []) && eobrun == 0 && w.done == old(w.done) && BitLen(temp) <= MAX_COEF_BITS
      ensures !ok ==> Uncodable(z, toks0, p0) || BitLen(temp) > MAX_COEF_BITS
    {
      hide Shown, CMatches, BitWriter.Valid, EncodeFrom, EncodeBlock, HeadEnd, EobTokens, Mag, BitLen, MagBits,
          SignedMag, ToBits;
      SendsInHead(sc, z, k);
      if eobrun > 0 {
        ok := ClearPending(z, toks0, p0, k, r0, []);
        if !ok {
          return;
        }
      }
      NonePending(Pend());
      var r: nat := r0;
      while r > 15
        invariant Underway(z, toks0, p0, k, r, []) && eobrun == 0 && Pend() == NONE && w.done == old(w.done)
      {
        FromZrl(sc, z, k, r, []);
        assert [Sym(ZRL)] + [] == [Sym(ZRL)];
        ok := EmitNext(ZRL, z, toks0, p0, EncodeFrom(sc, z, k, r - 16, [], NONE));
        if !ok {
          return;
        }
        r := r - 16;
      }
      var nbits := MagnitudeBits(temp);
      if nbits > MAX_COEF_BITS {
        return false;
      }
      CoefTokens(sc, z, k, r, temp, temp2, nbits);
      ghost var rest := EncodeFrom(sc, z, k + 1, 0, [], NONE);
      ok := EmitNext(16 * r + nbits, z, toks0, p0, Then([Raw(ToBits(temp2, nbits))], rest));
      if !ok {
        return;
      }
      MoreThen(toks, [Raw(ToBits(temp2, nbits))], rest);
      EmitBits(temp2, nbits);
    }

    /** The block ends in zeroes or correction bits: `nbr` of them follow the older ones. */
    method CountEob(ghost z: Block, ghost toks0: seq<Token>, ghost p0: AcScan.Pending, ghost r: nat, nbr: nat)
      returns (ok: bool)
      requires Valid() && HeadEnd(sc, z) <= sc.se && be + nbr <= MAX_CORR_BITS
      requires Underway(z, toks0, p0, sc.se + 1, r, bitBuffer[be..be + nbr])
      modifies this`toks, this`eobrun, this`be, w, counts
      ensures ok ==> Valid() && w.done == old(w.done) && (toks, Pend()) == Then(toks0, EncodeBlock(sc, z, p0))
      ensures !ok ==> Uncodable(z, toks0, p0)
    {
      hide Shown, CMatches, BitWriter.Valid, EncodeFrom, EncodeBlock, HeadEnd, EobTokens, Coded, HuffTable.Shaped,
          HuffTable.ValidCounts;
      FromEnd(sc, z, r, bitBuffer[be..be + nbr], Pend());
      assert bitBuffer[..be] + bitBuffer[be..be + nbr] == bitBuffer[..be + nbr];
      eobrun := eobrun + 1;
      be := be + nbr;
      ghost var before, p := toks, Pend();
      ok := true;
      if eobrun == MAX_EOBRUN || be > MAX_BE {
        ok := EmitEobrun();
        if !ok {
          assert EobTokens(p) + [] == EobTokens(p);
          UncodedInside(t, toks0 + EncodeBlock(sc, z, p0).0, before, EobTokens(p), []);
        }
      } else {
        assert toks + [] == toks;
      }
    }

    /** encode_mcu_AC_first: succeeds just when all coefficients are in range and, in an output pass,
        all symbols have codes. */
    method EncodeMcuFirst(block: seq<int>) returns (ok: bool)
      requires Valid() && |block| == 64 && sc.mode == Initial
      modifies this`toks, this`eobrun, this`be, w, counts
      ensures ok ==> Valid() && w.done == old(w.done)
      ensures ok ==> (toks, Pend()) == Then(old(toks), EncodeBlock(sc, ZigzagOf(block), old(Pend())))
      ensures ok <==> InRange(sc, ZigzagOf(block)) && !Uncodable(ZigzagOf(block), old(toks), old(Pend()))
    {
      hide Shown, CMatches, BitWriter.Valid, EncodeFrom, EncodeBlock, HeadEnd, EobTokens, Coded, ZigzagOf,
          Natural, Mag, BitLen, Uncodable, CoefIs, SmallBefore, InRange, Pow2;
      ghost var z, toks0, p0 := ZigzagOf(block), toks, Pend();
      EncodeFromStart(sc, z, p0);
      SmallStart(sc, z);
      var r: nat, k: nat := 0, sc.ss;
      while k <= sc.se
        invariant Underway(z, toks0, p0, k, r, []) && w.done == old(w.done)
        invariant SmallBefore(sc, z, k)
        invariant k >= HeadEnd(sc, z) ==> (r > 0 <==> k > HeadEnd(sc, z))
      {
        CoefAt(sc, z, block, k);
        SendsInHead(sc, z, k);
        RangeAt(sc, z, k);
        var coef := block[Natural(k)];
        var temp := Mag(coef, sc.al);
        if temp == 0 {
          FromZero(sc, z, k, r, [], Pend());
          r := r + 1;
        } else {
          var temp2 := if coef < 0 then -(temp as int) - 1 else temp;
          ok := EmitCoef(z, toks0, p0, k, r, temp, temp2);
          if !ok {
            return;
          }
          r := 0;
        }
        k := k + 1;
      }
      ok := true;
      FromEnd(sc, z, r, [], Pend());
      assert toks + [] == toks && bitBuffer[be..be + 0] == [];
      if r > 0 {
        ok := CountEob(z, toks0, p0, r, 0);
      }
      if ok {
        AllCoded(z, toks0, p0);
      }
    }

    lemma AllCoded(z: Block, toks0: seq<Token>, p0: AcScan.Pending)
      requires Ready() && toks == toks0 + EncodeBlock(sc, z, p0).0
      ensures !Uncodable(z, toks0, p0)
    {
      hide CMatches, BitWriter.Valid, EncodeBlock, Coded;
    }

    /** A run of 16 zeroes in a refinement pass, with the correction bits that belong to it. */
    method EmitRefineZrl(ghost z: Block, ghost toks0: seq<Token>, ghost p0: AcScan.Pending, ghost k: nat,
          ghost r: nat, base: nat, nbr: nat)
      returns (ok: bool)
      requires Valid() && sc.mode == Refine && base + nbr <= MAX_CORR_BITS && r > 15
      requires k < HeadEnd(sc, z) && Mag(z[k], sc.al) != 0 && Underway(z, toks0, p0, k, r, bitBuffer[base..base + nbr])
      modifies this`toks, this`eobrun, this`be, w, counts
      ensures ok ==> Underway(z, toks0, p0, k, r - 16, []) && eobrun == 0 && be == 0 && w.done == old(w.done)
      ensures !ok ==> Uncodable(z, toks0, p0)
    {
      hide Shown, CMatches, BitWriter.Valid, EncodeFrom, EncodeBlock, HeadEnd, EobTokens, Mag, Uncodable;
      ghost var br := bitBuffer[base..base + nbr];
      ok := ClearPending(z, toks0, p0, k, r, br);
      if !ok {
        return;
      }
      NonePending(Pend());
      FromZrl(sc, z, k, r, br);
      ghost var rest := EncodeFrom(sc, z, k, r - 16, [], NONE);
      MoreThen([Sym(ZRL)], [Raw(br)], rest);
      ok := EmitNext(ZRL, z, toks0, p0, Then([Raw(br)], rest));
      if ok {
        MoreThen(toks, [Raw(br)], rest);
        EmitBufferedBits(base, nbr);
      }
    }

    /** All such runs that cannot be left to the end of the band. */
    method EmitZrls(ghost z: Block, ghost toks0: seq<Token>, ghost p0: AcScan.Pending, k: nat, r0: nat, base0: nat,
          nbr0: nat, eob: nat)
      returns (ok: bool, r: nat, base: nat, nbr: nat)
      requires Valid() && sc.mode == Refine && base0 == be && base0 + nbr0 <= MAX_CORR_BITS && 1 <= k < 64
      requires Mag(z[k], sc.al) != 0 && eob == LastBefore(HeadEnd(sc, z), sc.ss)
          && Underway(z, toks0, p0, k, r0, bitBuffer[base0..base0 + nbr0])
      modifies this`toks, this`eobrun, this`be, w, counts
      ensures ok ==> Valid() && base == be && base <= base0 && nbr <= nbr0 && (r <= 15 || HeadEnd(sc, z) <= k)
                     && w.done == old(w.done)
      ensures ok ==> Underway(z, toks0, p0, k, r, bitBuffer[base..base + nbr])
      ensures k >= HeadEnd(sc, z) ==> r == r0 && nbr == nbr0
      ensures !ok ==> Uncodable(z, toks0, p0)
    {
      hide Shown, CMatches, BitWriter.Valid, EncodeFrom, EncodeBlock, HeadEnd, Mag, Uncodable;
      ok, r, base, nbr := true, r0, base0, nbr0;
      while r > 15 && k <= eob
        invariant Valid() && base == be && base <= base0 && nbr <= nbr0 && w.done == old(w.done)
        invariant Underway(z, toks0, p0, k, r, bitBuffer[base..base + nbr])
        invariant k >= HeadEnd(sc, z) ==> r == r0 && nbr == nbr0
      {
        ok := EmitRefineZrl(z, toks0, p0, k, r, base, nbr);
        if !ok {
          return;
        }
        r := r - 16;
        base, nbr := 0, 0;
        assert bitBuffer[base..base + nbr] == [];
      }
    }

    /** A coefficient that becomes nonzero in a refinement pass. */
    method EmitNew(ghost z: Block, ghost toks0: seq<Token>, ghost p0: AcScan.Pending, ghost k: nat, r: nat,
          base: nat, nbr: nat, positive: bool)
      returns (ok: bool)
      requires Valid() && sc.mode == Refine && base + nbr <= MAX_CORR_BITS && r <= 15
      requires sc.ss <= k <= sc.se && Mag(z[k], sc.al) == 1 && positive == (z[k] >= 0)
      requires Underway(z, toks0, p0, k, r, bitBuffer[base..base + nbr])
      modifies this`toks, this`eobrun, this`be, w, counts
      ensures ok ==> Valid() && Underway(z, toks0, p0, k + 1, 0, []) && eobrun == 0 && be == 0 && w.done == old(w.done)
      ensures !ok ==> Uncodable(z, toks0, p0)
    {
      hide Shown, CMatches, BitWriter.Valid, EncodeFrom, EncodeBlock, HeadEnd, EobTokens, Mag, Uncodable, ToBits;
      ghost var br := bitBuffer[base..base + nbr];
      SendsInHead(sc, z, k);
      ok := ClearPending(z, toks0, p0, k, r, br);
      if !ok {
        return;
      }
      NonePending(Pend());
      FromNew(sc, z, k, r, br);
      ghost var rest := EncodeFrom(sc, z, k + 1, 0, [], NONE);
      ghost var sign := Raw([positive]);
      SplitThree(Sym(16 * r + 1), sign, Raw(br), rest);
      ok := EmitNext(16 * r + 1, z, toks0, p0, Then([sign], Then([Raw(br)], rest)));
      if ok {
        OneBitOut(positive);
        MoreThen(toks, [sign], Then([Raw(br)], rest));
        EmitBits(if positive then 1 else 0, 1);
        MoreThen(toks, [Raw(br)], rest);
        EmitBufferedBits(base, nbr);
      }
    }

    lemma UnderwayStart(z: Block)
      requires Valid()
      ensures Underway(z, toks, Pend(), sc.ss, 0, [])
    {
      hide Shown, CMatches, BitWriter.Valid, EncodeFrom, EncodeBlock;
      EncodeFromStart(sc, z, Pend());
    }

    lemma UnderwayZero(z: Block, toks0: seq<Token>, p0: AcScan.Pending, k: nat, r: nat, br: BitSeq)
      requires Underway(z, toks0, p0, k, r, br) && k <= sc.se && Mag(z[k], sc.al) == 0
      ensures Underway(z, toks0, p0, k + 1, r + 1, br)
    {
      hide Shown, CMatches, BitWriter.Valid, EncodeFrom, EncodeBlock, Mag;
      FromZero(sc, z, k, r, br, Pend());
    }

    lemma UnderwayEnd(z: Block, toks0: seq<Token>, p0: AcScan.Pending, r: nat, br: BitSeq)
      requires Underway(z, toks0, p0, sc.se + 1, r, br) && HeadEnd(sc, z) > sc.se
      ensures (toks, Pend()) == Then(toks0, EncodeBlock(sc, z, p0))
    {
      hide Shown, CMatches, BitWriter.Valid, EncodeFrom, EncodeBlock, HeadEnd;
      FromEnd(sc, z, r, br, Pend());
      assert toks + [] == toks;
    }

    /** Buffer the correction bit of coefficient `k`. */
    method Append(ghost z: Block, ghost toks0: seq<Token>, ghost p0: AcScan.Pending, ghost k: nat, ghost r: nat,
          base: nat, nbr: nat, bit: bool)
      requires Valid() && base == be && base + nbr < MAX_CORR_BITS
          && Underway(z, toks0, p0, k, r, bitBuffer[base..base + nbr])
      requires sc.mode == Refine && k <= sc.se && Mag(z[k], sc.al) > 1 && bit == (Mag(z[k], sc.al) % 2 == 1)
      requires r <= 15 || HeadEnd(sc, z) <= k
      modifies bitBuffer
      ensures Valid() && Underway(z, toks0, p0, k + 1, r, bitBuffer[base..base + nbr + 1])
    {
      hide Shown, CMatches, BitWriter.Valid, EncodeFrom, EncodeBlock, HeadEnd, Mag;
      ghost var p, br := Pend(), bitBuffer[base..base + nbr];
      FromCorrection(sc, z, k, r, br, p);
      bitBuffer[base + nbr] := bit;
      assert Pend() == p && bitBuffer[base..base + nbr + 1] == br + [bit];
    }

    /** encode_mcu_AC_refine: succeeds just when, in an output pass, all symbols have codes. */
    method EncodeMcuRefine(block: seq<int>) returns (ok: bool)
      requires Valid() && |block| == 64 && sc.mode == Refine
      modifies this`toks, this`eobrun, this`be, w, counts, bitBuffer
      ensures ok ==> Valid() && w.done == old(w.done)
      ensures ok ==> (toks, Pend()) == Then(old(toks), EncodeBlock(sc, ZigzagOf(block), old(Pend())))
      ensures ok <==> !Uncodable(ZigzagOf(block), old(toks), old(Pend()))
    {
      hide Shown, CMatches, BitWriter.Valid, Underway, EncodeFrom, EncodeBlock, HeadEnd, ZigzagOf, Natural,
          Mag, Uncodable, Magnitudes, Sends;
      ghost var z, toks0, p0 := ZigzagOf(block), toks, Pend();
      var absvalues, eob := PrePass(sc, block);
      UnderwayStart(z);
      var r: nat, k: nat := 0, sc.ss;
      var base: nat, nbr: nat := be, 0;
      assert bitBuffer[base..base + nbr] == [];
      while k <= sc.se
        invariant Valid() && sc.ss <= k <= sc.se + 1 && base == be && nbr <= k - sc.ss
        invariant Underway(z, toks0, p0, k, r, bitBuffer[base..base + nbr]) && w.done == old(w.done)
        invariant k >= HeadEnd(sc, z) ==> (r > 0 || nbr > 0 <==> k > HeadEnd(sc, z))
      {
        CoefAt(sc, z, block, k);
        MagnitudeAt(sc, z, absvalues, k);
        RefineSends(sc, z, k);
        var temp := absvalues[k];
        if temp == 0 {
          UnderwayZero(z, toks0, p0, k, r, bitBuffer[base..base + nbr]);
          r := r + 1;
          k := k + 1;
          continue;
        }
        ok, r, base, nbr := EmitZrls(z, toks0, p0, k, r, base, nbr, eob);
        if !ok {
          return;
        }
        if temp > 1 {
          Append(z, toks0, p0, k, r, base, nbr, temp % 2 == 1);
          nbr := nbr + 1;
          k := k + 1;
          continue;
        }
        ok := EmitNew(z, toks0, p0, k, r, base, nbr, !(block[Natural(k)] < 0));
        if !ok {
          return;
        }
        base, nbr, r := 0, 0, 0;
        assert bitBuffer[base..base + nbr] == [];
        k := k + 1;
      }
      ok := true;
      if r > 0 || nbr > 0 {
        ok := CountEob(z, toks0, p0, r, nbr);
      } else {
        UnderwayEnd(z, toks0, p0, r, bitBuffer[base..base + nbr]);
      }
      if ok {
        AllCoded(z, toks0, p0);
      }
    }

    /** The tokens of the current segment, were it to end here. */
    ghost function Segment(): seq<Token>
      requires Valid()
      reads this, w, counts, bitBuffer
    {
      toks + EobTokens(Pend())
    }

    /** emit_restart. */
    method EmitRestart(num: nat) returns (ok: bool)
      requires Valid() && num < 8
      modifies this`toks, this`past, this`eobrun, this`be, w, counts
      ensures ok ==> Valid() && toks == [] && Pend() == NONE && past == old(past) + old(Segment())
      ensures ok && gather ==> w.done == old(w.done)
      ensures ok && !gather ==> Closes(t, old(Segment()), old(w.done), RestartMarker(num), w.done)
      ensures !ok ==> !gather && Missing(t, old(Segment()))
    {
      hide CMatches, BitWriter.Valid, EobTokens, Coded, SegmentBytes, HuffTable.Shaped, HuffTable.ValidCounts,
          CountsAre;
      ghost var before := toks;
      ghost var eob := EobTokens(Pend());
      ok := EmitEobrun();
      if !ok {
        MissingLast(t, before, eob);
        return;
      }
      if !gather {
        w.FlushBits();
        w.EmitMarker(RST0 + num);
        NoTokens(t);
      }
      assert past + toks + [] == past + toks;
      past, toks := past + toks, [];
      eobrun, be := 0, 0;
    }

    /** finish_pass_phuff. */
    method FinishPass() returns (ok: bool)
      requires Valid() && !gather
      modifies this`toks, this`eobrun, this`be, w, counts
      ensures ok ==> Closes(t, old(Segment()), old(w.done), [], w.out)
      ensures !ok ==> Missing(t, old(Segment()))
    {
      hide CMatches, BitWriter.Valid, EobTokens, Coded, SegmentBytes, HuffTable.Shaped, HuffTable.ValidCounts,
          CountsAre;
      ghost var before := toks;
      ghost var eob := EobTokens(Pend());
      ok := EmitEobrun();
      if ok {
        w.FlushBits();
      } else {
        MissingLast(t, before, eob);
      }
    }

    /** The counting done by finish_pass_gather_phuff before it builds the table. */
    method FinishGather() returns (ok: bool)
      requires Valid() && gather
      modifies this`toks, this`eobrun, this`be, w, counts
      ensures ok && CountsAre(counts[..], past + old(Segment()))
    {
      hide CMatches, BitWriter.Valid, EobTokens, CountsAre;
      ok := EmitEobrun();
    }

    /** Nothing to emit. */
    ghost method NoBits(v: int)
      requires Ready()
      modifies this`toks
      ensures Ready() && toks == old(toks) + [Raw(ToBits(v, 0))]
    {
      hide Shown, CMatches, BitWriter.Valid;
      ShowRaw(gather, t, past, toks, w.segment, counts[..], []);
      assert w.segment + [] == w.segment && ToBits(v, 0) == [];
      toks := toks + [Raw([])];
    }
  }

  lemma MoreThen(a: seq<Token>, b: seq<Token>, rest: (seq<Token>, Pending))
    ensures Then(a, Then(b, rest)) == Then(a + b, rest)
  {
    assert a + (b + rest.0) == (a + b) + rest.0;
  }

  /** An uncoded part makes the whole uncoded. */
  lemma UncodedInside(t: HuffTable, all: seq<Token>, a: seq<Token>, part: seq<Token>, b: seq<Token>)
    requires t.Shaped() && all == a + (part + b) && !Coded(t, part)
    ensures !Coded(t, all)
  {
    hide HuffTable.HasCode;
    var i :| 0 <= i < |part| && part[i].Sym? && !t.HasCode(part[i].sym);
    assert all[|a| + i] == part[i];
  }

  lemma NonePending(p: Pending)
    requires p.eobrun == 0 && |p.be| == 0
    ensures p == NONE
  {
  }

  /** A nonzero coefficient after the point transform, and the bits to send for it. */
  predicate CoefIs(al: nat, z: Block, k: nat, temp: nat, temp2: int)
  {
    k < 64 && temp == Mag(z[k], al) != 0 && temp2 == (if z[k] < 0 then -(temp as int) - 1 else temp)
  }

  lemma CoefTokens(sc: Scan, z: Block, k: nat, r: nat, temp: nat, temp2: int, nbits: nat)
    requires sc.Valid() && sc.mode == Initial && sc.ss <= k <= sc.se && r <= 15 && nbits == BitLen(temp)
    requires CoefIs(sc.al, z, k, temp, temp2)
    ensures nbits >= 1
    ensures EncodeFrom(sc, z, k, r, [], NONE)
         == Then([Sym(16 * r + nbits)], Then([Raw(ToBits(temp2, nbits))], EncodeFrom(sc, z, k + 1, 0, [], NONE)))
  {
    hide EncodeFrom, ToBits, Mag;
    FromInitial(sc, z, k, r);
    var a, b := Sym(16 * r + nbits), Raw(ToBits(temp2, nbits));
    MoreThen([a], [b], EncodeFrom(sc, z, k + 1, 0, [], NONE));
    assert [a] + [b] == [a, b];
  }

  lemma CoefAt(sc: Scan, z: Block, block: seq<int>, k: nat)
    requires |block| == 64 && z == ZigzagOf(block) && sc.Valid() && k <= sc.se
    ensures block[Natural(k)] == z[k]
    ensures sc.mode == Initial ==> (Sends(sc, z[k]) <==> Mag(z[k], sc.al) != 0)
    ensures Mag(z[k], sc.al) != 0 ==>
        CoefIs(sc.al, z, k, Mag(z[k], sc.al), if z[k] < 0 then -(Mag(z[k], sc.al) as int) - 1 else Mag(z[k], sc.al))
  {
    hide Natural, Mag;
  }

  /** The coefficients before `k` are in the range the encoder accepts. */
  predicate SmallBefore(sc: Scan, z: Block, k: nat)
    requires k <= 64
  {
    forall i | sc.ss <= i < k :: Mag(z[i], sc.al) < Pow2(MAX_COEF_BITS)
  }

  lemma SmallStart(sc: Scan, z: Block)
    requires sc.Valid() && sc.mode == Initial
    ensures SmallBefore(sc, z, sc.ss)
    ensures SmallBefore(sc, z, sc.se + 1) <==> InRange(sc, z)
  {
    hide Mag, Pow2;
  }

  /** The range check on coefficient `k`. */
  lemma RangeAt(sc: Scan, z: Block, k: nat)
    requires sc.Valid() && sc.ss <= k <= sc.se && SmallBefore(sc, z, k)
    ensures BitLen(Mag(z[k], sc.al)) <= MAX_COEF_BITS <==> SmallBefore(sc, z, k + 1)
    ensures BitLen(Mag(z[k], sc.al)) > MAX_COEF_BITS ==> !SmallBefore(sc, z, sc.se + 1)
    ensures BitLen(0) == 0
  {
    hide Mag;
    var m := Mag(z[k], sc.al);
    if BitLen(m) <= MAX_COEF_BITS {
      Pow2Mono(BitLen(m), MAX_COEF_BITS);
    } else if m < Pow2(MAX_COEF_BITS) {
      BitLenBound(m, MAX_COEF_BITS);
    }
  }

  lemma SplitThree(a: Token, b: Token, c: Token, rest: (seq<Token>, Pending))
    ensures Then([a, b, c], rest) == Then([a], Then([b], Then([c], rest)))
  {
    assert [a, b, c] + rest.0 == [a] + ([b] + ([c] + rest.0));
  }

  ghost predicate Magnitudes(sc: Scan, z: Block, absvalues: seq<nat>)
    requires sc.Valid()
  {
    |absvalues| == 64 && forall k | sc.ss <= k <= sc.se :: absvalues[k] == Mag(z[k], sc.al)
  }

  lemma MagnitudeAt(sc: Scan, z: Block, absvalues: seq<nat>, k: nat)
    requires sc.Valid() && Magnitudes(sc, z, absvalues) && sc.ss <= k <= sc.se
    ensures |absvalues| == 64 && absvalues[k] == Mag(z[k], sc.al)
  {
    hide Mag;
  }

  function LastBefore(e: nat, ss: nat): nat { if e > ss then e - 1 else 0 }

  /** The magnitudes of a band after the point transform, and the last one that becomes nonzero
      (0 if there is none). */
  method PrePass(sc: Scan, block: seq<int>) returns (absvalues: seq<nat>, eob: nat)
    requires sc.Valid() && |block| == 64 && sc.mode == Refine
    ensures Magnitudes(sc, ZigzagOf(block), absvalues)
    ensures eob == LastBefore(HeadEnd(sc, ZigzagOf(block)), sc.ss)
  {
    hide Mag, Natural, EndBefore, ZigzagOf;
    ghost var z := ZigzagOf(block);
    var a := new nat[64](_ => 0);
    eob := 0;
    EndStart(sc, z);
    for k := sc.ss to sc.se + 1
      invariant forall i | sc.ss <= i < k :: a[i] == Mag(z[i], sc.al)
      invariant eob == LastBefore(EndBefore(sc, z, k), sc.ss)
    {
      CoefAt(sc, z, block, k);
      var temp := Mag(block[Natural(k)], sc.al);
      a[k] := temp;
      EndNext(sc, z, k);
      if temp == 1 {
        eob := k;
      }
    }
    absvalues := a[..];
  }

  lemma EndStart(sc: Scan, z: Block)
    requires sc.Valid()
    ensures EndBefore(sc, z, sc.ss) == sc.ss
  {
  }

  lemma EndNext(sc: Scan, z: Block, k: nat)
    requires sc.Valid() && sc.mode == Refine && sc.ss <= k <= sc.se
    ensures EndBefore(sc, z, k + 1) == if Mag(z[k], sc.al) == 1 then k + 1 else EndBefore(sc, z, k)
  {
    hide Mag;
  }

  lemma NoTokens(t: HuffTable)
    requires t.Shaped() && t.ValidCounts()
    ensures Coded(t, []) && ToksBits(t, []) == []
  {
  }

  lemma RefineSends(sc: Scan, z: Block, k: nat)
    requires sc.Valid() && sc.mode == Refine && sc.ss <= k <= sc.se
    ensures Mag(z[k], sc.al) == 1 ==> k < HeadEnd(sc, z)
    ensures Mag(z[k], sc.al) != 1 ==> k + 1 != HeadEnd(sc, z)
  {
    hide HeadEnd, Mag;
    SendsInHead(sc, z, k);
  }

  lemma EobParts(p: Pending)
    ensures p.eobrun == 0 ==> EobTokens(p) == []
    ensures p.eobrun > 0 ==>
        BitLen(p.eobrun) >= 1 && EobTokens(p)
            == [Sym(16 * (BitLen(p.eobrun) - 1)), Raw(ToBits(p.eobrun, BitLen(p.eobrun) - 1)), Raw(p.be)]
  {
  }

  lemma ThreeMore(toks: seq<Token>, a: Token, b: Token, c: Token)
    ensures toks + [a] + [b] + [c] == toks + [a, b, c]
  {
  }

  method RunCategory(run: nat) returns (nbits: nat)
    requires 0 < run <= MAX_EOBRUN
    ensures nbits == BitLen(run) - 1 && nbits <= 14
  {
    RunBits(run);
    nbits := 0;
    var temp: nat := run / 2;
    while temp != 0
      invariant BitLen(run) == 1 + nbits + BitLen(temp)
    {
      nbits := nbits + 1;
      temp := temp / 2;
    }
  }

  lemma EncoderTables(gather: bool, t: HuffTable, c: CDerived)
    requires gather || CMatches(t, c)
    ensures gather || (t.Shaped() && t.ValidCounts())
  {
  }

  lemma RunBits(run: nat)
    requires 0 < run <= MAX_EOBRUN
    ensures 1 <= BitLen(run) <= 15
  {
    Pow2Values();
    BitLenBound(run, 15);
  }

  lemma FirstUncoded(t: HuffTable, toks: seq<Token>)
    requires t.Shaped() && toks != [] && toks[0].Sym? && !t.HasCode(toks[0].sym)
    ensures !Coded(t, toks)
  {
    hide HuffTable.HasCode;
  }

  lemma OneBitOut(bit: bool)
    ensures ToBits(if bit then 1 else 0, 1) == [bit]
  {
    assert ToBits(0, 0) == [] && ToBits(1 / 2, 0) == [];
  }

  lemma Entry(t: HuffTable, c: CDerived, s: nat)
    requires CMatches(t, c) && s < 256
    ensures t.Shaped() && t.ValidCounts() && |c.ehufco| == 256 && |c.ehufsi| == 256 && c.ehufsi[s] <= 16
    ensures c.ehufsi[s] != 0 <==> t.HasCode(s)
    ensures t.HasCode(s) ==> ToBits(c.ehufco[s], c.ehufsi[s]) == t.EncodeSym(s)
  {
    hide HuffTable.HasCode, HuffTable.Index, HuffTable.Code;
    assert EntryMatches(t, c, s);
  }
}
