/** Decoding a progressive AC scan from a source that delivers its data piece by piece: every
    interrupted attempt is repeated from the start of the block, and the outcome is that of an
    uninterrupted run over all the data. */
module Suspension {
  import opened Bits
  import opened Reading
  import opened Coef
  import opened Huffman
  import opened HuffTables
  import opened HuffDecoding
  import opened BitOutput
  import opened BitInput
  import opened AcScan
  import opened AcResume
  import opened AcDecoder
  import opened AcFirstDecoder
  import opened Segments
  import opened Arrival
  import opened Zigzag

  // ---------------------------------------------------------------- more bits

  /** What a stage yields from some bits it yields from those bits and more. */
  lemma {:induction false} ResumeExtends(t: HuffTable, sc: Scan, st: Stage, d: Block, bs: BitSeq, ext: BitSeq)
    requires t.Shaped() && t.ValidCounts() && Legal(sc, st) && Resume(t, sc, st, d, bs).Got?
    ensures Resume(t, sc, st, d, bs + ext) == Got(Resume(t, sc, st, d, bs).value, Resume(t, sc, st, d, bs).rest + ext)
    decreases sc.se + 1 - st.k, st.AtCode?
  {
    hide Resume, Correct, NextCode, HuffTable.Shaped, HuffTable.ValidCounts;
    if st.k > sc.se {
      AtBandEnd(t, sc, st, d, bs);
      AtBandEnd(t, sc, st, d, bs + ext);
    } else if st.AtCode? {
      CodeUnfolds(t, sc, d, st.k, bs);
      var c := NextCode(t, sc.al, bs);
      NextCodeExtends(t, sc.al, bs, ext);
      CodeUnfolds(t, sc, d, st.k, bs + ext);
      ResumeExtends(t, sc, AfterCode(st.k, c.value), d, c.rest, ext);
    } else if d[st.k] != 0 {
      CorrectUnfolds(t, sc, st, d, bs);
      CorrectUnfolds(t, sc, st, d, bs + ext);
      assert (bs + ext)[1..] == bs[1..] + ext;
      ResumeExtends(t, sc, PastOne(st), d[st.k := Correct(d[st.k], bs[0], sc.al)], bs[1..], ext);
    } else {
      ZeroUnfolds(t, sc, st, d, bs);
      ZeroUnfolds(t, sc, st, d, bs + ext);
      ResumeExtends(t, sc, AfterZero(st), d[st.k := ZeroBecomes(st)], bs, ext);
    }
  }

  lemma BlockExtends(t: HuffTable, sc: Scan, d: Block, run: nat, bs: BitSeq, ext: BitSeq)
    requires t.Shaped() && t.ValidCounts() && sc.Valid() && DecodeBlock(t, sc, d, run, bs).Got?
    ensures DecodeBlock(t, sc, d, run, bs + ext)
        == Got(DecodeBlock(t, sc, d, run, bs).value, DecodeBlock(t, sc, d, run, bs).rest + ext)
  {
    hide Resume, InitialLoop, RefineLoop, CorrectTail, HuffTable.Shaped, HuffTable.ValidCounts;
    if sc.mode == Refine {
      StartIsDecode(t, sc, d, run, bs);
      StartIsDecode(t, sc, d, run, bs + ext);
      ResumeExtends(t, sc, Start(sc, run), d, bs, ext);
    } else if run == 0 {
      FirstExtends(t, sc, d, sc.ss, bs, ext);
    }
  }

  // ---------------------------------------------------------------- repeated attempts

  /** A block left by an attempt on some bits is as good as the original one on more of them. */
  lemma StillInterchangeable(t: HuffTable, sc: Scan, b: seq<int>, b': seq<int>, run: nat, bits: BitSeq, more: BitSeq)
    requires Interchangeable(t, sc, b, b', run, bits)
    ensures Interchangeable(t, sc, b, b', run, bits + more)
  {
    hide DecodeBlock, ZigzagOf, HuffTable.Shaped, HuffTable.ValidCounts;
    forall ext: BitSeq
      ensures SameWith(t, sc, b, b', run, bits + more, ext)
    {
      assert SameWith(t, sc, b, b', run, bits, more + ext);
      assert (bits + more) + ext == bits + (more + ext);
    }
  }

  lemma InterchangeableTwice(t: HuffTable, sc: Scan, b: seq<int>, b': seq<int>, b'': seq<int>, run: nat, bits: BitSeq)
    requires Interchangeable(t, sc, b, b', run, bits) && Interchangeable(t, sc, b', b'', run, bits)
    ensures Interchangeable(t, sc, b, b'', run, bits)
  {
    hide DecodeBlock, ZigzagOf, HuffTable.Shaped, HuffTable.ValidCounts;
    forall ext: BitSeq
      ensures SameWith(t, sc, b, b'', run, bits, ext)
    {
      assert SameWith(t, sc, b, b', run, bits, ext);
      assert SameWith(t, sc, b', b'', run, bits, ext);
    }
  }

  lemma InterchangeableSelf(t: HuffTable, sc: Scan, b: seq<int>, run: nat, bits: BitSeq)
    requires |b| == 64 && t.Shaped() && t.ValidCounts() && sc.Valid()
    ensures Interchangeable(t, sc, b, b, run, bits)
  {
    hide DecodeBlock, ZigzagOf, HuffTable.Shaped, HuffTable.ValidCounts;
  }

  /** An attempt on what earlier attempts have left of block `b0`. */
  method Attempt(dec: BandDecoder, block: array<int>, ghost b0: seq<int>) returns (ok: bool)
    requires dec.Valid() && block.Length == 64 && !dec.br.insufficient
    requires Interchangeable(dec.t, dec.sc, b0, block[..], dec.eobrun, dec.br.Avail())
    modifies dec, dec.br, block
    ensures dec.Valid() && dec.br.data == old(dec.br.data)
    ensures dec.br.Follows(old(dec.br.pos), old(dec.br.unreadMarker), old(dec.br.insufficient))
    ensures ok && !dec.br.insufficient ==>
      DecodeBlock(dec.t, dec.sc, ZigzagOf(b0), old(dec.eobrun), old(dec.br.Avail()))
          == Got((ZigzagOf(block[..]), dec.eobrun), dec.br.Avail())
    ensures !ok ==>
        dec.br.Stuck(old(dec.br.data), old(dec.br.pos), old(dec.br.getBuffer), old(dec.br.bitsLeft),
            old(dec.br.unreadMarker), false)
    ensures !ok ==> dec.br.Avail() == old(dec.br.Avail()) && dec.eobrun == old(dec.eobrun)
    ensures !ok ==> Interchangeable(dec.t, dec.sc, b0, block[..], dec.eobrun, dec.br.Avail())
  {
    hide DecodeBlock, ZigzagOf, HuffTable.Shaped, HuffTable.ValidCounts, ToRead, Dry, DMatches, Interchangeable, ToBits;
    ghost var b1, run, bits := block[..], dec.eobrun, dec.br.Avail();
    ghost var zeros;
    ok, zeros := DecodeMcu(dec, block);
    if ok {
      SameResult(dec.t, dec.sc, b0, b1, run, bits);
      NoZeroes(bits);
    } else {
      InterchangeableTwice(dec.t, dec.sc, b0, b1, block[..], run, bits);
    }
  }

  lemma SameResult(t: HuffTable, sc: Scan, b: seq<int>, b': seq<int>, run: nat, bits: BitSeq)
    requires Interchangeable(t, sc, b, b', run, bits)
    ensures |b| == 64 && |b'| == 64 && t.Shaped() && t.ValidCounts() && sc.Valid()
    ensures DecodeBlock(t, sc, ZigzagOf(b'), run, bits) == DecodeBlock(t, sc, ZigzagOf(b), run, bits)
  {
    hide DecodeBlock, ZigzagOf, HuffTable.Shaped, HuffTable.ValidCounts;
    assert SameWith(t, sc, b, b', run, bits, []);
    assert bits + [] == bits;
  }

  /** What a reader that has followed the data from `from` has read, it reads with more data as well. */
  lemma ResultWithAll(t: HuffTable, sc: Scan, b: seq<int>, run: nat, br: BitReader, from: Spot, more: seq<Byte>,
        res: (Block, nat))
    requires t.Shaped() && t.ValidCounts() && sc.Valid() && |b| == 64
    requires br.Valid() && from.pos <= |br.data|
        && Ahead(br.data, br.pos, br.unreadMarker) == Ahead(br.data, from.pos, from.marker)
    requires DecodeBlock(t, sc, ZigzagOf(b), run, from.ToRead(br.data)) == Got(res, br.Avail())
    ensures DecodeBlock(t, sc, ZigzagOf(b), run, from.ToRead(br.data + more)) == Got(res, br.AvailWith(more))
  {
    hide DecodeBlock, ZigzagOf, HuffTable.Shaped, HuffTable.ValidCounts, ToRead, Ahead, LaterBits;
    ToReadArrives(br.data, more, from.pos, from.buffer, from.bits, from.marker);
    ToReadArrives(br.data, more, br.pos, br.getBuffer, br.bitsLeft, br.unreadMarker);
    BlockExtends(t, sc, ZigzagOf(b), run, from.ToRead(br.data),
        LaterBits(br.data + more, Ahead(br.data, br.pos, br.unreadMarker)));
  }

  /** Decode one block, waiting for the next chunk of data whenever the source runs dry.  However
      the data is cut into chunks, the block, the run and the bits that remain are those of one run
      over all of it. */
  method DecodeFromChunks(dec: BandDecoder, block: array<int>, chunks: seq<seq<Byte>>)
    returns (ok: bool, used: nat)
    requires dec.Valid() && block.Length == 64 && !dec.br.insufficient
    modifies dec, dec.br, block
    ensures dec.Valid() && used <= |chunks| && dec.br.data == old(dec.br.data) + Joined(chunks[..used])
    ensures ok && !dec.br.insufficient ==>
      DecodeBlock(dec.t, dec.sc, ZigzagOf(old(block[..])), old(dec.eobrun), old(dec.br.AvailWith(Joined(chunks))))
      == Got((ZigzagOf(block[..]), dec.eobrun), dec.br.AvailWith(Joined(chunks[used..])))
    ensures !ok ==>
        used == |chunks| && dec.eobrun == old(dec.eobrun) && Dry(dec.br.data, dec.br.pos, dec.br.unreadMarker)
  {
    hide DecodeBlock, ZigzagOf, HuffTable.Shaped, HuffTable.ValidCounts, ToRead, Dry, DMatches, Interchangeable,
        Joined, Ahead;
    used := 0;
    ghost var b0, run, data := block[..], dec.eobrun, dec.br.data;
    ghost var from := Spot(dec.br.pos, dec.br.getBuffer, dec.br.bitsLeft, dec.br.unreadMarker);
    assert chunks[..0] == [] && data + [] == data;
    NoneJoined();
    TableSizes(dec.t, dec.d);
    InterchangeableSelf(dec.t, dec.sc, b0, run, dec.br.Avail());
    ok := Attempt(dec, block, b0);
    while !ok && used < |chunks|
      invariant dec.Valid() && used <= |chunks| && dec.br.data == data + Joined(chunks[..used])
      invariant ok && !dec.br.insufficient ==>
          DecodeBlock(dec.t, dec.sc, ZigzagOf(b0), run, from.ToRead(dec.br.data))
              == Got((ZigzagOf(block[..]), dec.eobrun), dec.br.Avail())
      invariant ok ==> Ahead(dec.br.data, dec.br.pos, dec.br.unreadMarker) == Ahead(dec.br.data, from.pos, from.marker)
      invariant !ok ==>
          dec.br.Stuck(dec.br.data, from.pos, from.buffer, from.bits, from.marker, false) && dec.eobrun == run
      invariant !ok ==> Interchangeable(dec.t, dec.sc, b0, block[..], run, dec.br.Avail())
    {
      ghost var bits := dec.br.Avail();
      ToReadArrives(dec.br.data, chunks[used], from.pos, from.buffer, from.bits, from.marker);
      StillInterchangeable(dec.t, dec.sc, b0, block[..], run, bits,
          LaterBits(dec.br.data + chunks[used], Ahead(dec.br.data, from.pos, from.marker)));
      JoinedPrefix(chunks, used);
      dec.br.data := dec.br.data + chunks[used];
      used := used + 1;
      ok := Attempt(dec, block, b0);
    }
    if ok && !dec.br.insufficient {
      JoinedSplit(chunks, used);
      assert data + Joined(chunks) == dec.br.data + Joined(chunks[used..]);
      ResultWithAll(dec.t, dec.sc, b0, run, dec.br, from, Joined(chunks[used..]), (ZigzagOf(block[..]), dec.eobrun));
    }
  }

  lemma NoneJoined()
    ensures Joined<Byte>([]) == []
  {
  }
}
