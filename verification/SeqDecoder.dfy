/** decode_mcu of the sequential decoder: the blocks of an MCU, in place, from a source that may run dry
    at any bit. */
module SeqDecoder {
  import opened Bits
  import opened Reading
  import opened Coef
  import opened Huffman
  import opened HuffTables
  import opened BitOutput
  import opened BitInput
  import opened HuffDecoding
  import opened AcScan
  import opened AcResume
  import opened AcDecoder
  import opened DcScan
  import opened SeqScan
  import opened SeqMcu
  import opened Zigzag

  // ---------------------------------------------------------------- one code

  /** A symbol, and as many bits as its low half says. */
  function SymBits(t: HuffTable, bs: BitSeq): Read<(nat, nat)>
    requires t.Shaped() && t.ValidCounts()
  {
    var (sym, b1) :- t.DecodeSym(bs);
    var (x, b2) :- Take(sym % 16, b1);
    Got((sym, x), b2)
  }

  lemma SymBitsExtend(t: HuffTable, bs: BitSeq, ext: BitSeq)
    requires t.Shaped() && t.ValidCounts() && SymBits(t, bs).Got?
    ensures SymBits(t, bs + ext) == Got(SymBits(t, bs).value, SymBits(t, bs).rest + ext)
  {
    hide HuffTable.DecodeSym, HuffTable.Shaped, HuffTable.ValidCounts, Take;
    DecodeExtends(t, bs, ext);
    var y := t.DecodeSym(bs);
    TakeExtends(y.value % 16, y.rest, ext);
  }

  lemma SymBitsRead(t: HuffTable, a: BitSeq, z1: nat, sym: nat, a1: BitSeq, z2: nat, x: nat, a2: BitSeq)
    requires t.Shaped() && t.ValidCounts() && t.DecodeSym(a + ToBits(0, z1)) == Got(sym, a1)
    requires Take(sym % 16, a1 + ToBits(0, z2)) == Got(x, a2)
    ensures SymBits(t, a + ToBits(0, z1 + z2)) == Got((sym, x), a2)
    ensures z1 == 0 && |a1| < sym % 16 ==> SymBits(t, a) == More
  {
    hide ToBits, HuffTable.DecodeSym, HuffTable.Shaped, HuffTable.ValidCounts, Take;
    PadTwice(a, z1, z2);
    NoZeroes(a);
    DecodeExtends(t, a + ToBits(0, z1), ToBits(0, z2));
  }

  /** HUFF_DECODE, then CHECK_BIT_BUFFER and GET_BITS for the value, if it has one. */
  method ReadSymBits(br: BitReader, t: HuffTable, d: DDerived) returns (ok: bool, sym: nat, x: nat, ghost zeros: nat)
    requires br.Valid() && DMatches(t, d)
    modifies br
    ensures br.Valid() && br.data == old(br.data) && t.Shaped() && t.ValidCounts() && sym < 256
    ensures br.Follows(old(br.pos), old(br.unreadMarker), old(br.insufficient))
    ensures ok ==> SymBits(t, old(br.Avail()) + ToBits(0, zeros)) == Got((sym, x), br.Avail())
    ensures ok && zeros == 0 ==> br.insufficient == old(br.insufficient)
    ensures ok && zeros > 0 ==> br.insufficient && br.unreadMarker != 0 && SymBits(t, old(br.Avail())) == More
    ensures !ok ==> Dry(br.data, br.pos, br.unreadMarker)
  {
    hide ToBits, DMatches, ToRead, HuffTable.Shaped, HuffTable.DecodeSym, HuffTable.ValidCounts, Take;
    TableSizes(t, d);
    ghost var a := br.Avail();
    x := 0;
    ok, sym, zeros := HuffDecode(br, t, d);
    if !ok {
      sym := 0;
      return;
    }
    ghost var a1 := br.Avail();
    ghost var more := 0;
    SymbolIsByte(t, a + ToBits(0, zeros));
    NoZeroes(a1);
    TakeNone(a1);
    if sym % 16 != 0 {
      ok, x, more := br.Fetch(sym % 16);
      if !ok {
        return;
      }
    }
    SymBitsRead(t, a, zeros, sym, a1, more, x, br.Avail());
    zeros := zeros + more;
  }

  // ---------------------------------------------------------------- one block

  /** What the AC loop does at coefficient `k`. */
  lemma AcUnfolds(t: HuffTable, d: Block, k: nat, bs: BitSeq)
    requires t.Shaped() && t.ValidCounts() && k < 64
    ensures var y := SymBits(t, bs);
      && (y.More? ==> AcLoop(t, d, k, bs) == More)
      && (y.Got? ==> var r, s := y.value.0 / 16, y.value.0 % 16;
        AcLoop(t, d, k, bs) == if s != 0 then AcLoop(t, d[Slot(k + r) := Extend(y.value.1, s)], k + r + 1, y.rest)
          else if r != 15 then Got(d, y.rest) else AcLoop(t, d, k + 16, y.rest))
  {
    hide HuffTable.DecodeSym, HuffTable.Shaped, HuffTable.ValidCounts, Take, Extend;
    var y := t.DecodeSym(bs);
    if y.Got? {
      TakeNone(y.rest);
    }
  }

  lemma SmallSymbol(t: HuffTable, bs: BitSeq)
    requires t.Shaped() && t.ValidCounts() && t.SymbolsAtMost(15) && t.DecodeSym(bs).Got?
    ensures t.DecodeSym(bs).value <= 15
  {
    hide HuffTable.First, Value, HuffTable.ValidCounts;
    var l := t.Stop(bs, 1);
    if l <= 16 {
      t.MissAtLeastFirst(bs, l);
      InTable(t, l, Value(bs[..l]));
    }
  }

  lemma InTable(t: HuffTable, l: nat, code: nat)
    requires t.Shaped() && t.ValidCounts() && t.SymbolsAtMost(15) && 1 <= l <= 16
        && t.First(l) <= code < t.First(l) + t.bits[l]
    ensures t.SymbolAt(l, code) <= 15
  {
    hide HuffTable.First, HuffTable.ValidCounts;
    t.CountMono(l, 16);
    assert t.Count(l - 1) + (code - t.First(l)) < t.Count(l);
  }

  lemma DiffUnfolds(t: HuffTable, bs: BitSeq)
    requires t.Shaped() && t.ValidCounts() && t.SymbolsAtMost(15)
    ensures var y := SymBits(t, bs);
      && (y.More? ==> DecodeDiff(t, bs) == More)
      && (y.Got? ==>
         y.value.0 <= 15 && DecodeDiff(t, bs)
             == Got(if y.value.0 == 0 then 0 else Extend(y.value.1, y.value.0), y.rest))
  {
    hide HuffTable.DecodeSym, HuffTable.Shaped, HuffTable.ValidCounts, HuffTable.SymbolsAtMost, Take, Extend;
    var y := t.DecodeSym(bs);
    if y.Got? {
      SmallSymbol(t, bs);
      TakeNone(y.rest);
    }
  }

  /** From `d` and the bits `a`, the AC loop comes to coefficient `k` with `cur` and the bits `b`, whatever
      bits are still to come. */
  ghost predicate AcMidway(t: HuffTable, d: Block, a: BitSeq, cur: Block, k: nat, b: BitSeq)
  {
    t.Shaped() && t.ValidCounts() && SameFrom(d, cur, k) && forall ext: BitSeq :: AcSame(t, d, a, cur, k, b, ext)
  }

  predicate SameFrom(d: Block, cur: Block, k: nat) { forall i | k <= i < 64 :: cur[i] == d[i] }

  ghost predicate AcSame(t: HuffTable, d: Block, a: BitSeq, cur: Block, k: nat, b: BitSeq, ext: BitSeq)
    requires t.Shaped() && t.ValidCounts()
  {
    AcLoop(t, d, 1, a + ext) == AcLoop(t, cur, k, b + ext)
  }

  lemma AcStarts(t: HuffTable, d: Block, a: BitSeq)
    requires t.Shaped() && t.ValidCounts()
    ensures AcMidway(t, d, a, d, 1, a)
  {
    hide HuffTable.Shaped, HuffTable.ValidCounts, AcLoop;
  }

  lemma AcNow(t: HuffTable, d: Block, a: BitSeq, cur: Block, k: nat, b: BitSeq)
    requires AcMidway(t, d, a, cur, k, b)
    ensures t.Shaped() && t.ValidCounts() && AcLoop(t, d, 1, a) == AcLoop(t, cur, k, b)
  {
    hide HuffTable.Shaped, HuffTable.ValidCounts, AcLoop;
    assert AcSame(t, d, a, cur, k, b, []);
    assert a + [] == a && b + [] == b;
  }

  lemma AcPadded(t: HuffTable, d: Block, a: BitSeq, cur: Block, k: nat, b: BitSeq, more: BitSeq)
    requires AcMidway(t, d, a, cur, k, b)
    ensures AcMidway(t, d, a + more, cur, k, b + more)
  {
    hide HuffTable.Shaped, HuffTable.ValidCounts, AcLoop, SameFrom;
    forall ext: BitSeq
      ensures AcSame(t, d, a + more, cur, k, b + more, ext)
    {
      assert AcSame(t, d, a, cur, k, b, more + ext);
      assert (a + more) + ext == a + (more + ext) && (b + more) + ext == b + (more + ext);
    }
  }

  /** One more code that does not end the block. */
  lemma AcMoves(t: HuffTable, d: Block, a: BitSeq, cur: Block, k: nat, b: BitSeq)
    requires AcMidway(t, d, a, cur, k, b) && 1 <= k < 64 && SymBits(t, b).Got?
    requires var y := SymBits(t, b); y.value.0 % 16 != 0 || y.value.0 / 16 == 15
    ensures var y := SymBits(t, b); var r, s := y.value.0 / 16, y.value.0 % 16;
      && (s != 0 ==> AcMidway(t, d, a, cur[Slot(k + r) := Extend(y.value.1, s)], k + r + 1, y.rest))
      && (s == 0 ==> AcMidway(t, d, a, cur, k + 16, y.rest))
  {
    hide HuffTable.Shaped, HuffTable.ValidCounts, AcLoop, SymBits, Extend;
    var y := SymBits(t, b);
    var r, s := y.value.0 / 16, y.value.0 % 16;
    var cur', k' := if s != 0 then cur[Slot(k + r) := Extend(y.value.1, s)]
        else cur, if s != 0 then k + r + 1 else k + 16;
    forall ext: BitSeq
      ensures AcSame(t, d, a, cur', k', y.rest, ext)
    {
      assert AcSame(t, d, a, cur, k, b, ext);
      SymBitsExtend(t, b, ext);
      AcUnfolds(t, cur, k, b + ext);
    }
  }

  /** Given up now, the attempt leaves coefficients that the next one will store again. */
  lemma AcGivenUp(t: HuffTable, d: Block, a: BitSeq, cur: Block, k: nat, b: BitSeq, ext: BitSeq)
    requires AcMidway(t, d, a, cur, k, b) && AcLoop(t, d, 1, a + ext).Got?
    ensures Between(d, cur, AcLoop(t, d, 1, a + ext).value)
  {
    hide HuffTable.Shaped, HuffTable.ValidCounts, AcLoop;
    assert AcSame(t, d, a, cur, k, b, ext);
    var z := AcLoop(t, cur, k, b + ext).value;
    forall i | 0 <= i < 64
      ensures cur[i] == d[i] || cur[i] == z[i]
    {
      if i < k {
        AcLoopKeeps(t, cur, k, b + ext, i);
      }
    }
  }

  /** Made-up bits are used only when the real ones do not suffice. */
  ghost predicate AcHonest(br: BitReader, t: HuffTable, d: Block, a: BitSeq, zeros: nat, warned: bool)
    reads br
  {
    && t.Shaped() && t.ValidCounts()
    && if zeros == 0 then br.insufficient == warned
       else br.insufficient && br.unreadMarker != 0 && AcLoop(t, d, 1, a) == More
  }

  ghost predicate AcGoing(br: BitReader, t: HuffTable, d: Block, a: BitSeq, zeros: nat, warned: bool, b: seq<int>,
        k: nat)
    reads br
  {
    br.Valid() && |b| == 64 && AcMidway(t, d, a + ToBits(0, zeros), ZigzagOf(b), k, br.Avail())
        && AcHonest(br, t, d, a, zeros, warned)
  }

  ghost predicate AcFinished(br: BitReader, t: HuffTable, d: Block, a: BitSeq, zeros: nat, warned: bool, b: seq<int>)
    reads br
  {
    br.Valid() && |b| == 64 && AcHonest(br, t, d, a, zeros, warned)
        && AcLoop(t, d, 1, a + ToBits(0, zeros)) == Got(ZigzagOf(b), br.Avail())
  }

  /** However the bits go on, what is stored in `d'` is part of what comes out. */
  ghost predicate AcPart(t: HuffTable, d: Block, a: BitSeq, d': Block)
  {
    t.Shaped() && t.ValidCounts() && forall ext: BitSeq :: AcPartWith(t, d, a, d', ext)
  }

  ghost predicate AcPartWith(t: HuffTable, d: Block, a: BitSeq, d': Block, ext: BitSeq)
    requires t.Shaped() && t.ValidCounts()
  {
    AcLoop(t, d, 1, a + ext).Got? ==> Between(d, d', AcLoop(t, d, 1, a + ext).value)
  }

  lemma GoingPart(br: BitReader, t: HuffTable, d: Block, a: BitSeq, zeros: nat, warned: bool, b: seq<int>, k: nat)
    requires AcGoing(br, t, d, a, zeros, warned, b, k)
    ensures t.Shaped() && t.ValidCounts()
    ensures zeros > 0 ==> br.unreadMarker != 0
    ensures zeros == 0 ==> AcPart(t, d, a, ZigzagOf(b))
  {
    hide HuffTable.Shaped, HuffTable.ValidCounts, AcLoop, AcMidway, Between, ZigzagOf, ToBits;
    NoZeroes(a);
    if zeros == 0 {
      forall ext: BitSeq
        ensures AcPartWith(t, d, a, ZigzagOf(b), ext)
      {
        if AcLoop(t, d, 1, a + ext).Got? {
          AcGivenUp(t, d, a, ZigzagOf(b), k, br.Avail(), ext);
        }
      }
    }
  }

  /** Reading the next code. */
  lemma CodeComes(br: BitReader, t: HuffTable, d: Block, a: BitSeq, zeros: nat, warned: bool, cur: Block,
        k: nat, before: BitSeq, more: nat, sym: nat, x: nat)
    requires br.Valid() && 1 <= k < 64 && AcMidway(t, d, a + ToBits(0, zeros), cur, k, before)
    requires t.Shaped() && t.ValidCounts() && SymBits(t, before + ToBits(0, more)) == Got((sym, x), br.Avail())
    ensures var r, s := sym / 16, sym % 16;
      && (s != 0 ==>
         AcMidway(t, d, a + ToBits(0, zeros + more), cur[Slot(k + r) := Extend(x, s)], k + r + 1, br.Avail()))
      && (s == 0 && r == 15 ==> AcMidway(t, d, a + ToBits(0, zeros + more), cur, k + 16, br.Avail()))
      && (s == 0 && r != 15 ==> AcLoop(t, d, 1, a + ToBits(0, zeros + more)) == Got(cur, br.Avail()))
    ensures zeros == 0 && SymBits(t, before) == More ==> AcLoop(t, d, 1, a) == More
  {
    hide HuffTable.Shaped, HuffTable.ValidCounts, AcLoop, SymBits, Extend, AcMidway, ToBits;
    PadTwice(a, zeros, more);
    NoZeroes(a);
    AcPadded(t, d, a + ToBits(0, zeros), cur, k, before, ToBits(0, more));
    AcNow(t, d, a + ToBits(0, zeros), cur, k, before);
    AcUnfolds(t, cur, k, before);
    var b := before + ToBits(0, more);
    AcNow(t, d, a + ToBits(0, zeros + more), cur, k, b);
    AcUnfolds(t, cur, k, b);
    if sym % 16 != 0 || sym / 16 == 15 {
      AcMoves(t, d, a + ToBits(0, zeros + more), cur, k, b);
    }
  }

  /** One code and what it says: a coefficient to store, 16 zeroes to skip, or the end of the block. */
  method AcStep(br: BitReader, t: HuffTable, dd: DDerived, block: array<int>, k0: nat, ghost d: Block,
        ghost a: BitSeq, ghost zeros: nat, ghost warned: bool)
    returns (ok: bool, more: bool, k: nat, ghost zeros': nat)
    requires DMatches(t, dd) && block.Length == 64 && 1 <= k0 < 64 && AcGoing(br, t, d, a, zeros, warned, block[..], k0)
    modifies br, block
    ensures br.Valid() && br.data == old(br.data) && k >= k0
    ensures br.Follows(old(br.pos), old(br.unreadMarker), old(br.insufficient))
    ensures ok && more ==> AcGoing(br, t, d, a, zeros', warned, block[..], k + 1)
    ensures ok && !more ==> AcFinished(br, t, d, a, zeros', warned, block[..])
    ensures !ok ==> Dry(br.data, br.pos, br.unreadMarker) && AcPart(t, d, a, ZigzagOf(block[..]))
  {
    hide DMatches, ToRead, HuffTable.Shaped, HuffTable.ValidCounts, AcLoop, AcMidway, AcPart, ZigzagOf, Dry,
        ToBits, BitReader.Valid, Extend, SymBits;
    ghost var before := br.Avail();
    GoingPart(br, t, d, a, zeros, warned, block[..], k0);
    k, more, zeros' := k0, true, zeros;
    var sym: nat, x: nat;
    ghost var z;
    ok, sym, x, z := ReadSymBits(br, t, dd);
    if !ok {
      assert br.unreadMarker == 0 by { DryMarker(br.data, br.pos, br.unreadMarker); }
      return;
    }
    CodeComes(br, t, d, a, zeros, warned, ZigzagOf(block[..]), k, before, z, sym, x);
    zeros' := zeros + z;
    var r, s := sym / 16, sym % 16;
    if s != 0 {
      k := k + r;
      Store(block, k, Extend(x, s));
    } else if r != 15 {
      more := false;
    } else {
      k := k + 15;
    }
  }

  /** The AC coefficients. */
  method DecodeAc(br: BitReader, t: HuffTable, dd: DDerived, block: array<int>) returns (ok: bool, ghost zeros: nat)
    requires br.Valid() && DMatches(t, dd) && block.Length == 64
    modifies br, block
    ensures br.Valid() && br.data == old(br.data)
    ensures br.Follows(old(br.pos), old(br.unreadMarker), old(br.insufficient))
    ensures ok ==> AcFinished(br, t, ZigzagOf(old(block[..])), old(br.Avail()), zeros, old(br.insufficient), block[..])
    ensures !ok ==>
        Dry(br.data, br.pos, br.unreadMarker)
            && AcPart(t, ZigzagOf(old(block[..])), old(br.Avail()), ZigzagOf(block[..]))
  {
    hide DMatches, ToRead, HuffTable.Shaped, HuffTable.ValidCounts, AcGoing, AcFinished, AcPart, ZigzagOf, Dry, ToBits;
    ghost var d, a, warned := ZigzagOf(block[..]), br.Avail(), br.insufficient;
    zeros := 0;
    GoingStarts(br, t, dd, block[..]);
    var k: nat, more := 1, true;
    while k < 64
      invariant 1 <= k && br.Valid() && br.data == old(br.data)
      invariant br.Follows(old(br.pos), old(br.unreadMarker), old(br.insufficient))
      invariant AcGoing(br, t, d, a, zeros, warned, block[..], k)
    {
      ok, more, k, zeros := AcStep(br, t, dd, block, k, d, a, zeros, warned);
      if !ok || !more {
        return;
      }
      k := k + 1;
    }
    GoingEnds(br, t, d, a, zeros, warned, block[..], k);
    ok := true;
  }

  lemma GoingStarts(br: BitReader, t: HuffTable, dd: DDerived, b: seq<int>)
    requires br.Valid() && DMatches(t, dd) && |b| == 64
    ensures AcGoing(br, t, ZigzagOf(b), br.Avail(), 0, br.insufficient, b, 1)
  {
    hide HuffTable.Shaped, HuffTable.ValidCounts, AcMidway, ZigzagOf, ToBits, ToRead, BitReader.Valid;
    TableSizes(t, dd);
    NoZeroes(br.Avail());
    AcStarts(t, ZigzagOf(b), br.Avail());
  }

  lemma GoingEnds(br: BitReader, t: HuffTable, d: Block, a: BitSeq, zeros: nat, warned: bool, b: seq<int>, k: nat)
    requires AcGoing(br, t, d, a, zeros, warned, b, k) && k >= 64
    ensures AcFinished(br, t, d, a, zeros, warned, b)
  {
    hide HuffTable.Shaped, HuffTable.ValidCounts, AcMidway, ZigzagOf, ToBits, ToRead;
    AcNow(t, d, a + ToBits(0, zeros), ZigzagOf(b), k, br.Avail());
  }

  // ---------------------------------------------------------------- a whole block

  /** The DC difference. */
  method DecodeDc(br: BitReader, t: HuffTable, dd: DDerived) returns (ok: bool, diff: int, ghost zeros: nat)
    requires br.Valid() && DMatches(t, dd) && t.Shaped() && t.ValidCounts() && t.SymbolsAtMost(15)
    modifies br
    ensures br.Valid() && br.data == old(br.data)
    ensures br.Follows(old(br.pos), old(br.unreadMarker), old(br.insufficient))
    ensures ok ==> DecodeDiff(t, old(br.Avail()) + ToBits(0, zeros)) == Got(diff, br.Avail())
    ensures ok && zeros == 0 ==> br.insufficient == old(br.insufficient)
    ensures ok && zeros > 0 ==> br.insufficient && br.unreadMarker != 0 && DecodeDiff(t, old(br.Avail())) == More
    ensures !ok ==> Dry(br.data, br.pos, br.unreadMarker)
  {
    hide DMatches, ToRead, HuffTable.Shaped, HuffTable.ValidCounts, HuffTable.SymbolsAtMost, ToBits, Extend,
        SymBits, DecodeDiff;
    var s: nat, x: nat;
    ok, s, x, zeros := ReadSymBits(br, t, dd);
    DiffUnfolds(t, old(br.Avail()));
    DiffUnfolds(t, old(br.Avail()) + ToBits(0, zeros));
    diff := if s == 0 then 0 else Extend(x, s);
  }

  /** However the bits go on, what is stored in `d'` is part of what comes out. */
  ghost predicate BlockPart(dc: HuffTable, ac: HuffTable, last: int, d: Block, a: BitSeq, d': Block)
  {
    dc.Shaped() && dc.ValidCounts() && ac.Shaped() && ac.ValidCounts()
        && forall ext: BitSeq :: BlockPartWith(dc, ac, last, d, a, d', ext)
  }

  ghost predicate BlockPartWith(dc: HuffTable, ac: HuffTable, last: int, d: Block, a: BitSeq, d': Block, ext: BitSeq)
    requires dc.Shaped() && dc.ValidCounts() && ac.Shaped() && ac.ValidCounts()
  {
    DecodeBlockSeq(dc, ac, last, d, a + ext).Got? ==> Between(d, d', DecodeBlockSeq(dc, ac, last, d, a + ext).value)
  }

  lemma NothingStored(dc: HuffTable, ac: HuffTable, last: int, d: Block, a: BitSeq)
    requires dc.Shaped() && dc.ValidCounts() && ac.Shaped() && ac.ValidCounts()
    ensures BlockPart(dc, ac, last, d, a, d)
  {
    hide HuffTable.Shaped, HuffTable.ValidCounts, DecodeBlockSeq;
  }

  /** What the AC loop has stored, after the DC value. */
  lemma PartWithDc(dc: HuffTable, ac: HuffTable, last: int, d: Block, a: BitSeq, diff: int, b: BitSeq, d': Block)
    requires dc.Shaped() && dc.ValidCounts() && DecodeDiff(dc, a) == Got(diff, b)
        && AcPart(ac, d[0 := diff + last], b, d')
    ensures BlockPart(dc, ac, last, d, a, d')
  {
    hide HuffTable.Shaped, HuffTable.ValidCounts, AcLoop, DecodeDiff;
    var d1 := d[0 := diff + last];
    forall ext: BitSeq
      ensures BlockPartWith(dc, ac, last, d, a, d', ext)
    {
      DiffExtends(dc, a, ext);
      assert AcPartWith(ac, d1, b, d', ext);
      if AcLoop(ac, d1, 1, b + ext).Got? {
        AcLoopKeeps(ac, d1, 1, b + ext, 0);
      }
    }
  }

  /** The whole block, decoded from `a` and `zeros` made-up bits. */
  ghost predicate BlockDone(br: BitReader, dc: HuffTable, ac: HuffTable, last: int, d: Block, a: BitSeq,
        zeros: nat, warned: bool, d': Block)
    reads br
  {
    && br.Valid() && dc.Shaped() && dc.ValidCounts() && ac.Shaped() && ac.ValidCounts()
    && DecodeBlockSeq(dc, ac, last, d, a + ToBits(0, zeros)) == Got(d', br.Avail())
    && if zeros == 0 then br.insufficient == warned
       else br.insufficient && br.unreadMarker != 0 && DecodeBlockSeq(dc, ac, last, d, a) == More
  }

  lemma BlockComplete(br: BitReader, dc: HuffTable, ac: HuffTable, last: int, d: Block, a: BitSeq, z1: nat,
        diff: int, b: BitSeq, zeros: nat, warned1: bool, warned: bool, block: seq<int>)
    requires dc.Shaped() && dc.ValidCounts() && DecodeDiff(dc, a + ToBits(0, z1)) == Got(diff, b)
    requires if z1 == 0 then warned1 == warned else warned1 && DecodeDiff(dc, a) == More && br.unreadMarker != 0
    requires AcFinished(br, ac, d[0 := diff + last], b, zeros, warned1, block)
    ensures BlockDone(br, dc, ac, last, d, a, z1 + zeros, warned, ZigzagOf(block))
    ensures ZigzagOf(block)[0] == diff + last
  {
    hide HuffTable.Shaped, HuffTable.ValidCounts, AcLoop, DecodeDiff, ToBits, ZigzagOf;
    PadTwice(a, z1, zeros);
    NoZeroes(a);
    DiffExtends(dc, a + ToBits(0, z1), ToBits(0, zeros));
    AcLoopKeeps(ac, d[0 := diff + last], 1, b + ToBits(0, zeros), 0);
  }

  /** A single block: the DC difference, then the AC coefficients. */
  method DecodeOneBlock(br: BitReader, dc: HuffTable, dctbl: DDerived, ac: HuffTable, actbl: DDerived,
        block: array<int>, lastDcVal: int)
    returns (ok: bool, s: int, ghost zeros: nat)
    requires br.Valid() && block.Length == 64 && dc.Shaped() && dc.ValidCounts() && dc.SymbolsAtMost(15)
    requires DMatches(dc, dctbl) && DMatches(ac, actbl)
    modifies br, block
    ensures br.Valid() && br.data == old(br.data)
    ensures br.Follows(old(br.pos), old(br.unreadMarker), old(br.insufficient))
    ensures ok ==>
        BlockDone(br, dc, ac, lastDcVal, ZigzagOf(old(block[..])), old(br.Avail()), zeros, old(br.insufficient),
            ZigzagOf(block[..]))
    ensures ok ==> s == ZigzagOf(block[..])[0]
    ensures !ok ==>
        Dry(br.data, br.pos, br.unreadMarker)
            && BlockPart(dc, ac, lastDcVal, ZigzagOf(old(block[..])), old(br.Avail()), ZigzagOf(block[..]))
  {
    hide DMatches, ToRead, HuffTable.Shaped, HuffTable.ValidCounts, HuffTable.SymbolsAtMost, ToBits, Dry,
        DecodeDiff, AcFinished, AcPart, BlockPart, BlockDone, ZigzagOf;
    ghost var d, a, warned := ZigzagOf(block[..]), br.Avail(), br.insufficient;
    TableSizes(ac, actbl);
    NothingStored(dc, ac, lastDcVal, d, a);
    ok, s, zeros := DecodeDc(br, dc, dctbl);
    if !ok {
      return;
    }
    ghost var diff, b, warned1 := s, br.Avail(), br.insufficient;
    s := s + lastDcVal;
    Store(block, 0, s);
    NoZeroes(a);
    ghost var more;
    ghost var marker := br.unreadMarker;
    ok, more := DecodeAc(br, ac, actbl, block);
    if ok {
      BlockComplete(br, dc, ac, lastDcVal, d, a, zeros, diff, b, more, warned1, warned, block[..]);
      zeros := zeros + more;
    } else {
      assert zeros == 0 by { DryMarker(br.data, br.pos, br.unreadMarker); }
      PartWithDc(dc, ac, lastDcVal, d, a, diff, b, ZigzagOf(block[..]));
    }
  }
}
