/** The decoder of first AC passes: one block, in place, from a source that may run dry at any bit.  An
    attempt that is given up has stored only coefficients that the next one stores again. */
module AcFirstDecoder {
  import opened Bits
  import opened Reading
  import opened Coef
  import opened Huffman
  import opened HuffTables
  import opened BitOutput
  import opened BitInput
  import opened HuffDecoding
  import opened AcScan
  import opened AcResume
  import opened AcDecoder
  import opened SeqScan
  import opened SeqMcu
  import opened SeqDecoder
  import opened Zigzag

  // ---------------------------------------------------------------- one code

  /** A value after `r` zeroes, 16 zeroes, or the end of the band in `run` blocks. */
  datatype FirstCode = Value(r: nat, v: int) | Zeroes | Ends(run: nat)

  /** How many bits follow a symbol, and what they make of it. */
  function ExtraBits(sym: nat): nat { if sym % 16 != 0 then sym % 16 else if sym / 16 == 15 then 0 else sym / 16 }

  function CodeFor(sym: nat, x: nat, al: nat): (c: FirstCode)
    ensures c.Ends? ==> c.run >= 1
  {
    if sym % 16 != 0 then Value(sym / 16, Extend(x, sym % 16) * Pow2(al))
    else if sym / 16 == 15 then Zeroes
    else Ends(Pow2(sym / 16) + x)
  }

  function NextFirst(t: HuffTable, al: nat, bs: BitSeq): (c: Read<FirstCode>)
    requires t.Shaped() && t.ValidCounts()
    ensures c.Got? && c.value.Ends? ==> c.value.run >= 1
    ensures c.Got? && c.value.Value? ==> c.value.r < 16
  {
    var (sym, b1) :- t.DecodeSym(bs);
    var (x, b2) :- Take(ExtraBits(sym), b1);
    Got(CodeFor(sym, x, al), b2)
  }

  lemma NextFirstExtends(t: HuffTable, al: nat, bs: BitSeq, ext: BitSeq)
    requires t.Shaped() && t.ValidCounts() && NextFirst(t, al, bs).Got?
    ensures NextFirst(t, al, bs + ext) == Got(NextFirst(t, al, bs).value, NextFirst(t, al, bs).rest + ext)
  {
    hide HuffTable.DecodeSym, HuffTable.Shaped, HuffTable.ValidCounts, Take, ExtraBits, CodeFor;
    DecodeExtends(t, bs, ext);
    var y := t.DecodeSym(bs);
    TakeExtends(ExtraBits(y.value), y.rest, ext);
  }

  /** What the loop does at coefficient `k`. */
  function AfterFirst(t: HuffTable, sc: Scan, d: Block, k: nat, c: FirstCode, rest: BitSeq): Read<(Block, nat)>
    requires t.Shaped() && t.ValidCounts() && sc.Valid() && (c.Ends? ==> c.run >= 1)
  {
    match c
    case Value(r, v) => InitialLoop(t, sc, d[Slot(k + r) := v], k + r + 1, rest)
    case Zeroes => InitialLoop(t, sc, d, k + 16, rest)
    case Ends(run) => Got((d, run - 1), rest)
  }

  lemma FirstUnfolds(t: HuffTable, sc: Scan, d: Block, k: nat, bs: BitSeq)
    requires t.Shaped() && t.ValidCounts() && sc.Valid() && k <= sc.se
    ensures var c := NextFirst(t, sc.al, bs);
      InitialLoop(t, sc, d, k, bs) == if c.Got? then AfterFirst(t, sc, d, k, c.value, c.rest) else More
  {
    hide HuffTable.DecodeSym, HuffTable.Shaped, HuffTable.ValidCounts, Take, Extend;
    var y := t.DecodeSym(bs);
    if y.Got? {
      TakeNone(y.rest);
    }
  }

  lemma FirstRead(t: HuffTable, al: nat, a: BitSeq, z1: nat, sym: nat, a1: BitSeq, z2: nat, x: nat, a2: BitSeq)
    requires t.Shaped() && t.ValidCounts() && t.DecodeSym(a + ToBits(0, z1)) == Got(sym, a1)
    requires Take(ExtraBits(sym), a1 + ToBits(0, z2)) == Got(x, a2)
    ensures NextFirst(t, al, a + ToBits(0, z1 + z2)) == Got(CodeFor(sym, x, al), a2)
    ensures z1 == 0 && |a1| < ExtraBits(sym) ==> NextFirst(t, al, a) == More
  {
    hide ToBits, HuffTable.DecodeSym, HuffTable.Shaped, HuffTable.ValidCounts, Take, ExtraBits, CodeFor;
    PadTwice(a, z1, z2);
    NoZeroes(a);
    DecodeExtends(t, a + ToBits(0, z1), ToBits(0, z2));
  }

  /** HUFF_DECODE, then CHECK_BIT_BUFFER and GET_BITS for what belongs to the symbol. */
  method ReadFirst(br: BitReader, t: HuffTable, d: DDerived, al: nat) returns (ok: bool, c: FirstCode, ghost zeros: nat)
    requires br.Valid() && DMatches(t, d)
    modifies br
    ensures br.Valid() && br.data == old(br.data) && t.Shaped() && t.ValidCounts()
    ensures br.Follows(old(br.pos), old(br.unreadMarker), old(br.insufficient))
    ensures ok ==> NextFirst(t, al, old(br.Avail()) + ToBits(0, zeros)) == Got(c, br.Avail())
    ensures ok && zeros == 0 ==> br.insufficient == old(br.insufficient)
    ensures ok && zeros > 0 ==> br.insufficient && br.unreadMarker != 0 && NextFirst(t, al, old(br.Avail())) == More
    ensures !ok ==> Dry(br.data, br.pos, br.unreadMarker)
  {
    hide ToBits, DMatches, ToRead, HuffTable.Shaped, HuffTable.DecodeSym, HuffTable.ValidCounts, Take, CodeFor;
    TableSizes(t, d);
    ghost var a := br.Avail();
    c := Zeroes;
    var sym: nat;
    ok, sym, zeros := HuffDecode(br, t, d);
    if !ok {
      return;
    }
    ghost var a1, more := br.Avail(), 0;
    SymbolIsByte(t, a + ToBits(0, zeros));
    NoZeroes(a1);
    TakeNone(a1);
    var x: nat := 0;
    if ExtraBits(sym) != 0 {
      ok, x, more := br.Fetch(ExtraBits(sym));
      if !ok {
        return;
      }
    }
    FirstRead(t, al, a, zeros, sym, a1, more, x, br.Avail());
    c := CodeFor(sym, x, al);
    zeros := zeros + more;
  }

  // ---------------------------------------------------------------- blocks filled in part

  /** The outcome does not depend on which of the coefficients to come have been stored before. */
  lemma {:induction false} FirstBetween(t: HuffTable, sc: Scan, d: Block, d': Block, k: nat, bs: BitSeq)
    requires t.Shaped() && t.ValidCounts() && sc.Valid()
    ensures InitialLoop(t, sc, d, k, bs).More? <==> InitialLoop(t, sc, d', k, bs).More?
    ensures InitialLoop(t, sc, d, k, bs).Got? && Between(d, d', InitialLoop(t, sc, d, k, bs).value.0) ==>
      InitialLoop(t, sc, d', k, bs) == InitialLoop(t, sc, d, k, bs)
    decreases if k <= sc.se then sc.se + 1 - k else 0
  {
    hide NextFirst, HuffTable.Shaped, HuffTable.ValidCounts, InitialLoop, Slot;
    BetweenSame(d, d');
    if k > sc.se {
      PastBand(t, sc, d, k, bs);
      PastBand(t, sc, d', k, bs);
    } else {
      FirstUnfolds(t, sc, d, k, bs);
      FirstUnfolds(t, sc, d', k, bs);
      var c := NextFirst(t, sc.al, bs);
      if c.Got? && c.value.Value? {
        var p, v := Slot(k + c.value.r), c.value.v;
        FirstBetween(t, sc, d[p := v], d'[p := v], k + c.value.r + 1, c.rest);
        if InitialLoop(t, sc, d, k, bs).Got? {
          BetweenStore(d, d', InitialLoop(t, sc, d, k, bs).value.0, p, v);
        }
      } else if c.Got? && c.value.Zeroes? {
        FirstBetween(t, sc, d, d', k + 16, c.rest);
      }
    }
  }

  lemma PastBand(t: HuffTable, sc: Scan, d: Block, k: nat, bs: BitSeq)
    requires t.Shaped() && t.ValidCounts() && sc.Valid() && k > sc.se
    ensures InitialLoop(t, sc, d, k, bs) == Got((d, 0), bs)
  {
  }

  /** Coefficients before `k` are not stored any more. */
  lemma {:induction false} FirstKeeps(t: HuffTable, sc: Scan, d: Block, k: nat, bs: BitSeq, i: nat)
    requires t.Shaped() && t.ValidCounts() && sc.Valid() && InitialLoop(t, sc, d, k, bs).Got? && i < k && i < 64
    ensures InitialLoop(t, sc, d, k, bs).value.0[i] == d[i]
    decreases if k <= sc.se then sc.se + 1 - k else 0
  {
    hide NextFirst, HuffTable.Shaped, HuffTable.ValidCounts, InitialLoop;
    if k > sc.se {
      PastBand(t, sc, d, k, bs);
    } else {
      FirstUnfolds(t, sc, d, k, bs);
      var c := NextFirst(t, sc.al, bs);
      if c.value.Value? {
        FirstKeeps(t, sc, d[Slot(k + c.value.r) := c.value.v], k + c.value.r + 1, c.rest, i);
      } else if c.value.Zeroes? {
        FirstKeeps(t, sc, d, k + 16, c.rest, i);
      }
    }
  }

  /** What the loop yields from some bits it yields from those bits and more. */
  lemma {:induction false} FirstExtends(t: HuffTable, sc: Scan, d: Block, k: nat, bs: BitSeq, ext: BitSeq)
    requires t.Shaped() && t.ValidCounts() && sc.Valid() && InitialLoop(t, sc, d, k, bs).Got?
    ensures InitialLoop(t, sc, d, k, bs + ext)
        == Got(InitialLoop(t, sc, d, k, bs).value, InitialLoop(t, sc, d, k, bs).rest + ext)
    decreases if k <= sc.se then sc.se + 1 - k else 0
  {
    hide NextFirst, HuffTable.Shaped, HuffTable.ValidCounts, InitialLoop;
    if k > sc.se {
      PastBand(t, sc, d, k, bs);
      PastBand(t, sc, d, k, bs + ext);
    } else {
      FirstUnfolds(t, sc, d, k, bs);
      FirstUnfolds(t, sc, d, k, bs + ext);
      var c := NextFirst(t, sc.al, bs);
      NextFirstExtends(t, sc.al, bs, ext);
      if c.value.Value? {
        FirstExtends(t, sc, d[Slot(k + c.value.r) := c.value.v], k + c.value.r + 1, c.rest, ext);
      } else if c.value.Zeroes? {
        FirstExtends(t, sc, d, k + 16, c.rest, ext);
      }
    }
  }

  // ---------------------------------------------------------------- half-way through a block

  /** What a block is decoded from. */
  datatype FirstJob = FirstJob(t: HuffTable, sc: Scan, d: Block, a: BitSeq) {
    predicate Ok() { t.Shaped() && t.ValidCounts() && sc.Valid() && sc.mode == Initial }

    function Outcome(ext: BitSeq): Read<(Block, nat)>
      requires Ok()
    {
      InitialLoop(t, sc, d, sc.ss, a + ext)
    }
  }

  /** The job has come to coefficient `k` with the block `cur` and the bits `b`, whatever bits are still to come. */
  ghost predicate FirstMidway(job: FirstJob, zeros: nat, cur: Block, k: nat, b: BitSeq)
  {
    job.Ok() && SameFrom(job.d, cur, k) && forall ext: BitSeq :: FirstSame(job, zeros, cur, k, b, ext)
  }

  ghost predicate FirstSame(job: FirstJob, zeros: nat, cur: Block, k: nat, b: BitSeq, ext: BitSeq)
    requires job.Ok()
  {
    job.Outcome(ToBits(0, zeros) + ext) == InitialLoop(job.t, job.sc, cur, k, b + ext)
  }

  lemma FirstStarts(job: FirstJob)
    requires job.Ok()
    ensures FirstMidway(job, 0, job.d, job.sc.ss, job.a)
  {
    hide HuffTable.Shaped, HuffTable.ValidCounts, InitialLoop;
    forall ext: BitSeq
      ensures FirstSame(job, 0, job.d, job.sc.ss, job.a, ext)
    {
      assert ToBits(0, 0) + ext == ext;
    }
  }

  lemma FirstNow(job: FirstJob, zeros: nat, cur: Block, k: nat, b: BitSeq)
    requires FirstMidway(job, zeros, cur, k, b)
    ensures job.Outcome(ToBits(0, zeros)) == InitialLoop(job.t, job.sc, cur, k, b)
  {
    hide HuffTable.Shaped, HuffTable.ValidCounts, InitialLoop, ToBits, FirstJob.Outcome;
    assert FirstSame(job, zeros, cur, k, b, []);
    assert ToBits(0, zeros) + [] == ToBits(0, zeros) && b + [] == b;
  }

  /** One code, which may need `more` made-up bits. */
  lemma FirstMoves(job: FirstJob, zeros: nat, cur: Block, k: nat, b: BitSeq, more: nat, c: FirstCode, b': BitSeq)
    requires FirstMidway(job, zeros, cur, k, b) && k <= job.sc.se
        && NextFirst(job.t, job.sc.al, b + ToBits(0, more)) == Got(c, b')
    ensures c.Value? ==> FirstMidway(job, zeros + more, cur[Slot(k + c.r) := c.v], k + c.r + 1, b')
    ensures c.Zeroes? ==> FirstMidway(job, zeros + more, cur, k + 16, b')
    ensures c.Ends? ==> c.run >= 1 && job.Outcome(ToBits(0, zeros + more)) == Got((cur, c.run - 1), b')
    ensures zeros == 0 && NextFirst(job.t, job.sc.al, b) == More ==> job.Outcome([]) == More
  {
    hide HuffTable.Shaped, HuffTable.ValidCounts, InitialLoop, ToBits, NextFirst, FirstJob.Outcome;
    forall ext: BitSeq
      ensures job.Outcome(ToBits(0, zeros + more) + ext) == AfterFirst(job.t, job.sc, cur, k, c, b' + ext)
    {
      assert FirstSame(job, zeros, cur, k, b, ToBits(0, more) + ext);
      ToBitsConcat(0, 0, zeros, more);
      assert ToBits(0, zeros) + (ToBits(0, more) + ext) == ToBits(0, zeros + more) + ext;
      assert b + (ToBits(0, more) + ext) == (b + ToBits(0, more)) + ext;
      NextFirstExtends(job.t, job.sc.al, b + ToBits(0, more), ext);
      FirstUnfolds(job.t, job.sc, cur, k, (b + ToBits(0, more)) + ext);
    }
    var zeros' := zeros + more;
    if c.Value? {
      var cur', k' := cur[Slot(k + c.r) := c.v], k + c.r + 1;
      forall ext: BitSeq
        ensures FirstSame(job, zeros', cur', k', b', ext)
      {
        assert job.Outcome(ToBits(0, zeros + more) + ext) == AfterFirst(job.t, job.sc, cur, k, c, b' + ext);
      }
    } else if c.Zeroes? {
      var k' := k + 16;
      forall ext: BitSeq
        ensures FirstSame(job, zeros', cur, k', b', ext)
      {
        assert job.Outcome(ToBits(0, zeros + more) + ext) == AfterFirst(job.t, job.sc, cur, k, c, b' + ext);
      }
    } else {
      assert ToBits(0, zeros + more) + [] == ToBits(0, zeros + more) && b' + [] == b';
    }
    FirstNow(job, zeros, cur, k, b);
    FirstUnfolds(job.t, job.sc, cur, k, b);
    NothingAdded();
  }

  lemma NothingAdded()
    ensures ToBits(0, 0) == []
  {
  }

  /** Given up now, the attempt leaves a block that is as good as the original one. */
  lemma FirstGivenUp(job: FirstJob, cur: Block, k: nat, b: BitSeq, ext: BitSeq)
    requires FirstMidway(job, 0, cur, k, b)
    ensures job.(d := cur).Ok() && job.(d := cur).Outcome(ext) == job.Outcome(ext)
  {
    hide HuffTable.Shaped, HuffTable.ValidCounts, InitialLoop;
    assert FirstSame(job, 0, cur, k, b, ext);
    NothingAdded();
    assert [] + ext == ext;
    FirstBetween(job.t, job.sc, job.d, cur, job.sc.ss, job.a + ext);
    if job.Outcome(ext).Got? {
      var z := job.Outcome(ext).value.0;
      forall i | 0 <= i < 64
        ensures cur[i] == job.d[i] || cur[i] == z[i]
      {
        if i < k {
          FirstKeeps(job.t, job.sc, cur, k, b + ext, i);
        }
      }
    }
  }

  lemma BlockRetried(job: FirstJob, b0: seq<int>, b: seq<int>, k: nat, bits: BitSeq)
    requires |b0| == 64 && |b| == 64 && job.d == ZigzagOf(b0) && FirstMidway(job, 0, ZigzagOf(b), k, bits)
    ensures Interchangeable(job.t, job.sc, b0, b, 0, job.a)
  {
    hide HuffTable.Shaped, HuffTable.ValidCounts, InitialLoop, FirstMidway, ZigzagOf;
    FirstOk(job, 0, ZigzagOf(b), k, bits);
    forall ext: BitSeq
      ensures SameWith(job.t, job.sc, b0, b, 0, job.a, ext)
    {
      FirstGivenUp(job, ZigzagOf(b), k, bits, ext);
    }
  }

  lemma FirstOk(job: FirstJob, zeros: nat, cur: Block, k: nat, b: BitSeq)
    requires FirstMidway(job, zeros, cur, k, b)
    ensures job.Ok()
  {
  }

  // ---------------------------------------------------------------- the decoder

  /** Made-up bits are used only when the real ones do not suffice. */
  ghost predicate FirstHonest(br: BitReader, job: FirstJob, zeros: nat)
    reads br
  {
    job.Ok() && if zeros == 0 then !br.insufficient
        else br.insufficient && br.unreadMarker != 0 && job.Outcome([]) == More
  }

  ghost predicate FirstGoing(br: BitReader, job: FirstJob, zeros: nat, b: seq<int>, k: nat)
    reads br
  {
    br.Valid() && |b| == 64 && FirstMidway(job, zeros, ZigzagOf(b), k, br.Avail()) && FirstHonest(br, job, zeros)
  }

  ghost predicate FirstDone(br: BitReader, job: FirstJob, zeros: nat, b: seq<int>, run: nat)
    reads br
  {
    br.Valid() && |b| == 64 && FirstHonest(br, job, zeros)
        && job.Outcome(ToBits(0, zeros)) == Got((ZigzagOf(b), run), br.Avail())
  }

  /** The codes of one band, up to its end. */
  method DecodeBand(dec: BandDecoder, block: array<int>, ghost job: FirstJob)
    returns (ok: bool, run: nat, ghost zeros: nat, ghost k': nat, ghost bits: BitSeq)
    requires dec.Valid() && block.Length == 64 && job.t == dec.t && job.sc == dec.sc
        && FirstGoing(dec.br, job, 0, block[..], dec.sc.ss)
    modifies dec.br, block
    ensures dec.br.Valid() && dec.br.data == old(dec.br.data)
        && dec.br.Follows(old(dec.br.pos), old(dec.br.unreadMarker), old(dec.br.insufficient))
    ensures ok ==> FirstDone(dec.br, job, zeros, block[..], run)
    ensures !ok ==>
        Dry(dec.br.data, dec.br.pos, dec.br.unreadMarker) && FirstMidway(job, 0, ZigzagOf(block[..]), k', bits)
  {
    hide HuffTable.Shaped, HuffTable.ValidCounts, DMatches, ToRead, Dry, ToBits, InitialLoop, NextFirst,
        ZigzagOf, FirstMidway, FirstJob.Outcome;
    zeros, run := 0, 0;
    var k: nat := dec.sc.ss;
    k', bits := k, [];
    while k <= dec.sc.se
      invariant dec.sc.ss <= k && dec.br.data == old(dec.br.data)
          && dec.br.Follows(old(dec.br.pos), old(dec.br.unreadMarker), old(dec.br.insufficient))
      invariant FirstGoing(dec.br, job, zeros, block[..], k)
      decreases if k <= dec.sc.se then dec.sc.se + 1 - k else 0
    {
      ghost var before, cur, more := dec.br.Avail(), ZigzagOf(block[..]), 0;
      FirstOk(job, zeros, cur, k, before);
      k', bits := k, before;
      var c;
      ok, c, more := ReadFirst(dec.br, dec.t, dec.d, dec.sc.al);
      if !ok {
        assert dec.br.unreadMarker == 0 by { DryMarker(dec.br.data, dec.br.pos, dec.br.unreadMarker); }
        assert zeros == 0;
        return;
      }
      FirstMoves(job, zeros, cur, k, before, more, c, dec.br.Avail());
      zeros := zeros + more;
      match c {
        case Value(r, v) =>
          k := k + r;
          assert r < 16 by { ShortRun(dec.t, dec.sc.al, before + ToBits(0, more)); }
          Store(block, k, v);
        case Zeroes =>
          k := k + 15;
        case Ends(n) =>
          run := n - 1;
          return;
      }
      k := k + 1;
    }
    ghost var cur := ZigzagOf(block[..]);
    FirstNow(job, zeros, cur, k, dec.br.Avail());
    FirstOk(job, zeros, cur, k, dec.br.Avail());
    PastBand(dec.t, dec.sc, cur, k, dec.br.Avail());
    ok := true;
  }

  /** decode_mcu_AC_first. */
  method DecodeMcuFirst(dec: BandDecoder, block: array<int>) returns (ok: bool, ghost zeros: nat)
    requires dec.Valid() && dec.sc.mode == Initial && block.Length == 64
    modifies dec, dec.br, block
    ensures dec.Valid() && dec.br.data == old(dec.br.data)
    ensures dec.br.Follows(old(dec.br.pos), old(dec.br.unreadMarker), old(dec.br.insufficient))
    ensures old(dec.br.insufficient) ==> ok && block[..] == old(block[..]) && dec.eobrun == old(dec.eobrun)
    ensures ok && !old(dec.br.insufficient) ==>
      DecodeBlock(dec.t, dec.sc, ZigzagOf(old(block[..])), old(dec.eobrun), old(dec.br.Avail()) + ToBits(0, zeros))
      == Got((ZigzagOf(block[..]), dec.eobrun), dec.br.Avail())
    ensures ok && zeros == 0 ==> dec.br.insufficient == old(dec.br.insufficient)
    ensures ok && zeros > 0 ==>
        dec.br.insufficient
            && DecodeBlock(dec.t, dec.sc, ZigzagOf(old(block[..])), old(dec.eobrun), old(dec.br.Avail())) == More
    ensures !ok ==>
        dec.br.Stuck(old(dec.br.data), old(dec.br.pos), old(dec.br.getBuffer), old(dec.br.bitsLeft),
            old(dec.br.unreadMarker), old(dec.br.insufficient))
    ensures !ok ==> dec.br.Avail() == old(dec.br.Avail()) && dec.eobrun == old(dec.eobrun)
    ensures !ok ==> Interchangeable(dec.t, dec.sc, old(block[..]), block[..], dec.eobrun, dec.br.Avail())
  {
    hide HuffTable.Shaped, HuffTable.ValidCounts, DMatches, Dry, ToBits, InitialLoop, ZigzagOf, FirstMidway,
        Interchangeable;
    TableSizes(dec.t, dec.d);
    zeros := 0;
    if dec.br.insufficient {
      return true, 0;
    }
    if dec.eobrun > 0 {
      NoZeroes(dec.br.Avail());
      dec.eobrun := dec.eobrun - 1;
      return true, 0;
    }
    var pos, getBuffer, bitsLeft := dec.br.pos, dec.br.getBuffer, dec.br.bitsLeft;
    ghost var b0, job := block[..], FirstJob(dec.t, dec.sc, ZigzagOf(block[..]), dec.br.Avail());
    FirstStarts(job);
    var run;
    ghost var k, b;
    ok, run, zeros, k, b := DecodeBand(dec, block, job);
    if !ok {
      dec.br.WasDry(pos, old(dec.br.unreadMarker), old(dec.br.insufficient));
      assert dec.br.unreadMarker == 0 by { DryMarker(dec.br.data, dec.br.pos, dec.br.unreadMarker); }
      dec.br.pos, dec.br.getBuffer, dec.br.bitsLeft := pos, getBuffer, bitsLeft;
      BlockRetried(job, b0, block[..], k, b);
      return;
    }
    NoZeroes(job.a);
    assert job.a + [] == job.a;
    dec.eobrun := run;
  }

  /** decode_mcu of an AC scan. */
  method DecodeMcu(dec: BandDecoder, block: array<int>) returns (ok: bool, ghost zeros: nat)
    requires dec.Valid() && block.Length == 64
    modifies dec, dec.br, block
    ensures dec.Valid() && dec.br.data == old(dec.br.data)
    ensures dec.br.Follows(old(dec.br.pos), old(dec.br.unreadMarker), old(dec.br.insufficient))
    ensures old(dec.br.insufficient) ==> ok && block[..] == old(block[..]) && dec.eobrun == old(dec.eobrun)
    ensures ok && !old(dec.br.insufficient) ==>
      DecodeBlock(dec.t, dec.sc, ZigzagOf(old(block[..])), old(dec.eobrun), old(dec.br.Avail()) + ToBits(0, zeros))
      == Got((ZigzagOf(block[..]), dec.eobrun), dec.br.Avail())
    ensures ok && zeros == 0 ==> dec.br.insufficient == old(dec.br.insufficient)
    ensures ok && zeros > 0 ==>
        dec.br.insufficient
            && DecodeBlock(dec.t, dec.sc, ZigzagOf(old(block[..])), old(dec.eobrun), old(dec.br.Avail())) == More
    ensures !ok ==>
        dec.br.Stuck(old(dec.br.data), old(dec.br.pos), old(dec.br.getBuffer), old(dec.br.bitsLeft),
            old(dec.br.unreadMarker), old(dec.br.insufficient))
    ensures !ok ==> dec.br.Avail() == old(dec.br.Avail()) && dec.eobrun == old(dec.eobrun)
    ensures !ok ==> Interchangeable(dec.t, dec.sc, old(block[..]), block[..], dec.eobrun, dec.br.Avail())
  {
    hide HuffTable.Shaped, HuffTable.ValidCounts, DMatches, Dry, ToBits, ZigzagOf, Interchangeable, DecodeBlock;
    if dec.sc.mode == Initial {
      ok, zeros := DecodeMcuFirst(dec, block);
    } else {
      ok, zeros := dec.DecodeMcuRefine(block);
    }
  }

  lemma ShortRun(t: HuffTable, al: nat, bs: BitSeq)
    requires t.Shaped() && t.ValidCounts() && NextFirst(t, al, bs).Got? && NextFirst(t, al, bs).value.Value?
    ensures NextFirst(t, al, bs).value.r < 16
  {
    hide NextFirst;
  }
}
