/** The progressive DC decoders: the DC values of an MCU, in place, from a source that may run dry at any bit. */
module DcDecoder {
  import opened Bits
  import opened Reading
  import opened Coef
  import opened Huffman
  import opened HuffTables
  import opened BitOutput
  import opened BitInput
  import opened HuffDecoding
  import opened AcResume
  import opened AcDecoder
  import opened DcScan
  import opened DcEncoder
  import opened SeqScan
  import opened SeqMcu
  import opened SeqDecoder

  // ---------------------------------------------------------------- first pass

  /** The shifted values of the blocks of an MCU, and the predictions after them. */
  function DecodeValues(ts: seq<HuffTable>, cis: seq<nat>, last: seq<int>, bs: BitSeq): (r: Read<(seq<int>, seq<int>)>)
    requires ValidTables(ts, |last|) && forall i | 0 <= i < |cis| :: cis[i] < |last|
    ensures r.Got? ==> |r.value.0| == |cis| && |r.value.1| == |last|
    decreases |cis|
  {
    if cis == [] then Got(([], last), bs)
    else
      var (diff, b1) :- DecodeDiff(ts[cis[0]], bs);
      var v := diff + last[cis[0]];
      var (r, b2) :- DecodeValues(ts, cis[1..], last[cis[0] := v], b1);
      Got(([v] + r.0, r.1), b2)
  }

  function Scaled(al: nat, vs: seq<int>): (r: seq<int>)
    ensures |r| == |vs|
  {
    seq(|vs|, i requires 0 <= i < |vs| => vs[i] * Pow2(al))
  }

  /** These are what the scan is decoded to, before the values are shifted back. */
  lemma {:induction false} ValuesAreFirst(ts: seq<HuffTable>, al: nat, cis: seq<nat>, last: seq<int>, bs: BitSeq)
    requires ValidTables(ts, |last|) && forall i | 0 <= i < |cis| :: cis[i] < |last|
    ensures var r, f := DecodeValues(ts, cis, last, bs), DecodeFirst(ts, al, cis, last, bs);
      f == if r.Got? then Got(Scaled(al, r.value.0), r.rest) else More
    decreases |cis|
  {
    hide HuffTable.Shaped, HuffTable.ValidCounts, DecodeDiff, Pow2;
    if cis != [] {
      var y := DecodeDiff(ts[cis[0]], bs);
      if y.Got? {
        var v := y.value + last[cis[0]];
        ValuesAreFirst(ts, al, cis[1..], last[cis[0] := v], y.rest);
        var r := DecodeValues(ts, cis[1..], last[cis[0] := v], y.rest);
        if r.Got? {
          assert Scaled(al, [v] + r.value.0) == [v * Pow2(al)] + Scaled(al, r.value.0);
        }
      }
    }
  }

  function Shifted(al: nat, items: seq<Item>): (vs: seq<int>)
    ensures |vs| == |items|
  {
    seq(|items|, i requires 0 <= i < |items| => Shr(items[i].dc, al))
  }

  /** An MCU that has been sent is decoded to the shifted values, and the predictions of encoder and decoder stay
      equal. */
  lemma {:induction false} McuFirstRoundTrip(ts: seq<HuffTable>, al: nat, items: seq<Item>, last: seq<int>,
        rest: BitSeq)
    requires ValidTables(ts, |last|) && ItemsOk(items, |last|) && DcEncoder.Sendable(ts, al, items, last)
    ensures ItemsOk(items, |last|) &&
      DecodeValues(ts, Components(items), last, FirstBits(ts, al, items, last) + rest)
          == Got((Shifted(al, items), LastAfter(al, items, last)), rest)
    decreases |items|
  {
    hide DecodeDiff, DiffBits, Shr, HuffTable.Shaped, HuffTable.ValidCounts, HuffTable.HasCode, BitLen;
    if items == [] {
      assert FirstBits(ts, al, items, last) + rest == rest;
    } else {
      var ci, v := items[0].ci, Shr(items[0].dc, al);
      var more := FirstBits(ts, al, items[1..], last[ci := v]) + rest;
      assert FirstBits(ts, al, items, last) + rest == DiffBits(ts[ci], v - last[ci]) + more;
      DiffRoundTrip(ts[ci], v - last[ci], more);
      McuFirstRoundTrip(ts, al, items[1..], last[ci := v], rest);
      assert Components(items)[1..] == Components(items[1..]);
      assert [v] + Shifted(al, items[1..]) == Shifted(al, items);
    }
  }

  function Behind(vs: seq<int>, r: Read<(seq<int>, seq<int>)>): Read<(seq<int>, seq<int>)>
  {
    if r.Got? then Got((vs + r.value.0, r.value.1), r.rest) else More
  }

  lemma BehindOne(vs: seq<int>, v: int, r: Read<(seq<int>, seq<int>)>)
    ensures Behind(vs, Behind([v], r)) == Behind(vs + [v], r) && Behind([], r) == r
  {
    if r.Got? {
      assert vs + ([v] + r.value.0) == vs + [v] + r.value.0;
      assert [] + r.value.0 == r.value.0;
    }
  }

  /** What an MCU is decoded from. */
  datatype DcJob = DcJob(ts: seq<HuffTable>, cis: seq<nat>, last: seq<int>, a: BitSeq) {
    predicate Ok() { ValidTables(ts, |last|) && forall i | 0 <= i < |cis| :: cis[i] < |last| }

    function Outcome(ext: BitSeq): Read<(seq<int>, seq<int>)>
      requires Ok()
    {
      DecodeValues(ts, cis, last, a + ext)
    }
  }

  /** The job has come to block `i` with the values `vs` and the bits `b`, whatever bits are still to come. */
  ghost predicate DcMidway(job: DcJob, zeros: nat, vs: seq<int>, last: seq<int>, i: nat, b: BitSeq)
  {
    job.Ok() && i <= |job.cis| && |vs| == i && |last| == |job.last|
        && forall ext: BitSeq :: DcSame(job, zeros, vs, last, i, b, ext)
  }

  ghost predicate DcSame(job: DcJob, zeros: nat, vs: seq<int>, last: seq<int>, i: nat, b: BitSeq, ext: BitSeq)
    requires job.Ok() && i <= |job.cis| && |last| == |job.last|
  {
    job.Outcome(ToBits(0, zeros) + ext) == Behind(vs, DecodeValues(job.ts, job.cis[i..], last, b + ext))
  }

  lemma DcStarts(job: DcJob)
    requires job.Ok()
    ensures DcMidway(job, 0, [], job.last, 0, job.a)
  {
    hide DecodeValues, HuffTable.Shaped, HuffTable.ValidCounts;
    assert job.cis[0..] == job.cis;
    forall ext: BitSeq
      ensures DcSame(job, 0, [], job.last, 0, job.a, ext)
    {
      assert ToBits(0, 0) + ext == ext;
      BehindOne([], 0, DecodeValues(job.ts, job.cis, job.last, job.a + ext));
    }
  }

  lemma DcNow(job: DcJob, zeros: nat, vs: seq<int>, last: seq<int>, i: nat, b: BitSeq)
    requires DcMidway(job, zeros, vs, last, i, b)
    ensures job.Outcome(ToBits(0, zeros)) == Behind(vs, DecodeValues(job.ts, job.cis[i..], last, b))
  {
    hide DecodeValues, HuffTable.Shaped, HuffTable.ValidCounts, ToBits, DcJob.Outcome, Behind;
    assert DcSame(job, zeros, vs, last, i, b, []);
    assert ToBits(0, zeros) + [] == ToBits(0, zeros) && b + [] == b;
  }

  lemma ValuesUnfold(ts: seq<HuffTable>, cis: seq<nat>, i: nat, last: seq<int>, bs: BitSeq)
    requires ValidTables(ts, |last|) && (forall k | 0 <= k < |cis| :: cis[k] < |last|) && i < |cis|
    ensures var y := DecodeDiff(ts[cis[i]], bs);
      DecodeValues(ts, cis[i..], last, bs) ==
      if y.Got? then Behind([y.value + last[cis[i]]],
                     DecodeValues(ts, cis[i + 1..], last[cis[i] := y.value + last[cis[i]]], y.rest)) else More
  {
    hide DecodeDiff, HuffTable.Shaped, HuffTable.ValidCounts;
    assert cis[i..][1..] == cis[i + 1..];
  }

  /** One more value. */
  lemma DcMoves(job: DcJob, zeros: nat, vs: seq<int>, last: seq<int>, i: nat, b: BitSeq, more: nat, diff: int,
        b': BitSeq)
    requires DcMidway(job, zeros, vs, last, i, b) && i < |job.cis|
    requires DecodeDiff(job.ts[job.cis[i]], b + ToBits(0, more)) == Got(diff, b')
    ensures var v := diff + last[job.cis[i]]; DcMidway(job, zeros + more, vs + [v], last[job.cis[i] := v], i + 1, b')
    ensures zeros == 0 && DecodeDiff(job.ts[job.cis[i]], b) == More ==> job.Outcome([]) == More
  {
    hide DecodeValues, DecodeDiff, HuffTable.Shaped, HuffTable.ValidCounts, ToBits, DcJob.Outcome, Behind;
    var ci := job.cis[i];
    var v := diff + last[ci];
    var vs', last', i', zeros' := vs + [v], last[ci := v], i + 1, zeros + more;
    forall ext: BitSeq
      ensures DcSame(job, zeros', vs', last', i', b', ext)
    {
      assert DcSame(job, zeros, vs, last, i, b, ToBits(0, more) + ext);
      ToBitsConcat(0, 0, zeros, more);
      assert ToBits(0, zeros) + (ToBits(0, more) + ext) == ToBits(0, zeros + more) + ext;
      assert b + (ToBits(0, more) + ext) == (b + ToBits(0, more)) + ext;
      DiffExtends(job.ts[ci], b + ToBits(0, more), ext);
      ValuesUnfold(job.ts, job.cis, i, last, (b + ToBits(0, more)) + ext);
      BehindOne(vs, v, DecodeValues(job.ts, job.cis[i + 1..], last', b' + ext));
    }
    DcNow(job, zeros, vs, last, i, b);
    ValuesUnfold(job.ts, job.cis, i, last, b);
    NoZeroBits();
    BehindMore(vs);
  }

  lemma BehindMore(vs: seq<int>)
    ensures Behind(vs, More) == More
  {
  }

  lemma NoZeroBits()
    ensures ToBits(0, 0) == []
  {
  }

  lemma DcEnds(job: DcJob, zeros: nat, vs: seq<int>, last: seq<int>, b: BitSeq)
    requires DcMidway(job, zeros, vs, last, |job.cis|, b)
    ensures job.Outcome(ToBits(0, zeros)) == Got((vs, last), b)
  {
    hide HuffTable.Shaped, HuffTable.ValidCounts, ToBits, DcJob.Outcome;
    DcNow(job, zeros, vs, last, |job.cis|, b);
    assert vs + [] == vs;
  }

  // ---------------------------------------------------------------- refinement

  /** Each value takes the next bit. */
  function Refined(al: nat, ds: seq<int>, bs: BitSeq, n: nat): (r: seq<int>)
    requires n <= |ds| && n <= |bs|
    ensures |r| == |ds|
  {
    seq(|ds|, i requires 0 <= i < |ds| => if i < n then SetBit(ds[i], bs[i], al) else ds[i])
  }

  lemma {:induction false} RefineIs(al: nat, ds: seq<int>, bs: BitSeq)
    ensures DecodeRefine(al, ds, bs) == if |bs| < |ds| then More else Got(Refined(al, ds, bs, |ds|), bs[|ds|..])
    decreases |ds|
  {
    hide SetBit;
    if ds == [] {
      assert bs[0..] == bs && Refined(al, ds, bs, 0) == [];
    } else if bs != [] {
      RefineIs(al, ds[1..], bs[1..]);
      if |bs| >= |ds| {
        assert Refined(al, ds, bs, |ds|) == [SetBit(ds[0], bs[0], al)] + Refined(al, ds[1..], bs[1..], |ds| - 1);
        assert bs[1..][|ds| - 1..] == bs[|ds|..];
      }
    }
  }

  /** Setting a bit again changes nothing. */
  lemma SetBitTwice(c: int, bit: bool, al: nat)
    ensures SetBit(SetBit(c, bit, al), bit, al) == SetBit(c, bit, al)
  {
    ShrAdd(c, 1, al);
  }

  /** An attempt that was given up after `n` blocks can be repeated on what it has left. */
  lemma RefineAgain(al: nat, ds: seq<int>, bs: BitSeq, n: nat, ext: BitSeq)
    requires n <= |ds| && n <= |bs|
    ensures DecodeRefine(al, Refined(al, ds, bs, n), bs + ext) == DecodeRefine(al, ds, bs + ext)
  {
    hide SetBit, DecodeRefine;
    var ds' := Refined(al, ds, bs, n);
    RefineIs(al, ds, bs + ext);
    RefineIs(al, ds', bs + ext);
    if |bs + ext| >= |ds| {
      forall i: nat | i < |ds|
        ensures Refined(al, ds', bs + ext, |ds|)[i] == Refined(al, ds, bs + ext, |ds|)[i]
      {
        SetBitTwice(ds[i], (bs + ext)[i], al);
      }
      assert Refined(al, ds', bs + ext, |ds|) == Refined(al, ds, bs + ext, |ds|);
    }
  }

  /** Values on which the pass goes on in the same way, whatever bits are still to come. */
  ghost predicate AsGood(al: nat, ds: seq<int>, ds': seq<int>, bs: BitSeq)
  {
    forall ext: BitSeq :: AsGoodWith(al, ds, ds', bs, ext)
  }

  ghost predicate AsGoodWith(al: nat, ds: seq<int>, ds': seq<int>, bs: BitSeq, ext: BitSeq)
  {
    DecodeRefine(al, ds', bs + ext) == DecodeRefine(al, ds, bs + ext)
  }

  lemma GivenUp(al: nat, ds: seq<int>, bs: BitSeq, n: nat)
    requires n <= |ds| && n <= |bs|
    ensures AsGood(al, ds, Refined(al, ds, bs, n), bs)
  {
    hide DecodeRefine, Refined;
    forall ext: BitSeq
      ensures AsGoodWith(al, ds, Refined(al, ds, bs, n), bs, ext)
    {
      RefineAgain(al, ds, bs, n, ext);
    }
  }

  lemma NoneRefined(al: nat, ds: seq<int>, bs: BitSeq)
    ensures Refined(al, ds, bs, 0) == ds
  {
  }

  lemma RefinedMore(al: nat, ds: seq<int>, bs: BitSeq, ext: BitSeq, n: nat)
    requires n <= |ds| && n <= |bs|
    ensures Refined(al, ds, bs + ext, n) == Refined(al, ds, bs, n)
  {
    hide SetBit;
  }

  lemma RefinedOne(al: nat, ds: seq<int>, bs: BitSeq, n: nat)
    requires n < |ds| && n < |bs|
    ensures Refined(al, ds, bs, n + 1) == Refined(al, ds, bs, n)[n := SetBit(ds[n], bs[n], al)]
    ensures Refined(al, ds, bs, n)[n] == ds[n] && SetBit(ds[n], false, al) == ds[n]
  {
  }

  lemma FirstBit(b: BitSeq)
    requires b != []
    ensures Value(b[..1]) == if b[0] then 1 else 0
  {
    assert b[..1] == [b[0]];
    assert Value([b[0]]) == 2 * Value([]) + BitVal(b[0]) by { ValueSnoc([], b[0]); assert [] + [b[0]] == [b[0]]; }
  }

  /** `n` values have been refined, with the bits up to `b`. */
  ghost predicate RefineMidway(al: nat, ds: seq<int>, a: BitSeq, zeros: nat, n: nat, cur: seq<int>, b: BitSeq)
  {
    var all := a + ToBits(0, zeros);
    n <= |ds| && n <= |all| && b == all[n..] && cur == Refined(al, ds, all, n)
  }

  lemma RefineStarts(al: nat, ds: seq<int>, a: BitSeq)
    ensures RefineMidway(al, ds, a, 0, 0, ds, a)
  {
    NoZeroBits();
    assert a + [] == a && a[0..] == a;
    NoneRefined(al, ds, a);
  }

  lemma RefineMoves(al: nat, ds: seq<int>, a: BitSeq, zeros: nat, n: nat, cur: seq<int>, b: BitSeq, more: nat,
        bit: bool)
    requires RefineMidway(al, ds, a, zeros, n, cur, b) && n < |ds| && b + ToBits(0, more) != []
        && bit == (b + ToBits(0, more))[0]
    ensures |cur| == |ds| && cur[n] == ds[n] && SetBit(ds[n], false, al) == ds[n]
    ensures RefineMidway(al, ds, a, zeros + more, n + 1, cur[n := SetBit(ds[n], bit, al)], (b + ToBits(0, more))[1..])
    ensures b == [] && zeros == 0 ==> |a| < |ds|
  {
    hide Refined, SetBit, ToBits;
    PadTwice(a, zeros, more);
    NoZeroBits();
    var before, all := a + ToBits(0, zeros), a + ToBits(0, zeros + more);
    assert before + ToBits(0, more) == all;
    assert b + ToBits(0, more) == all[n..];
    RefinedMore(al, ds, before, ToBits(0, more), n);
    RefinedOne(al, ds, all, n);
  }

  lemma RefineStops(al: nat, ds: seq<int>, a: BitSeq, n: nat, cur: seq<int>, b: BitSeq)
    requires RefineMidway(al, ds, a, 0, n, cur, b)
    ensures AsGood(al, ds, cur, a)
  {
    NoZeroBits();
    assert a + [] == a;
    GivenUp(al, ds, a, n);
  }

  lemma RefineEnds(al: nat, ds: seq<int>, a: BitSeq, zeros: nat, cur: seq<int>, b: BitSeq)
    requires RefineMidway(al, ds, a, zeros, |ds|, cur, b)
    ensures DecodeRefine(al, ds, a + ToBits(0, zeros)) == Got(cur, b)
    ensures |a| < |ds| ==> DecodeRefine(al, ds, a) == More
  {
    hide Refined, ToBits, DecodeRefine;
    RefineIs(al, ds, a + ToBits(0, zeros));
    RefineIs(al, ds, a);
  }

  // ---------------------------------------------------------------- in place

  /** Separate blocks of 64 coefficients. */
  predicate Blocks(blocks: seq<array<int>>)
  {
    && (forall i | 0 <= i < |blocks| :: blocks[i].Length == 64)
    && forall i, j | 0 <= i < j < |blocks| :: blocks[i] != blocks[j]
  }

  /** Their DC values. */
  function DcOf(blocks: seq<array<int>>): (ds: seq<int>)
    requires Blocks(blocks)
    reads blocks
    ensures |ds| == |blocks|
  {
    seq(|blocks|, i requires 0 <= i < |blocks| reads blocks => blocks[i][0])
  }

  /** Nothing but DC values has changed. */
  twostate predicate OnlyDc(blocks: seq<array<int>>)
    requires Blocks(blocks)
    reads blocks
  {
    forall i | 0 <= i < |blocks| :: blocks[i][1..] == old(blocks[i][1..])
  }

  class ProgDcDecoder {
    const br: BitReader
    const al: nat
    const ts: seq<HuffTable>
    const tbls: seq<DDerived>
    var lastDcVal: seq<int>

    ghost predicate Valid()
      reads this, br
    {
      br.Valid() && |ts| == |tbls| == |lastDcVal| && forall ci | 0 <= ci < |ts| :: Usable1(ts[ci], tbls[ci])
    }

    /** start_pass_phuff_decoder, for a scan of DC coefficients. */
    constructor (br: BitReader, al: nat, ts: seq<HuffTable>, tbls: seq<DDerived>)
      requires br.Valid() && |ts| == |tbls| && forall ci | 0 <= ci < |ts| :: Usable1(ts[ci], tbls[ci])
      ensures Valid() && this.br == br && this.al == al && this.ts == ts && lastDcVal == seq(|ts|, _ => 0)
    {
      this.br, this.al, this.ts, this.tbls, lastDcVal := br, al, ts, tbls, seq(|ts|, _ => 0);
    }

    ghost function Job(cis: seq<nat>): DcJob
      requires br.Valid()
      reads this, br
    {
      DcJob(ts, cis, lastDcVal, br.Avail())
    }

    /** decode_mcu_DC_first. */
    method DecodeMcuFirst(cis: seq<nat>, blocks: seq<array<int>>) returns (ok: bool, ghost zeros: nat)
      requires Valid() && Blocks(blocks) && |cis| == |blocks| && forall i | 0 <= i < |cis| :: cis[i] < |ts|
      modifies this, br, blocks
      ensures Valid() && br.data == old(br.data) && br.Follows(old(br.pos), old(br.unreadMarker), old(br.insufficient))
      ensures OnlyDc(blocks)
      ensures old(br.insufficient) ==> ok && DcOf(blocks) == old(DcOf(blocks)) && lastDcVal == old(lastDcVal)
      ensures ok && !old(br.insufficient) ==>
        var job := old(Job(cis));
        && job.Ok() && job.Outcome(ToBits(0, zeros)).Got? && var r := job.Outcome(ToBits(0, zeros));
        DcOf(blocks) == Scaled(al, r.value.0) && lastDcVal == r.value.1 && br.Avail() == r.rest
      ensures ok && zeros == 0 ==> br.insufficient == old(br.insufficient)
      ensures ok && zeros > 0 ==> br.insufficient && var job := old(Job(cis)); job.Ok() && job.Outcome([]) == More
      ensures ok && zeros > 0 ==> br.unreadMarker != 0
      ensures !ok ==>
          br.Stuck(old(br.data), old(br.pos), old(br.getBuffer), old(br.bitsLeft), old(br.unreadMarker),
              old(br.insufficient))
      ensures !ok ==> br.Avail() == old(br.Avail()) && lastDcVal == old(lastDcVal)
    {
      hide HuffTable.Shaped, HuffTable.ValidCounts, DecodeDiff, ToRead, Dry, DMatches, ToBits, DcMidway, DcJob.Outcome,
          Usable1, Scaled;
      zeros := 0;
      if br.insufficient {
        return true, 0;
      }
      var pos, getBuffer, bitsLeft := br.pos, br.getBuffer, br.bitsLeft;
      ghost var job := Job(cis);
      UsableAll(ts, tbls);
      DcStarts(job);
      var state := lastDcVal;
      ghost var vs: seq<int> := [];
      for blkn := 0 to |blocks|
        invariant Valid() && br.data == old(br.data)
            && br.Follows(old(br.pos), old(br.unreadMarker), old(br.insufficient))
        invariant lastDcVal == old(lastDcVal) && DcMidway(job, zeros, vs, state, blkn, br.Avail())
        invariant |vs| == blkn && |state| == |ts| && forall i | 0 <= i < blkn :: blocks[i][0] == vs[i] * Pow2(al)
        invariant OnlyDc(blocks)
        invariant if zeros == 0 then !br.insufficient
            else br.insufficient && br.unreadMarker != 0 && job.Outcome([]) == More
      {
        var ci := cis[blkn];
        ghost var b := br.Avail();
        var s;
        ghost var more;
        ok, s, more := DecodeOne(br, ts[ci], tbls[ci]);
        if !ok {
          br.WasDry(pos, old(br.unreadMarker), old(br.insufficient));
          br.pos, br.getBuffer, br.bitsLeft := pos, getBuffer, bitsLeft;
          return;
        }
        DcMoves(job, zeros, vs, state, blkn, b, more, s, br.Avail());
        zeros := zeros + more;
        s := s + state[ci];
        state := state[ci := s];
        blocks[blkn][0] := s * Pow2(al);
        vs := vs + [s];
      }
      DcEnds(job, zeros, vs, state, br.Avail());
      assert DcOf(blocks) == Scaled(al, vs) by { ScaledAt(al, vs); }
      lastDcVal := state;
      ok := true;
    }

    /** One block of a refinement. */
    method RefineBlock(blocks: seq<array<int>>, blkn: nat, ghost ds: seq<int>, ghost a: BitSeq, ghost zeros: nat)
      returns (ok: bool, ghost more: nat)
      requires br.Valid() && Blocks(blocks) && blkn < |blocks|
          && RefineMidway(al, ds, a, zeros, blkn, DcOf(blocks), br.Avail())
      modifies br, blocks[blkn]
      ensures br.Valid() && br.data == old(br.data)
          && br.Follows(old(br.pos), old(br.unreadMarker), old(br.insufficient))
      ensures blocks[blkn][1..] == old(blocks[blkn][1..])
      ensures ok ==> RefineMidway(al, ds, a, zeros + more, blkn + 1, DcOf(blocks), br.Avail())
      ensures ok && more == 0 ==> br.insufficient == old(br.insufficient)
      ensures ok && more > 0 ==> br.insufficient && br.unreadMarker != 0 && (zeros == 0 ==> |a| < |ds|)
      ensures !ok ==> Dry(br.data, br.pos, br.unreadMarker) && (zeros == 0 ==> AsGood(al, ds, DcOf(blocks), a))
    {
      hide ToRead, Dry, ToBits, SetBit, RefineMidway, AsGood, BitReader.Valid, BitReader.Follows;
      ghost var before, cur := br.Avail(), DcOf(blocks);
      MidwayLength(al, ds, a, zeros, blkn, cur, before);
      var bit;
      ok, bit, more := FetchBit(br);
      if !ok {
        if zeros == 0 {
          RefineStops(al, ds, a, blkn, cur, before);
        }
        return;
      }
      RefineMoves(al, ds, a, zeros, blkn, cur, before, more, bit);
      NoZeroBits();
      assert more == 0 ==> before + ToBits(0, more) == before;
      if bit {
        blocks[blkn][0] := SetBit(blocks[blkn][0], true, al);
      }
      assert DcOf(blocks) == cur[blkn := SetBit(ds[blkn], bit, al)];
    }

    /** decode_mcu_DC_refine. */
    method DecodeMcuRefine(blocks: seq<array<int>>) returns (ok: bool, ghost zeros: nat)
      requires Valid() && Blocks(blocks)
      modifies br, blocks
      ensures Valid() && br.data == old(br.data) && br.Follows(old(br.pos), old(br.unreadMarker), old(br.insufficient))
      ensures OnlyDc(blocks)
      ensures ok ==>
          DecodeRefine(al, old(DcOf(blocks)), old(br.Avail()) + ToBits(0, zeros)) == Got(DcOf(blocks), br.Avail())
      ensures ok && zeros == 0 ==> br.insufficient == old(br.insufficient)
      ensures ok && zeros > 0 ==> br.insufficient && DecodeRefine(al, old(DcOf(blocks)), old(br.Avail())) == More
      ensures ok && zeros > 0 ==> br.unreadMarker != 0
      ensures !ok ==>
          br.Stuck(old(br.data), old(br.pos), old(br.getBuffer), old(br.bitsLeft), old(br.unreadMarker),
              old(br.insufficient))
      ensures !ok ==> br.Avail() == old(br.Avail()) && AsGood(al, old(DcOf(blocks)), DcOf(blocks), br.Avail())
    {
      hide ToRead, Dry, ToBits, Usable1, DecodeRefine, RefineMidway, AsGood, DcOf;
      zeros := 0;
      var pos, getBuffer, bitsLeft := br.pos, br.getBuffer, br.bitsLeft;
      ghost var ds, a := DcOf(blocks), br.Avail();
      RefineStarts(al, ds, a);
      for blkn := 0 to |blocks|
        invariant br.Valid() && br.data == old(br.data)
            && br.Follows(old(br.pos), old(br.unreadMarker), old(br.insufficient))
        invariant RefineMidway(al, ds, a, zeros, blkn, DcOf(blocks), br.Avail()) && OnlyDc(blocks)
        invariant if zeros == 0 then br.insufficient == old(br.insufficient)
            else br.insufficient && br.unreadMarker != 0 && |a| < |ds|
      {
        ghost var more;
        ok, more := RefineBlock(blocks, blkn, ds, a, zeros);
        if !ok {
          br.WasDry(pos, old(br.unreadMarker), old(br.insufficient));
          assert br.unreadMarker == 0 by { DryMarker(br.data, br.pos, br.unreadMarker); }
          br.pos, br.getBuffer, br.bitsLeft := pos, getBuffer, bitsLeft;
          return;
        }
        zeros := zeros + more;
      }
      RefineEnds(al, ds, a, zeros, DcOf(blocks), br.Avail());
      ok := true;
    }
  }

  lemma MidwayLength(al: nat, ds: seq<int>, a: BitSeq, zeros: nat, n: nat, cur: seq<int>, b: BitSeq)
    requires RefineMidway(al, ds, a, zeros, n, cur, b)
    ensures n <= |ds| == |cur|
  {
  }

  /** CHECK_BIT_BUFFER and GET_BITS of one bit. */
  method FetchBit(br: BitReader) returns (ok: bool, bit: bool, ghost zeros: nat)
    requires br.Valid()
    modifies br
    ensures br.Valid() && br.data == old(br.data) && br.Follows(old(br.pos), old(br.unreadMarker), old(br.insufficient))
    ensures ok ==> TakeBit(old(br.Avail()) + ToBits(0, zeros)) == Got(bit, br.Avail())
    ensures ok && zeros == 0 ==> br.insufficient == old(br.insufficient)
    ensures ok && zeros > 0 ==> br.insufficient && br.unreadMarker != 0 && old(br.Avail()) == []
    ensures !ok ==> Dry(br.data, br.pos, br.unreadMarker)
  {
    hide ToRead, Dry, ToBits, Value;
    bit := false;
    ok, zeros := br.CheckBits(1);
    if ok {
      ghost var b := br.Avail();
      var v := br.GetBits(1);
      FirstBit(b);
      bit := v != 0;
    }
  }

  lemma ScaledAt(al: nat, vs: seq<int>)
    ensures forall i | 0 <= i < |vs| :: Scaled(al, vs)[i] == vs[i] * Pow2(al)
  {
  }

  /** A table as jpeg_make_d_derived_tbl accepts it for DC. */
  ghost predicate Usable1(t: HuffTable, d: DDerived)
  {
    DMatches(t, d) && t.Shaped() && t.ValidCounts() && t.SymbolsAtMost(15)
  }

  lemma UsableAll(ts: seq<HuffTable>, tbls: seq<DDerived>)
    requires |ts| == |tbls| && forall ci | 0 <= ci < |ts| :: Usable1(ts[ci], tbls[ci])
    ensures ValidTables(ts, |ts|)
  {
    hide DMatches, HuffTable.Shaped, HuffTable.ValidCounts;
    forall ci | 0 <= ci < |ts|
      ensures ts[ci].Shaped() && ts[ci].ValidCounts()
    {
      assert Usable1(ts[ci], tbls[ci]);
    }
  }

  method DecodeOne(br: BitReader, t: HuffTable, d: DDerived) returns (ok: bool, diff: int, ghost zeros: nat)
    requires br.Valid() && Usable1(t, d)
    modifies br
    ensures br.Valid() && br.data == old(br.data) && t.Shaped() && t.ValidCounts()
    ensures br.Follows(old(br.pos), old(br.unreadMarker), old(br.insufficient))
    ensures ok ==> DecodeDiff(t, old(br.Avail()) + ToBits(0, zeros)) == Got(diff, br.Avail())
    ensures ok && zeros == 0 ==> br.insufficient == old(br.insufficient)
    ensures ok && zeros > 0 ==> br.insufficient && br.unreadMarker != 0 && DecodeDiff(t, old(br.Avail())) == More
    ensures !ok ==> Dry(br.data, br.pos, br.unreadMarker)
  {
    ok, diff, zeros := DecodeDc(br, t, d);
  }
}
