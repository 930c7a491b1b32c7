/** A whole progressive AC scan through the encoder, with restarts, once to count symbols and once
    to write them: both passes see the same symbols. */
module AcPass {
  import opened Bits
  import opened Coef
  import opened Huffman
  import opened HuffTables
  import opened BitOutput
  import opened Segments
  import opened AcScan
  import opened AcRoundTrip
  import opened AcEncoding
  import opened AcEncoder
  import opened Zigzag

  // ---------------------------------------------------------------- what a scan sends

  /** The tokens that blocks `zs` send right away, and what they leave pending. */
  function Fold(sc: Scan, zs: seq<Block>): (seq<Token>, Pending)
    requires sc.Valid()
  {
    if zs == [] then ([], NONE)
    else
      var before := Fold(sc, zs[..|zs| - 1]);
      Then(before.0, EncodeBlock(sc, zs[|zs| - 1], before.1))
  }

  /** All tokens of one segment. */
  function SegmentTokens(sc: Scan, zs: seq<Block>): seq<Token>
    requires sc.Valid()
  {
    Fold(sc, zs).0 + EobTokens(Fold(sc, zs).1)
  }

  /** All tokens of a scan. */
  function ScanTokens(sc: Scan, groups: seq<seq<Block>>): seq<Token>
    requires sc.Valid()
  {
    if groups == [] then [] else ScanTokens(sc, groups[..|groups| - 1]) + SegmentTokens(sc, groups[|groups| - 1])
  }

  lemma {:induction false} FoldIsScan(sc: Scan, zs: seq<Block>, rest: seq<Block>)
    requires sc.Valid()
    ensures Fold(sc, zs).0 + EncodeScan(sc, rest, Fold(sc, zs).1) == EncodeScan(sc, zs + rest, NONE)
    decreases |zs|
  {
    hide EncodeBlock;
    if zs == [] {
      assert zs + rest == rest;
    } else {
      var n := |zs| - 1;
      FoldIsScan(sc, zs[..n], [zs[n]] + rest);
      assert zs[..n] + ([zs[n]] + rest) == zs + rest;
      var before := Fold(sc, zs[..n]);
      var (toks, p) := EncodeBlock(sc, zs[n], before.1);
      assert ([zs[n]] + rest)[1..] == rest;
      assert before.0 + (toks + EncodeScan(sc, rest, p)) == (before.0 + toks) + EncodeScan(sc, rest, p);
    }
  }

  /** ... which is what the scan theorems are about. */
  lemma SegmentIsScan(sc: Scan, zs: seq<Block>)
    requires sc.Valid()
    ensures SegmentTokens(sc, zs) == EncodeScan(sc, zs, NONE)
  {
    FoldIsScan(sc, zs, []);
    assert zs + [] == zs;
  }

  lemma FoldSnoc(sc: Scan, zs: seq<Block>, z: Block)
    requires sc.Valid()
    ensures Fold(sc, zs + [z]) == Then(Fold(sc, zs).0, EncodeBlock(sc, z, Fold(sc, zs).1))
  {
    hide EncodeBlock;
    assert (zs + [z])[..|zs|] == zs;
  }

  lemma ScanTokensSnoc(sc: Scan, groups: seq<seq<Block>>, g: seq<Block>)
    requires sc.Valid()
    ensures ScanTokens(sc, groups + [g]) == ScanTokens(sc, groups) + SegmentTokens(sc, g)
  {
    hide Fold, SegmentTokens;
    assert (groups + [g])[..|groups|] == groups;
  }

  // ---------------------------------------------------------------- tokens appear in order

  /** What has certainly been sent after the blocks in `groups`, whatever follows. */
  function Sent(sc: Scan, groups: seq<seq<Block>>): seq<Token>
    requires sc.Valid() && groups != []
  {
    ScanTokens(sc, groups[..|groups| - 1]) + Fold(sc, groups[|groups| - 1]).0
  }

  /** Tokens missing a code stay in the scan when more blocks follow. */
  lemma {:induction false} MissingStays(t: HuffTable, sc: Scan, zs: seq<Block>, rest: seq<Block>, interval: nat)
    requires sc.Valid() && Missing(t, Sent(sc, Groups(zs, interval)))
    ensures Missing(t, ScanTokens(sc, Groups(zs + rest, interval)))
    decreases |rest|
  {
    hide Missing, Sent, Groups, ScanTokens;
    if rest == [] {
      assert zs + rest == zs;
      MissingInAll(t, sc, Groups(zs, interval));
    } else {
      assert zs + rest == (zs + [rest[0]]) + rest[1..];
      SentGrows(t, sc, zs, rest[0], interval);
      MissingStays(t, sc, zs + [rest[0]], rest[1..], interval);
    }
  }

  lemma MissingInAll(t: HuffTable, sc: Scan, g: seq<seq<Block>>)
    requires sc.Valid() && g != [] && Missing(t, Sent(sc, g))
    ensures Missing(t, ScanTokens(sc, g))
  {
    hide Missing, Fold, EobTokens;
    var a, b, c := ScanTokens(sc, g[..|g| - 1]), Fold(sc, g[|g| - 1]).0, EobTokens(Fold(sc, g[|g| - 1]).1);
    MissingFirst(t, a + b, c);
    assert (a + b) + c == a + (b + c);
  }

  lemma MissingFirst(t: HuffTable, a: seq<Token>, b: seq<Token>)
    requires Missing(t, a)
    ensures Missing(t, a + b)
  {
    assert [] + (a + b) == a + b;
    UncodedInside(t, a + b, [], a, b);
  }

  lemma SentGrows(t: HuffTable, sc: Scan, zs: seq<Block>, z: Block, interval: nat)
    requires sc.Valid() && Missing(t, Sent(sc, Groups(zs, interval)))
    ensures Missing(t, Sent(sc, Groups(zs + [z], interval)))
  {
    hide Missing, Sent, Groups;
    var g, g' := Groups(zs, interval), Groups(zs + [z], interval);
    NextGroups(zs, interval, z);
    if |g'| > |g| {
      MissingInAll(t, sc, g);
      MissingBefore(t, sc, g');
    } else {
      MissingExtended(t, sc, g, g', z);
    }
  }

  lemma MissingBefore(t: HuffTable, sc: Scan, g: seq<seq<Block>>)
    requires sc.Valid() && g != [] && Missing(t, ScanTokens(sc, g[..|g| - 1]))
    ensures Missing(t, Sent(sc, g))
  {
    hide Missing, Fold, ScanTokens;
    MissingFirst(t, ScanTokens(sc, g[..|g| - 1]), Fold(sc, g[|g| - 1]).0);
  }

  lemma MissingExtended(t: HuffTable, sc: Scan, g: seq<seq<Block>>, g': seq<seq<Block>>, z: Block)
    requires sc.Valid() && g != [] && g' != [] && g'[..|g'| - 1] == g[..|g| - 1] && g'[|g'| - 1] == g[|g| - 1] + [z]
    requires Missing(t, Sent(sc, g))
    ensures Missing(t, Sent(sc, g'))
  {
    hide Missing, Fold, EncodeBlock, ScanTokens;
    var last := g[|g| - 1];
    FoldSnoc(sc, last, z);
    var toks := EncodeBlock(sc, z, Fold(sc, last).1).0;
    MissingFirst(t, Sent(sc, g), toks);
    var a, b := ScanTokens(sc, g[..|g| - 1]), Fold(sc, last).0;
    assert (a + b) + toks == a + (b + toks);
  }

  // ---------------------------------------------------------------- the pass

  ghost predicate SegmentCoded(t: HuffTable, sc: Scan, g: seq<Block>)
  {
    t.Shaped() && t.ValidCounts() && sc.Valid() && Coded(t, SegmentTokens(sc, g))
  }

  ghost function SegmentBits(t: HuffTable, sc: Scan, g: seq<Block>): BitSeq
    requires SegmentCoded(t, sc, g)
  {
    ToksBits(t, SegmentTokens(sc, g))
  }

  ghost predicate GroupsCoded(t: HuffTable, sc: Scan, groups: seq<seq<Block>>)
  {
    forall i | 0 <= i < |groups| :: SegmentCoded(t, sc, groups[i])
  }

  /** The bits of each segment of a scan. */
  ghost function SegmentsOf(t: HuffTable, sc: Scan, groups: seq<seq<Block>>): (segs: seq<BitSeq>)
    requires GroupsCoded(t, sc, groups)
  {
    seq(|groups|, i requires 0 <= i < |groups| => SegmentBits(t, sc, groups[i]))
  }

  /** All segments of `groups`, each followed by a restart marker, have been written after `start`. */
  ghost predicate MarkedOut(t: HuffTable, sc: Scan, groups: seq<seq<Block>>, start: seq<Byte>, done: seq<Byte>)
  {
    GroupsCoded(t, sc, groups) && done == start + Marked(SegmentsOf(t, sc, groups))
  }

  lemma MarkedSnoc(t: HuffTable, sc: Scan, groups: seq<seq<Block>>, g: seq<Block>, start: seq<Byte>, done: seq<Byte>,
        num: nat, out: seq<Byte>)
    requires MarkedOut(t, sc, groups, start, done) && num == |groups| % 8 && sc.Valid()
    requires Closes(t, SegmentTokens(sc, g), done, RestartMarker(num), out)
    ensures MarkedOut(t, sc, groups + [g], start, out)
  {
    hide SegmentTokens, Coded, SegmentBytes, ToksBits, HuffTable.Shaped, HuffTable.ValidCounts;
    var groups' := groups + [g];
    assert groups'[..|groups|] == groups;
    var segs, seg := SegmentsOf(t, sc, groups), SegmentBits(t, sc, g);
    assert SegmentsOf(t, sc, groups') == segs + [seg];
    assert (segs + [seg])[..|segs|] == segs;
    var m, b, r := Marked(segs), SegmentBytes(seg), RestartMarker(num);
    assert (start + m) + b + r == start + (m + b + r);
  }

  lemma ScanWritten(t: HuffTable, sc: Scan, groups: seq<seq<Block>>, g: seq<Block>, start: seq<Byte>, done: seq<Byte>,
        out: seq<Byte>)
    requires MarkedOut(t, sc, groups, start, done) && sc.Valid() && Closes(t, SegmentTokens(sc, g), done, [], out)
    ensures GroupsCoded(t, sc, groups + [g]) && out == start + ScanBytes(SegmentsOf(t, sc, groups + [g]))
  {
    hide SegmentTokens, Coded, SegmentBytes, ToksBits, HuffTable.Shaped, HuffTable.ValidCounts;
    var groups' := groups + [g];
    assert groups'[..|groups|] == groups;
    var segs, seg := SegmentsOf(t, sc, groups), SegmentBits(t, sc, g);
    assert SegmentsOf(t, sc, groups') == segs + [seg];
    assert (segs + [seg])[..|segs|] == segs;
    assert (start + Marked(segs)) + SegmentBytes(seg) + [] == start + (Marked(segs) + SegmentBytes(seg));
  }

  /** The encoder with its restart counters. */
  class ScanPass {
    const enc: PhuffEncoder
    const interval: nat
    var restartsToGo: nat
    var nextRestartNum: nat
    ghost const start: seq<Byte>
    ghost var zs: seq<Block>

    /** Segments `groups` are complete, and `last` is under way. */
    ghost predicate State(groups: seq<seq<Block>>, last: seq<Block>)
      reads enc, enc.w, enc.counts, enc.bitBuffer
    {
      && enc.Valid() && enc.sc.Valid() && (enc.gather || (enc.t.Shaped() && enc.t.ValidCounts()))
         && (enc.toks, enc.Pend()) == Fold(enc.sc, last) && enc.past == ScanTokens(enc.sc, groups)
      && (enc.gather || MarkedOut(enc.t, enc.sc, groups, start, enc.w.done))
    }

    ghost predicate Valid()
      reads this, enc, enc.w, enc.counts, enc.bitBuffer
    {
      var g := Groups(zs, interval);
      var last := g[|g| - 1];
      State(g[..|g| - 1], last) && Counted(|g| - 1, |last|)
    }

    /** The counters after `done` complete segments and `n` MCUs of the next one. */
    ghost predicate Counted(done: nat, n: nat)
      reads this`restartsToGo, this`nextRestartNum
    {
      nextRestartNum == done % 8 && CountsDown(interval, restartsToGo, n)
    }

    /** The restart bookkeeping after each MCU. */
    method Count(ghost done: nat, ghost n: nat)
      requires Counted(done, n)
      modifies this`restartsToGo, this`nextRestartNum
      ensures if interval > 0 && n == interval then Counted(done + 1, 1) else Counted(done, n + 1)
    {
      if interval != 0 {
        if restartsToGo == 0 {
          restartsToGo := interval;
          nextRestartNum := (nextRestartNum + 1) % 8;
        }
        restartsToGo := restartsToGo - 1;
      }
    }

    constructor (enc: PhuffEncoder, interval: nat)
      requires enc.Valid() && enc.past == [] && enc.toks == [] && enc.Pend() == NONE
      requires enc.sc.Valid() && (enc.gather || (enc.t.Shaped() && enc.t.ValidCounts()))
      ensures Valid() && zs == [] && this.enc == enc && this.interval == interval && start == enc.w.done
    {
      hide PhuffEncoder.Valid;
      this.enc, this.interval, restartsToGo, nextRestartNum, start, zs := enc, interval, interval, 0, enc.w.done, [];
      new;
      assert start + [] == start;
      assert Groups<Block>([], interval) == [[]];
    }

    /** One MCU, after a restart marker if it is due. */
    method EncodeMcu(block: seq<int>) returns (ok: bool)
      requires Valid() && |block| == 64
      modifies this`restartsToGo, this`nextRestartNum, this`zs, enc, enc.w, enc.counts, enc.bitBuffer
      ensures ok ==> Valid() && enc.sc.Valid() && InRange(enc.sc, ZigzagOf(block))
      ensures zs == old(zs) + [ZigzagOf(block)]
      ensures !ok ==> Refused(ZigzagOf(block), zs)
    {
      hide State, Counted, Fold, EncodeBlock, Groups, ZigzagOf, ScanTokens, Missing, Sent, InRange;
      ghost var z, g := ZigzagOf(block), Groups(zs, interval);
      ghost var groups, last := g[..|g| - 1], g[|g| - 1];
      assert g == groups + [last] && [] + [z] == [z];
      NextGroups(zs, interval, z);
      CountersSay(|groups|, |last|);
      zs := zs + [z];
      ghost var g' := Groups(zs, interval);
      if interval != 0 && restartsToGo == 0 {
        ok := Restart(groups, last);
        if !ok {
          MissingAtRestart(enc.t, enc.sc, g, g');
          return;
        }
        ok := Encode(block, g, []);
      } else {
        ok := Encode(block, groups, last);
      }
      MissingAtEnd(enc.t, enc.sc, g');
      Count(|groups|, |last|);
    }

    lemma CountersSay(done: nat, n: nat)
      requires Counted(done, n)
      ensures interval != 0 ==> (restartsToGo == 0 <==> n == interval)
      ensures nextRestartNum == done % 8
    {
    }

    /** Why a block `z`, the last of `zs`, was not encoded. */
    ghost predicate Refused(z: Block, zs: seq<Block>)
      reads this, enc
    {
      enc.sc.Valid() && (!InRange(enc.sc, z) || (!enc.gather && Missing(enc.t, Sent(enc.sc, Groups(zs, interval)))))
    }

    /** The end of an output pass. */
    method Finish() returns (ok: bool)
      requires Valid() && !enc.gather
      modifies enc, enc.w, enc.counts
      ensures enc.sc.Valid()
      ensures ok ==> GroupsCoded(enc.t, enc.sc, Groups(zs, interval))
      ensures ok ==> enc.w.out == start + ScanBytes(SegmentsOf(enc.t, enc.sc, Groups(zs, interval)))
      ensures !ok ==> Missing(enc.t, ScanTokens(enc.sc, Groups(zs, interval)))
    {
      hide PhuffEncoder.Valid, Groups, ScanTokens, Fold, EobTokens, ScanBytes, Missing, MarkedOut;
      ghost var g := Groups(zs, interval);
      ghost var groups, last := g[..|g| - 1], g[|g| - 1];
      assert g == groups + [last];
      ghost var done := enc.w.done;
      ScanTokensSnoc(enc.sc, groups, last);
      ok := enc.FinishPass();
      if ok {
        ScanWritten(enc.t, enc.sc, groups, last, start, done, enc.w.out);
      } else {
        MissingLast(enc.t, ScanTokens(enc.sc, groups), SegmentTokens(enc.sc, last));
      }
    }

    /** The end of a statistics pass. */
    method FinishGather() returns (counts: seq<nat>)
      requires Valid() && enc.gather
      modifies enc, enc.w, enc.counts
      ensures enc.sc.Valid() && CountsAre(counts, ScanTokens(enc.sc, Groups(zs, interval)))
    {
      hide PhuffEncoder.Valid, Groups, ScanTokens, Fold, EobTokens, CountsAre, MarkedOut;
      ghost var g := Groups(zs, interval);
      ghost var groups, last := g[..|g| - 1], g[|g| - 1];
      assert g == groups + [last];
      ScanTokensSnoc(enc.sc, groups, last);
      var ok := enc.FinishGather();
      counts := enc.counts[..];
    }

    method Restart(ghost groups: seq<seq<Block>>, ghost last: seq<Block>) returns (ok: bool)
      requires State(groups, last) && nextRestartNum == |groups| % 8
      modifies enc, enc.w, enc.counts, enc.bitBuffer
      ensures ok ==> State(groups + [last], [])
      ensures enc.sc.Valid()
      ensures !ok ==> !enc.gather && Missing(enc.t, SegmentTokens(enc.sc, last))
    {
      hide PhuffEncoder.Valid, Fold, EncodeBlock, MarkedOut, ScanTokens, EobTokens, Missing, Closes;
      ok := enc.EmitRestart(nextRestartNum);
      if ok {
        ScanTokensSnoc(enc.sc, groups, last);
        NoBlocks(enc.sc);
        if !enc.gather {
          MarkedSnoc(enc.t, enc.sc, groups, last, start, old(enc.w.done), nextRestartNum, enc.w.done);
        }
      }
    }

    method Encode(block: seq<int>, ghost groups: seq<seq<Block>>, ghost last: seq<Block>) returns (ok: bool)
      requires State(groups, last) && |block| == 64
      modifies enc, enc.w, enc.counts, enc.bitBuffer
      ensures ok ==> State(groups, last + [ZigzagOf(block)]) && InRange(enc.sc, ZigzagOf(block))
      ensures enc.sc.Valid()
      ensures !ok ==>
          !InRange(enc.sc, ZigzagOf(block)) || (!enc.gather && Missing(enc.t, Fold(enc.sc, last + [ZigzagOf(block)]).0))
    {
      hide PhuffEncoder.Valid, Fold, EncodeBlock, MarkedOut, ScanTokens, EobTokens, ZigzagOf, InRange, Coded;
      FoldSnoc(enc.sc, last, ZigzagOf(block));
      if enc.sc.mode == Initial {
        ok := enc.EncodeMcuFirst(block);
      } else {
        AnyRange(enc.sc, ZigzagOf(block));
        ok := enc.EncodeMcuRefine(block);
      }
    }
  }

  /** A refinement takes coefficients of any size. */
  lemma AnyRange(sc: Scan, z: Block)
    requires sc.Valid() && sc.mode == Refine
    ensures InRange(sc, z)
  {
  }

  // ---------------------------------------------------------------- whole passes

  function Zigzags(blocks: seq<seq<int>>): (zs: seq<Block>)
    requires forall i | 0 <= i < |blocks| :: |blocks[i]| == 64
  {
    seq(|blocks|, i requires 0 <= i < |blocks| => ZigzagOf(blocks[i]))
  }

  /** All coefficients are in the range the encoder accepts. */
  predicate AllInRange(sc: Scan, zs: seq<Block>)
    requires sc.Valid()
  {
    forall i | 0 <= i < |zs| :: InRange(sc, zs[i])
  }

  /** Encode all blocks of a scan, up to the end of the pass. */
  method EncodeAll(pass: ScanPass, blocks: seq<seq<int>>) returns (ok: bool)
    requires pass.Valid() && pass.zs == [] && pass.enc.sc.Valid() && forall i | 0 <= i < |blocks| :: |blocks[i]| == 64
    modifies pass, pass.enc, pass.enc.w, pass.enc.counts, pass.enc.bitBuffer
    ensures ok ==> pass.Valid() && pass.zs == Zigzags(blocks) && AllInRange(pass.enc.sc, Zigzags(blocks))
    ensures !ok && pass.enc.gather ==> !AllInRange(pass.enc.sc, Zigzags(blocks))
    ensures !ok && AllInRange(pass.enc.sc, Zigzags(blocks)) ==>
        Missing(pass.enc.t, ScanTokens(pass.enc.sc, Groups(Zigzags(blocks), pass.interval)))
  {
    hide ScanPass.State, ScanPass.Valid, PhuffEncoder.Valid, Missing, Groups, ScanTokens, ZigzagOf, InRange, Sent;
    ghost var zs := Zigzags(blocks);
    assert zs[..0] == [];
    for i := 0 to |blocks|
      invariant pass.Valid() && pass.zs == zs[..i] && AllInRange(pass.enc.sc, zs[..i])
    {
      ok := pass.EncodeMcu(blocks[i]);
      assert zs[..i + 1] == zs[..i] + [zs[i]];
      if !ok {
        if Missing(pass.enc.t, Sent(pass.enc.sc, Groups(pass.zs, pass.interval))) {
          MissingStays(pass.enc.t, pass.enc.sc, zs[..i + 1], zs[i + 1..], pass.interval);
          assert zs[..i + 1] + zs[i + 1..] == zs;
        }
        return;
      }
    }
    assert zs[..|blocks|] == zs;
    ok := true;
  }

  /** A statistics pass: the count of every symbol of the scan. */
  method CountScan(sc: Scan, t: HuffTable, c: CDerived, blocks: seq<seq<int>>, interval: nat)
    returns (ok: bool, counts: seq<nat>)
    requires sc.Valid() && forall i | 0 <= i < |blocks| :: |blocks[i]| == 64
    ensures ok ==> CountsAre(counts, ScanTokens(sc, Groups(Zigzags(blocks), interval)))
    ensures ok <==> AllInRange(sc, Zigzags(blocks))
  {
    hide PhuffEncoder.Valid, ScanPass.Valid, Zigzags, AllInRange, Groups, ScanTokens, CountsAre;
    var w := new BitWriter([]);
    var enc := new PhuffEncoder(sc, true, t, c, w);
    var pass := new ScanPass(enc, interval);
    ok := EncodeAll(pass, blocks);
    counts := [];
    if ok {
      counts := pass.FinishGather();
    }
  }

  /** Segments that can all be written miss no symbol. */
  lemma {:induction false} NoneMissing(t: HuffTable, sc: Scan, groups: seq<seq<Block>>)
    requires sc.Valid() && t.Shaped() && GroupsCoded(t, sc, groups)
    ensures Coded(t, ScanTokens(sc, groups))
    decreases |groups|
  {
    hide HuffTable.HasCode, HuffTable.Shaped, HuffTable.ValidCounts, SegmentTokens;
    if groups != [] {
      var n := |groups| - 1;
      assert groups == groups[..n] + [groups[n]];
      assert GroupsCoded(t, sc, groups[..n]) && SegmentCoded(t, sc, groups[n]);
      ScanTokensSnoc(sc, groups[..n], groups[n]);
      NoneMissing(t, sc, groups[..n]);
    }
  }

  /** An output pass: the whole scan, segment by segment.  It fails just when a coefficient is out
      of range or a symbol of the scan has no code. */
  method WriteScan(sc: Scan, t: HuffTable, c: CDerived, w: BitWriter, blocks: seq<seq<int>>, interval: nat)
    returns (ok: bool)
    requires sc.Valid() && CMatches(t, c) && w.Valid() && w.segment == []
        && forall i | 0 <= i < |blocks| :: |blocks[i]| == 64
    modifies w
    ensures ok <==> AllInRange(sc, Zigzags(blocks)) && GroupsCoded(t, sc, Groups(Zigzags(blocks), interval))
    ensures ok ==> w.out == old(w.done) + ScanBytes(SegmentsOf(t, sc, Groups(Zigzags(blocks), interval)))
    ensures !ok && AllInRange(sc, Zigzags(blocks)) ==> Missing(t, ScanTokens(sc, Groups(Zigzags(blocks), interval)))
  {
    hide PhuffEncoder.Valid, ScanPass.Valid, BitWriter.Valid, Zigzags, AllInRange, Groups, ScanTokens, CMatches,
        GroupsCoded, ScanBytes, Missing;
    EncoderTables(false, t, c);
    var enc := new PhuffEncoder(sc, false, t, c, w);
    var pass := new ScanPass(enc, interval);
    ok := EncodeAll(pass, blocks);
    if ok {
      ok := pass.Finish();
    }
    EncoderTables(false, t, c);
    if GroupsCoded(t, sc, Groups(Zigzags(blocks), interval)) {
      NoneMissing(t, sc, Groups(Zigzags(blocks), interval));
      NotMissing(t, ScanTokens(sc, Groups(Zigzags(blocks), interval)));
    }
  }

  lemma NotMissing(t: HuffTable, toks: seq<Token>)
    requires t.Shaped() && Coded(t, toks)
    ensures !Missing(t, toks)
  {
  }

  /** With a table that has a code for every symbol counted, no symbol of the scan lacks one. */
  lemma CountedIsCoded(t: HuffTable, counts: seq<nat>, toks: seq<Token>)
    requires CountsAre(counts, toks) && t.Shaped() && t.ValidCounts()
    requires forall s: nat | s < 256 && counts[s] > 0 :: t.HasCode(s)
    ensures Coded(t, toks) && !Missing(t, toks)
  {
    hide HuffTable.HasCode;
    forall i | 0 <= i < |toks| && toks[i].Sym?
      ensures t.HasCode(toks[i].sym)
    {
      OccursAt(toks, i);
    }
  }

  lemma {:induction false} OccursAt(toks: seq<Token>, i: nat)
    requires i < |toks| && toks[i].Sym?
    ensures Occurs(toks, toks[i].sym) > 0
    decreases |toks|
  {
    var n := |toks| - 1;
    if i < n {
      OccursAt(toks[..n], i);
    }
  }

  lemma MissingAtRestart(t: HuffTable, sc: Scan, g: seq<seq<Block>>, g': seq<seq<Block>>)
    requires sc.Valid() && g != [] && Missing(t, SegmentTokens(sc, g[|g| - 1])) && g' != [] && g'[..|g'| - 1] == g
    ensures Missing(t, Sent(sc, g'))
  {
    hide Missing, SegmentTokens, Sent;
    MissingLast(t, ScanTokens(sc, g[..|g| - 1]), SegmentTokens(sc, g[|g| - 1]));
    MissingBefore(t, sc, g');
  }

  lemma MissingAtEnd(t: HuffTable, sc: Scan, g: seq<seq<Block>>)
    requires sc.Valid() && g != []
    ensures Missing(t, Fold(sc, g[|g| - 1]).0) ==> Missing(t, Sent(sc, g))
  {
    hide Missing, Fold;
    if Missing(t, Fold(sc, g[|g| - 1]).0) {
      MissingLast(t, ScanTokens(sc, g[..|g| - 1]), Fold(sc, g[|g| - 1]).0);
    }
  }

  lemma NoBlocks(sc: Scan)
    requires sc.Valid()
    ensures Fold(sc, []) == ([], NONE)
  {
  }
}
