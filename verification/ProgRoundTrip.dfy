/** The progressive AC round trip, down to bytes: a decoder brings every block of a scan that the encoder has
    written to the precision of the scan, however the data arrive. */
module ProgRoundTrip {
  import opened Bits
  import opened Reading
  import opened Coef
  import opened Huffman
  import opened HuffTables
  import opened HuffDecoding
  import opened BitOutput
  import opened BitInput
  import opened AcScan
  import opened AcRoundTrip
  import opened AcFidelity
  import opened AcPass
  import opened Arrival
  import opened McuDecoder
  import opened PhuffDecoder
  import opened RestartMarkers
  import opened Segments
  import opened SeqRoundTrip
  import opened Zigzag

  // ---------------------------------------------------------------- blocks one after the other

  /** Decoding blocks, with the end-of-band run that is left behind the last of them. */
  function Follow(t: HuffTable, sc: Scan, ds: seq<Block>, run: nat, bs: BitSeq): (r: Read<(seq<Block>, nat)>)
    requires t.Shaped() && t.ValidCounts() && sc.Valid()
    ensures r.Got? ==> |r.value.0| == |ds|
    decreases |ds|
  {
    if ds == [] then Got(([], run), bs)
    else
      var n := |ds| - 1;
      var (r, b1) :- Follow(t, sc, ds[..n], run, bs);
      var (d, b2) :- DecodeBlock(t, sc, ds[n], r.1, b1);
      Got((r.0 + [d.0], d.1), b2)
  }

  /** The same from the front. */
  function Then1(d: Block, r: Read<(seq<Block>, nat)>): Read<(seq<Block>, nat)>
  {
    if r.Got? then Got(([d] + r.value.0, r.value.1), r.rest) else More
  }

  lemma {:induction false} FollowFront(t: HuffTable, sc: Scan, ds: seq<Block>, run: nat, bs: BitSeq)
    requires t.Shaped() && t.ValidCounts() && sc.Valid() && ds != []
    ensures var d := DecodeBlock(t, sc, ds[0], run, bs);
      Follow(t, sc, ds, run, bs) == if d.Got? then Then1(d.value.0, Follow(t, sc, ds[1..], d.value.1, d.rest)) else More
    decreases |ds|
  {
    hide HuffTable.Shaped, HuffTable.ValidCounts, DecodeBlock;
    var n := |ds| - 1;
    var d := DecodeBlock(t, sc, ds[0], run, bs);
    if n == 0 {
      assert ds[..0] == [] && ds[1..] == [];
      if d.Got? {
        assert [] + [d.value.0] == [d.value.0] + [];
      }
    } else {
      FollowFront(t, sc, ds[..n], run, bs);
      assert ds[..n][1..] == ds[1..][..n - 1] && ds[..n][0] == ds[0];
      if d.Got? {
        var r := Follow(t, sc, ds[1..][..n - 1], d.value.1, d.rest);
        if r.Got? {
          var e := DecodeBlock(t, sc, ds[n], r.value.1, r.rest);
          if e.Got? {
            assert ([d.value.0] + r.value.0) + [e.value.0] == [d.value.0] + (r.value.0 + [e.value.0]);
          }
        }
      }
    }
  }

  lemma {:induction false} FollowIsScan(t: HuffTable, sc: Scan, ds: seq<Block>, run: nat, bs: BitSeq)
    requires t.Shaped() && t.ValidCounts() && sc.Valid()
    ensures var r := Follow(t, sc, ds, run, bs);
      AcScan.DecodeScan(t, sc, ds, run, bs) == if r.Got? then Got(r.value.0, r.rest) else More
    decreases |ds|
  {
    hide HuffTable.Shaped, HuffTable.ValidCounts, DecodeBlock;
    if ds != [] {
      FollowFront(t, sc, ds, run, bs);
      var d := DecodeBlock(t, sc, ds[0], run, bs);
      if d.Got? {
        FollowIsScan(t, sc, ds[1..], d.value.1, d.rest);
      }
    }
  }

  /** Blocks that can all be decoded can be decoded up to any one of them. */
  lemma {:induction false} FollowPrefix(t: HuffTable, sc: Scan, ds: seq<Block>, run: nat, bs: BitSeq, n: nat)
    requires t.Shaped() && t.ValidCounts() && sc.Valid() && n <= |ds| && Follow(t, sc, ds, run, bs).Got?
    ensures var r := Follow(t, sc, ds[..n], run, bs); r.Got? && r.value.0 == Follow(t, sc, ds, run, bs).value.0[..n]
    decreases |ds|
  {
    hide HuffTable.Shaped, HuffTable.ValidCounts, DecodeBlock;
    if n == |ds| {
      assert ds[..n] == ds;
    } else {
      var m := |ds| - 1;
      FollowPrefix(t, sc, ds[..m], run, bs, n);
      assert ds[..m][..n] == ds[..n];
    }
  }

  // ---------------------------------------------------------------- the file

  /** A scan in the file: what the encoder saw (`zs`), what the decoder holds before it (`ds`), and the bytes after
      it. */
  datatype AcFile = AcFile(t: HuffTable, sc: Scan, interval: nat, zs: seq<Block>, ds: seq<Block>,
        following: seq<Byte>) {
    ghost predicate Coded()
    {
      t.Valid() && sc.Valid() && |ds| == |zs| && AcPass.GroupsCoded(t, sc, Groups())
    }

    ghost predicate Ok()
    {
      Coded() && AcFidelity.Holds(sc, ds, zs) && StartsMarker(following)
    }

    function Groups(): seq<seq<Block>> { Segments.Groups(zs, interval) }

    ghost function Segs(): (segs: seq<BitSeq>)
      requires Coded()
      ensures |segs| == |Groups()|
    {
      AcPass.SegmentsOf(t, sc, Groups())
    }

    /** The blocks of segment `s` begin with this one. */
    function Off(s: nat): nat
      requires s <= |Groups()|
    {
      |Joined(Groups()[..s])|
    }

    /** What the decoder holds of them before the scan. */
    function Held(s: nat): (h: seq<Block>)
      requires |ds| == |zs| && s < |Groups()|
      ensures |h| == |Groups()[s]|
    {
      GroupSpan(zs, interval, s);
      ds[Off(s)..Off(s) + |Groups()[s]|]
    }

    ghost function At(s: nat, n: nat): Read<(seq<Block>, nat)>
      requires Coded() && s < |Groups()| && n <= |Groups()[s]|
    {
      Follow(t, sc, Held(s)[..n], 0, Segs()[s] + Padding(|Segs()[s]|))
    }

    /** Decoded so far: `n` blocks of segment `s`. */
    ghost predicate Followed(s: nat, n: nat)
    {
      Coded() && s < |Groups()| && n <= |Groups()[s]| && At(s, n).Got?
    }

    ghost function Rest(s: nat, n: nat): BitSeq
      requires Followed(s, n)
    {
      At(s, n).rest
    }

    ghost function Run(s: nat, n: nat): nat
      requires Followed(s, n)
    {
      At(s, n).value.1
    }
  }

  /** Where the blocks of a group are among all of them. */
  lemma GroupSpan<T>(xs: seq<T>, interval: nat, s: nat)
    requires s < |Groups(xs, interval)|
    ensures var g := Groups(xs, interval); var o := |Joined(g[..s])|;
      o + |g[s]| <= |xs| && xs[o..o + |g[s]|] == g[s]
  {
    hide Groups;
    var g := Groups(xs, interval);
    JoinedGroups(xs, interval);
    JoinedAround(g, s);
  }

  lemma SegmentKnown(f: AcFile, s: nat)
    requires f.Coded() && s < |f.Groups()|
    ensures AcPass.SegmentCoded(f.t, f.sc, f.Groups()[s]) && f.Segs()[s] == AcPass.SegmentBits(f.t, f.sc, f.Groups()[s])
  {
    hide Groups, AcPass.SegmentCoded;
    assert AcPass.SegmentCoded(f.t, f.sc, f.Groups()[s]);
  }

  lemma HeldHolds(f: AcFile, s: nat)
    requires f.Ok() && s < |f.Groups()|
    ensures AcFidelity.Holds(f.sc, f.Held(s), f.Groups()[s])
  {
    hide Groups, HoldsFrom, InRange, AcPass.GroupsCoded, HuffTable.Valid;
    GroupSpan(f.zs, f.interval, s);
    var o := f.Off(s);
    forall i | 0 <= i < |f.Groups()[s]|
      ensures HoldsFrom(f.sc, f.Held(s)[i], f.Groups()[s][i], f.sc.ss) && InRange(f.sc, f.Groups()[s][i])
    {
      assert f.Groups()[s][i] == f.zs[o..o + |f.Groups()[s]|][i] == f.zs[o + i];
    }
  }

  /** A block as the scan leaves it: the band at its precision, the rest as it was. */
  predicate Brought(sc: Scan, d: Block, z: Block, d': Block)
  {
    forall k | 0 <= k < 64 :: d'[k] == if sc.ss <= k <= sc.se then Trunc(z[k], sc.al) else d[k]
  }

  /** A segment is decoded to the end of its bits, and what comes out is right. */
  lemma SegmentFollows(f: AcFile, s: nat)
    requires f.Ok() && s < |f.Groups()|
    ensures var n := |f.Groups()[s]|;
      && f.Followed(s, n) && f.Rest(s, n) == Padding(|f.Segs()[s]|)
      && forall i | 0 <= i < n :: Brought(f.sc, f.Held(s)[i], f.Groups()[s][i], f.At(s, n).value.0[i])
  {
    hide Groups, Follow, AcScan.DecodeScan, AcFidelity.Holds, ToksBits, AcPass.SegmentTokens, Trunc, HuffTable.Shaped,
        HuffTable.ValidCounts, HuffTable.DistinctSymbols, Padding, AcFile.Held, AcPass.GroupsCoded, AcPass.SegmentsOf;
    var n, zs := |f.Groups()[s]|, f.Groups()[s];
    SegmentKnown(f, s);
    SegmentIsScan(f.sc, zs);
    HeldHolds(f, s);
    AcScanRoundTrip(f.t, f.sc, f.Held(s), zs, Padding(|f.Segs()[s]|));
    FollowIsScan(f.t, f.sc, f.Held(s), 0, f.Segs()[s] + Padding(|f.Segs()[s]|));
    assert f.Held(s)[..n] == f.Held(s);
  }

  lemma AllFollowed(f: AcFile, s: nat, n: nat)
    requires f.Ok() && s < |f.Groups()| && n <= |f.Groups()[s]|
    ensures f.Followed(s, n)
  {
    hide Groups, Follow, AcFidelity.Holds, HuffTable.Shaped, HuffTable.ValidCounts, HuffTable.DistinctSymbols,
        Padding, AcFile.Held, AcFile.Segs, AcPass.GroupsCoded, Brought;
    SegmentFollows(f, s);
    var m := |f.Groups()[s]|;
    assert f.Held(s)[..m] == f.Held(s);
    FollowPrefix(f.t, f.sc, f.Held(s), 0, f.Segs()[s] + Padding(|f.Segs()[s]|), n);
  }

  /** What has to come out for block `n` of segment `s`. */
  ghost function New(f: AcFile, s: nat, n: nat): Block
    requires f.Ok() && s < |f.Groups()| && n < |f.Groups()[s]|
  {
    AllFollowed(f, s, n + 1);
    f.At(s, n + 1).value.0[n]
  }

  lemma BlockComes(f: AcFile, s: nat, n: nat)
    requires f.Ok() && s < |f.Groups()| && n < |f.Groups()[s]|
    ensures f.Followed(s, n) && f.Followed(s, n + 1)
    ensures DecodeBlock(f.t, f.sc, f.Held(s)[n], f.Run(s, n), f.Rest(s, n))
        == Got((New(f, s, n), f.Run(s, n + 1)), f.Rest(s, n + 1))
    ensures Brought(f.sc, f.Held(s)[n], f.Groups()[s][n], New(f, s, n))
  {
    hide Groups, DecodeBlock, AcFidelity.Holds, HuffTable.Shaped, HuffTable.ValidCounts, HuffTable.DistinctSymbols,
        Padding, AcFile.Held, AcFile.Segs, AcPass.GroupsCoded, Brought;
    AllFollowed(f, s, n);
    AllFollowed(f, s, n + 1);
    var held := f.Held(s);
    assert held[..n + 1][..n] == held[..n] && held[..n + 1][n] == held[n];
    SegmentFollows(f, s);
    var m := |f.Groups()[s]|;
    assert held[..m] == held;
    FollowPrefix(f.t, f.sc, held, 0, f.Segs()[s] + Padding(|f.Segs()[s]|), n + 1);
  }

  // ---------------------------------------------------------------- where decoding stands

  /** The marker after segment `s`, and what follows it. */
  ghost predicate AfterSegment(f: AcFile, all: seq<Byte>, s: nat, ahead: Next)
  {
    && f.Coded() && s < |f.Groups()| && ahead.Marker? && |f.following| >= 2
    && (s + 1 < |f.Groups()| ==> ahead.m == RST0 + s % 8 && AtSegment(all, ahead.pos, f.Segs(), s + 1, f.following))
    && (s + 1 == |f.Groups()| ==> ahead.m == f.following[1])
  }

  /** The next block is number `n` of segment `s`. */
  ghost predicate EntryFor(f: AcFile, all: seq<Byte>, s: nat, n: nat, e: BlockEntry)
  {
    && f.Ok() && s < |f.Groups()| && n < |f.Groups()[s]| && f.Followed(s, n)
    && e.EntryAt? && e.bits == f.Rest(s, n) && AfterSegment(f, all, s, e.ahead) && e.run == f.Run(s, n)
    && !e.insufficient && CountsDown(f.interval, e.toGo, n) && (f.interval > 0 ==> e.toGo > 0) && e.num == s % 8
  }

  /** The decoder is set up for this scan. */
  ghost predicate For(dec: ProgAcDecoder, f: AcFile)
  {
    dec.band.t == f.t && dec.band.sc == f.sc && dec.interval == f.interval
  }

  /** What is left of the segment, and of the end-of-band run. */
  ghost predicate Level(dec: ProgAcDecoder, f: AcFile, all: seq<Byte>, s: nat, n: nat)
    requires f.Followed(s, n) && dec.band.br.pos <= |all|
    reads dec.band, dec.band.br
  {
    if n == |f.Groups()[s]| then |dec.Left(all)| < 8
    else !dec.band.br.insufficient && dec.Left(all) == f.Rest(s, n) && dec.band.eobrun == f.Run(s, n)
  }

  /** The decoder has finished `n` blocks of segment `s`. */
  ghost predicate Stands(dec: ProgAcDecoder, f: AcFile, all: seq<Byte>, s: nat, n: nat)
    reads dec, dec.band, dec.band.br, dec.mr
  {
    && f.Followed(s, n) && dec.band.br.pos <= |all| && Level(dec, f, all, s, n)
    && dec.Valid() && f.Ok() && For(dec, f) && dec.Clean() && CountsDown(f.interval, dec.restartsToGo, n)
       && dec.mr.nextRestartNum == s % 8
    && AfterSegment(f, all, s, Ahead(all, dec.band.br.pos, dec.band.br.unreadMarker))
  }

  /** Inside a segment no restart is due. */
  lemma EntryWithin(dec: ProgAcDecoder, f: AcFile, all: seq<Byte>, s: nat, n: nat)
    requires Stands(dec, f, all, s, n) && n < |f.Groups()[s]|
    ensures EntryFor(f, all, s, n, dec.EntryIn(all)) && !dec.RestartDue()
  {
    hide Groups, AcFile.Ok, AcFile.Coded, AcFile.Followed, ProgAcDecoder.Valid, ToRead, Ahead, AfterSegment,
        AcFile.Rest, AcFile.Run;
    FollowedParts(f, s, n);
    GroupSizes(f.zs, f.interval, s);
  }

  lemma FollowedParts(f: AcFile, s: nat, n: nat)
    requires f.Followed(s, n)
    ensures s < |f.Groups()| && n <= |f.Groups()[s]|
  {
    hide Groups, AcFile.Coded, AcFile.At;
  }

  lemma StartOfSegment(f: AcFile, s: nat)
    requires f.Ok() && s < |f.Groups()|
    ensures f.Followed(s, 0) && f.Rest(s, 0) == f.Segs()[s] + Padding(|f.Segs()[s]|) && f.Run(s, 0) == 0
  {
    hide Groups, AcFile.Ok, AcFile.Segs, AcFile.Held, HuffTable.Valid, AcPass.GroupsCoded, Padding;
    FileCoded(f);
    assert f.Held(s)[..0] == [];
  }

  lemma FileCoded(f: AcFile)
    requires f.Ok()
    ensures f.Coded() && StartsMarker(f.following)
  {
    hide AcFile.Coded, AcFidelity.Holds;
  }

  /** After a segment comes its restart marker, and with it the next segment. */
  lemma EntryNext(dec: ProgAcDecoder, f: AcFile, all: seq<Byte>, s: nat)
    requires s < |f.Groups()| && Stands(dec, f, all, s, |f.Groups()[s]|) && s + 1 < |f.Groups()|
        && f.Groups()[s + 1] != []
    ensures EntryFor(f, all, s + 1, 0, dec.EntryIn(all)) && |dec.Left(all)| < 8
  {
    hide Groups, AcFile.Ok, AcFile.Coded, AcFile.Followed, ProgAcDecoder.Valid, ToRead, RestBytes, Unpack,
        RestEnd, AcFile.Rest, AcFile.Run, AcFile.Segs, ScanFrom, Padding;
    FileCoded(f);
    GroupSizes(f.zs, f.interval, s);
    var ahead := Ahead(all, dec.band.br.pos, dec.band.br.unreadMarker);
    AtRestart(f, all, s, ahead);
    StartOfSegment(f, s + 1);
  }

  lemma AtRestart(f: AcFile, all: seq<Byte>, s: nat, ahead: Next)
    requires s + 1 < |f.Groups()| && AfterSegment(f, all, s, ahead)
    ensures f.Coded() && ahead.m == RST0 + s % 8 && ahead.pos <= |all|
    ensures Unpack(RestBytes(all, ahead.pos)) == f.Segs()[s + 1] + Padding(|f.Segs()[s + 1]|)
    ensures AfterSegment(f, all, s + 1, RestEnd(all, ahead.pos))
  {
    hide Groups, AcFile.Coded, AcFile.Segs, RestBytes, Unpack, RestEnd, ScanFrom, AtSegment, Padding;
    AtSegmentPos(all, ahead.pos, f.Segs(), s + 1, f.following);
    var next := ReadSegment(all, ahead.pos, f.Segs(), s + 1, f.following);
  }

  // ---------------------------------------------------------------- one block

  /** Decoding block `d` at the entry gives what is due. */
  ghost predicate Due(dec: ProgAcDecoder, f: AcFile, s: nat, n: nat, e: BlockEntry, d: Block)
  {
    && f.Ok() && s < |f.Groups()| && n < |f.Groups()[s]| && f.Followed(s, n + 1) && e.EntryAt? && dec.TableOk()
    && dec.Outcome1(e, d, []) == Got((New(f, s, n), f.Run(s, n + 1)), f.Rest(s, n + 1))
  }

  lemma FirstDue(dec: ProgAcDecoder, f: AcFile, all: seq<Byte>, s: nat, n: nat, e: BlockEntry, d: Block)
    requires EntryFor(f, all, s, n, e) && For(dec, f) && d == f.Held(s)[n]
    ensures Due(dec, f, s, n, e, d)
  {
    hide Groups, AcFile.Followed, AfterSegment, AcFile.Rest, AcFile.Run, AcFile.Held, New, DecodeBlock,
        AcPass.GroupsCoded, HuffTable.Shaped, HuffTable.ValidCounts,
      HuffTable.DistinctSymbols, AcFidelity.Holds, Brought;
    BlockComes(f, s, n);
    assert e.bits + [] == e.bits;
  }

  /** The block that comes out is the one that is due. */
  lemma BlockArrived(dec: ProgAcDecoder, f: AcFile, all: seq<Byte>, s: nat, n: nat, e: BlockEntry, d: Block,
        zeros: nat, d': Block)
    requires dec.Valid() && dec.Clean() && dec.band.br.pos <= |all| && EntryFor(f, all, s, n, e) && For(dec, f)
    requires Due(dec, f, s, n, e, d) && dec.Decoded(e, d, zeros, d', dec.Left(all))
    requires dec.Advanced(e, Ahead(all, dec.band.br.pos, dec.band.br.unreadMarker))
    ensures d' == New(f, s, n) && Stands(dec, f, all, s, n + 1) && !dec.band.br.insufficient
  {
    hide Groups, AcFile.Followed, AfterSegment, AcFile.Ok, AcFile.Coded, AcFile.Rest, AcFile.Run, New,
        ProgAcDecoder.Valid, ToRead, Ahead, ProgAcDecoder.Outcome1, ProgAcDecoder.TableOk;
    if zeros == 0 {
      NoZeroBits();
    }
    GroupSizes(f.zs, f.interval, s);
    if n + 1 == |f.Groups()[s]| {
      EndOfSegment(f, s);
    }
  }

  /** Only padding is left at the end of a segment. */
  lemma EndOfSegment(f: AcFile, s: nat)
    requires f.Ok() && s < |f.Groups()|
    ensures f.Followed(s, |f.Groups()[s]|) && |f.Rest(s, |f.Groups()[s]|)| < 8
  {
    hide Groups, AcFile.Ok, AcFile.Coded, AcFile.Followed, AcFile.Rest, Brought, AcFile.At, AcFile.Held;
    SegmentFollows(f, s);
  }

  // ---------------------------------------------------------------- the whole scan

  /** The decoder stands before block `n` of segment `s`, which may be the start of the segment after the one it is
      in. */
  ghost predicate Before1(dec: ProgAcDecoder, f: AcFile, all: seq<Byte>, s: nat, n: nat)
    reads dec, dec.band, dec.band.br, dec.mr
  {
    && dec.band.br.pos <= |all| && (dec.RestartDue() ==> |dec.Left(all)| < 8)
       && EntryFor(f, all, s, n, dec.EntryIn(all))
    && dec.Valid() && For(dec, f) && dec.Clean()
  }

  lemma BeforeBlock(dec: ProgAcDecoder, f: AcFile, all: seq<Byte>, i: nat, s: nat, n: nat) returns (s': nat, n': nat)
    requires Stands(dec, f, all, s, n) && Reached(f.zs, f.interval, i, s, n) && i < |f.zs|
    ensures Before1(dec, f, all, s', n') && Reached(f.zs, f.interval, i, s', n')
        && Reached(f.zs, f.interval, i + 1, s', n' + 1)
    ensures s' < |f.Groups()| && n' < |f.Groups()[s']| && f.Groups()[s'][n'] == f.zs[i]
  {
    hide Groups, AcFile.Followed, AfterSegment, AcFile.Ok, AcFile.Coded, AcFile.Rest, AcFile.Run, ProgAcDecoder.Valid,
        ToRead, Ahead, ProgAcDecoder.EntryIn, EntryFor, Reached;
    FollowedParts(f, s, n);
    ReachedNext(f.zs, f.interval, i, s, n);
    if n < |f.Groups()[s]| {
      EntryWithin(dec, f, all, s, n);
      s', n' := s, n;
    } else {
      EntryNext(dec, f, all, s);
      s', n' := s + 1, 0;
    }
  }

  /** Block `n` of segment `s` is block `i` of the scan. */
  lemma HeldIs(f: AcFile, i: nat, s: nat, n: nat)
    requires |f.ds| == |f.zs| && i < |f.zs| && Reached(f.zs, f.interval, i, s, n) && n < |f.Groups()[s]|
    ensures f.Held(s)[n] == f.ds[i]
  {
    hide Groups;
    GroupSpan(f.zs, f.interval, s);
    assert |Joined(f.Groups()[..s]) + f.Groups()[s][..n]| == |f.zs[..i]|;
  }

  /** ... and `block` will hold what is due, whatever an interrupted attempt has stored there. */
  ghost predicate Trying(dec: ProgAcDecoder, f: AcFile, all: seq<Byte>, s: nat, n: nat, block: array<int>)
    reads dec, dec.band, dec.band.br, dec.mr, block
  {
    Before1(dec, f, all, s, n) && block.Length == 64 && Due(dec, f, s, n, dec.EntryIn(all), ZigzagOf(block[..]))
  }

  /** One call of the decoder. */
  method Attempt(dec: ProgAcDecoder, block: array<int>, ghost f: AcFile, ghost more: seq<Byte>, ghost s: nat,
        ghost n: nat) returns (ok: bool)
    requires Trying(dec, f, dec.band.br.data + more, s, n, block)
    modifies dec, dec.band, dec.band.br, dec.mr, block
    ensures dec.band.br.data == old(dec.band.br.data)
    ensures ok ==> Stands(dec, f, dec.band.br.data + more, s, n + 1) && !dec.band.br.insufficient
                   && ZigzagOf(block[..]) == New(f, s, n)
    ensures !ok ==> Trying(dec, f, dec.band.br.data + more, s, n, block) && more != []
  {
    hide Groups, AcFile.Followed, AfterSegment, AcFile.Ok, AcFile.Coded, AcFile.Rest, AcFile.Run, New, ToRead,
        Ahead, ProgAcDecoder.EntryIn, Due, ZigzagOf, DMatches,
      ProgAcDecoder.Decoded, ProgAcDecoder.Advanced, ProgAcDecoder.Undecoded, ProgAcDecoder.Outcome1,
          ProgAcDecoder.TableOk;
    ghost var all := dec.band.br.data + more;
    ghost var e, d := dec.EntryIn(all), ZigzagOf(block[..]);
    var r;
    ghost var zeros;
    r, zeros := dec.DecodeMcu(block, more);
    ok := r == Done;
    if ok {
      BlockArrived(dec, f, all, s, n, e, d, zeros, ZigzagOf(block[..]));
    } else {
      DueAgain(dec, f, s, n, e, d, ZigzagOf(block[..]));
      StillComing(dec, f, all, s, n);
      assert dec.band.br.data + [] == dec.band.br.data;
    }
  }

  lemma DueAgain(dec: ProgAcDecoder, f: AcFile, s: nat, n: nat, e: BlockEntry, d: Block, d': Block)
    requires e.EntryAt? && Due(dec, f, s, n, e, d) && dec.Undecoded(e, d, d')
    ensures Due(dec, f, s, n, e, d')
  {
    hide Groups, AcFile.Followed, AcFile.Ok, AcFile.Coded, AcFile.Rest, AcFile.Run, New, ProgAcDecoder.Outcome1,
        ProgAcDecoder.TableOk;
  }

  /** While the marker after the segment has not been seen there are data to come. */
  lemma StillComing(dec: ProgAcDecoder, f: AcFile, all: seq<Byte>, s: nat, n: nat)
    requires dec.Valid() && dec.band.br.pos <= |all| && EntryFor(f, all, s, n, dec.EntryIn(all))
    ensures Ahead(all, dec.band.br.pos, dec.band.br.unreadMarker).Marker?
  {
    hide Groups, AcFile.Ok, AcFile.Coded, AcFile.Followed, AcFile.Rest, AcFile.Run, ProgAcDecoder.Valid,
        ToRead, RestEnd, RestBytes, Unpack;
  }

  /** The source delivers another chunk. */
  method Arrive(dec: ProgAcDecoder, chunk: seq<Byte>, ghost f: AcFile, ghost all: seq<Byte>, ghost s: nat,
        ghost n: nat, ghost block: array<int>)
    requires Trying(dec, f, all, s, n, block)
    modifies dec.band.br`data
    ensures Trying(dec, f, all, s, n, block) && dec.band.br.data == old(dec.band.br.data) + chunk
  {
    hide Groups, ToRead, Ahead, EntryFor, Due, ZigzagOf, DMatches;
    dec.band.br.data := dec.band.br.data + chunk;
  }

  method NextBlock(dec: ProgAcDecoder, block: array<int>, chunks: seq<seq<Byte>>, used0: nat, ghost f: AcFile,
        ghost all: seq<Byte>, ghost s: nat, ghost n: nat)
    returns (used: nat)
    requires used0 <= |chunks| && dec.band.br.data + Joined(chunks[used0..]) == all && Before1(dec, f, all, s, n)
    requires block.Length == 64 && ZigzagOf(block[..]) == f.Held(s)[n]
    modifies dec, dec.band, dec.band.br, dec.mr, block
    ensures used0 <= used <= |chunks| && dec.band.br.data + Joined(chunks[used..]) == all
    ensures Stands(dec, f, all, s, n + 1) && !dec.band.br.insufficient
    ensures f.Ok() && s < |f.Groups()| && n < |f.Groups()[s]| && ZigzagOf(block[..]) == New(f, s, n)
  {
    hide Groups, AcFile.Ok, AcFile.Coded, AcFile.Held, AcFile.Followed, ProgAcDecoder.Valid, ToRead, Ahead,
        AcFile.Rest, AcFile.Run, New, Joined, Stands, Due, ZigzagOf,
      ProgAcDecoder.EntryIn, EntryFor;
    used := used0;
    EntryParts(f, all, s, n, dec.EntryIn(all));
    FirstDue(dec, f, all, s, n, dec.EntryIn(all), ZigzagOf(block[..]));
    var ok := Attempt(dec, block, f, Joined(chunks[used..]), s, n);
    while !ok
      invariant used0 <= used <= |chunks| && dec.band.br.data + Joined(chunks[used..]) == all
      invariant ok ==> Stands(dec, f, all, s, n + 1) && !dec.band.br.insufficient && ZigzagOf(block[..]) == New(f, s, n)
      invariant !ok ==> Trying(dec, f, all, s, n, block) && Joined(chunks[used..]) != []
      decreases |chunks| - used
    {
      ChunksLeft(chunks, used);
      ghost var data := dec.band.br.data;
      Arrive(dec, chunks[used], f, all, s, n, block);
      assert data + (chunks[used] + Joined(chunks[used + 1..])) == (data + chunks[used]) + Joined(chunks[used + 1..]);
      used := used + 1;
      ok := Attempt(dec, block, f, Joined(chunks[used..]), s, n);
    }
  }

  lemma EntryParts(f: AcFile, all: seq<Byte>, s: nat, n: nat, e: BlockEntry)
    requires EntryFor(f, all, s, n, e)
    ensures f.Ok() && s < |f.Groups()| && n < |f.Groups()[s]| && |f.ds| == |f.zs|
  {
    hide Groups, AcFile.Followed, AcFile.Rest, AcFile.Run, AfterSegment, AcPass.GroupsCoded, HuffTable.Valid,
        AcFidelity.Holds;
  }

  /** The decoder stands before the scan, set up for it. */
  ghost predicate Starts1(dec: ProgAcDecoder, f: AcFile, all: seq<Byte>)
    reads dec, dec.band, dec.band.br, dec.mr
  {
    var br := dec.band.br;
    && br.pos <= |all| && f.Ok() && all[br.pos..] == ScanBytes(f.Segs()) + f.following
    && dec.Valid() && For(dec, f) && dec.band.eobrun == 0 && dec.restartsToGo == f.interval
       && dec.mr.nextRestartNum == 0 && dec.Clean()
    && br.bitsLeft == 0 && br.unreadMarker == 0 && !br.insufficient
  }

  /** It stands at the marker after the scan; no data were made up, and none were skipped. */
  ghost predicate Ends1(dec: ProgAcDecoder, f: AcFile, all: seq<Byte>)
    reads dec, dec.band, dec.band.br, dec.mr
  {
    && dec.Valid() && dec.Clean() && !dec.band.br.insufficient && dec.band.br.pos <= |all|
    && var ahead := Ahead(all, dec.band.br.pos, dec.band.br.unreadMarker);
      ahead.Marker? && |f.following| >= 2 && ahead.m == f.following[1]
  }

  /** The first `i` blocks are as the scan leaves them, the others as they were. */
  ghost predicate BroughtUpTo(f: AcFile, cur: seq<Block>, i: nat)
  {
    && |cur| == |f.ds| == |f.zs| && i <= |cur| && f.sc.Valid()
    && (forall j | 0 <= j < i :: Brought(f.sc, f.ds[j], f.zs[j], cur[j]))
    && forall j | i <= j < |cur| :: cur[j] == f.ds[j]
  }

  lemma StartsOk(dec: ProgAcDecoder, f: AcFile, all: seq<Byte>)
    requires Starts1(dec, f, all)
    ensures f.Ok()
  {
    hide AcFile.Ok, ToRead;
  }

  /** All blocks are as the scan leaves them. */
  ghost predicate AllBrought(f: AcFile, cur: seq<Block>)
  {
    |cur| == |f.ds| == |f.zs| && f.sc.Valid() && forall j | 0 <= j < |cur| :: Brought(f.sc, f.ds[j], f.zs[j], cur[j])
  }

  lemma NowAllBrought(f: AcFile, cur: seq<Block>)
    requires BroughtUpTo(f, cur, |cur|)
    ensures AllBrought(f, cur)
  {
    hide Brought;
  }

  lemma NoneBrought(f: AcFile)
    requires f.Ok()
    ensures BroughtUpTo(f, f.ds, 0)
  {
    hide Brought, Groups, AcPass.GroupsCoded, HuffTable.Valid, AcFidelity.Holds;
  }

  lemma UpToParts(f: AcFile, cur: seq<Block>, i: nat)
    requires BroughtUpTo(f, cur, i)
    ensures |cur| == |f.ds| == |f.zs| && i <= |cur| && (i < |cur| ==> cur[i] == f.ds[i])
  {
    hide Brought;
  }

  lemma OneMoreBrought(f: AcFile, cur: seq<Block>, i: nat, d: Block)
    requires BroughtUpTo(f, cur, i) && i < |cur| && Brought(f.sc, f.ds[i], f.zs[i], d)
    ensures BroughtUpTo(f, cur[i := d], i + 1)
  {
    hide Brought;
  }

  lemma AreaAt(blocks: seq<array<int>>, i: nat)
    requires Areas(blocks) && i < |blocks|
    ensures blocks[i].Length == 64 && Contents(blocks)[i] == ZigzagOf(blocks[i][..])
  {
    hide ZigzagOf;
  }

  lemma OtherArea(blocks: seq<array<int>>, i: nat, j: nat)
    requires Areas(blocks) && i < |blocks| && j < |blocks| && i != j
    ensures blocks[i] != blocks[j]
  {
  }

  lemma AtStart1(dec: ProgAcDecoder, f: AcFile, all: seq<Byte>)
    requires Starts1(dec, f, all)
    ensures Stands(dec, f, all, 0, 0) && !dec.band.br.insufficient
  {
    hide Groups, AcFile.Ok, AcFile.Coded, AcFile.Followed, AcFile.Segs, DMatches, ToRead, RestEnd, RestBytes,
        Unpack, AcFile.Rest, AcFile.Run, ScanFrom, ScanBytes, Padding;
    FileCoded(f);
    var segs := f.Segs();
    ScanSplits(segs, 0);
    NoneMarked(segs);
    var next := ReadSegment(all, dec.band.br.pos, segs, 0, f.following);
    FreshRead(all, dec.band.br.pos, dec.band.br.getBuffer);
    StartOfSegment(f, 0);
    if |f.Groups()[0]| == 0 {
      EndOfSegment(f, 0);
    }
  }

  lemma AtEnd1(dec: ProgAcDecoder, f: AcFile, all: seq<Byte>, s: nat, n: nat)
    requires Stands(dec, f, all, s, n) && Reached(f.zs, f.interval, |f.zs|, s, n) && !dec.band.br.insufficient
    ensures Ends1(dec, f, all)
  {
    hide Groups, DMatches, ToRead, Ahead, AcFile.Ok, AcFile.Coded, AcFile.Followed, AcFile.Rest, AcFile.Run,
        AcFile.Segs;
    var g := f.Groups();
    JoinedGroups(f.zs, f.interval);
    JoinedAround(g, s);
    assert |g[s][..n]| == n;
    if s + 1 < |g| {
      GroupSizes(f.zs, f.interval, s + 1);
      JoinedAround(g, s + 1);
      JoinedPrefix(g, s);
    }
  }

  /** The block in area `i`. */
  method DecodeArea1(dec: ProgAcDecoder, blocks: seq<array<int>>, i: nat, chunks: seq<seq<Byte>>, used0: nat,
        ghost f: AcFile, ghost all: seq<Byte>, ghost s: nat, ghost n: nat)
    returns (used: nat)
    requires used0 <= |chunks| && dec.band.br.data + Joined(chunks[used0..]) == all && Before1(dec, f, all, s, n)
    requires Areas(blocks) && i < |blocks| && BroughtUpTo(f, Contents(blocks), i) && Reached(f.zs, f.interval, i, s, n)
    requires s < |f.Groups()| && n < |f.Groups()[s]| && f.Groups()[s][n] == f.zs[i]
    modifies dec, dec.band, dec.band.br, dec.mr, blocks[i]
    ensures used0 <= used <= |chunks| && dec.band.br.data + Joined(chunks[used..]) == all
    ensures Stands(dec, f, all, s, n + 1) && !dec.band.br.insufficient && BroughtUpTo(f, Contents(blocks), i + 1)
  {
    hide Groups, ToRead, Ahead, Joined, Reached, Before1, Stands, Contents, Areas, AreaHolds, ZigzagOf, Brought,
        BroughtUpTo, AcFile.Held, New, AcFile.Ok;
    ghost var cur := Contents(blocks);
    UpToParts(f, cur, i);
    AreaAt(blocks, i);
    HeldIs(f, i, s, n);
    AreasHold(blocks);
    used := NextBlock(dec, blocks[i], chunks, used0, f, all, s, n);
    forall j | 0 <= j < |blocks| && j != i
      ensures AreaHolds(blocks[j], cur[j])
    {
      OtherArea(blocks, i, j);
    }
    OneArea(blocks, cur, i);
    BlockComes(f, s, n);
    OneMoreBrought(f, cur, i, ZigzagOf(blocks[i][..]));
  }

  /** Decode block after block of a scan, in place, waiting for the next chunk of data whenever the source runs dry.
      However the data are cut into chunks, and wherever the restart markers are, every block is brought to the
      precision of the scan. */
  method DecodeAcScan(dec: ProgAcDecoder, blocks: seq<array<int>>, chunks: seq<seq<Byte>>, ghost f: AcFile)
    requires Areas(blocks) && Contents(blocks) == f.ds && Starts1(dec, f, dec.band.br.data + Joined(chunks))
    modifies dec, dec.band, dec.band.br, dec.mr, blocks
    ensures AllBrought(f, Contents(blocks)) && Ends1(dec, f, old(dec.band.br.data) + Joined(chunks))
  {
    hide Groups, ToRead, Ahead, Joined, Reached, Before1, Stands, Starts1, Contents, Areas, ZigzagOf, Brought,
        BroughtUpTo, AllBrought, AcFile.Held, New, AcFile.Ok, AcFile.Followed, AcFile.Coded, EntryFor,
            ProgAcDecoder.Valid, Ends1, For;
    ghost var all := dec.band.br.data + Joined(chunks);
    ghost var s, n := 0, 0;
    var used := 0;
    AtStart1(dec, f, all);
    StartsOk(dec, f, all);
    NoneBrought(f);
    UpToParts(f, f.ds, 0);
    ReachedStart(f.zs, f.interval);
    assert chunks[0..] == chunks;
    for i := 0 to |blocks|
      invariant used <= |chunks| && dec.band.br.data + Joined(chunks[used..]) == all && Areas(blocks)
      invariant Stands(dec, f, all, s, n) && Reached(f.zs, f.interval, i, s, n) && !dec.band.br.insufficient
      invariant BroughtUpTo(f, Contents(blocks), i)
    {
      ghost var s', n' := BeforeBlock(dec, f, all, i, s, n);
      used := DecodeArea1(dec, blocks, i, chunks, used, f, all, s', n');
      s, n := s', n' + 1;
    }
    NowAllBrought(f, Contents(blocks));
    AtEnd1(dec, f, all, s, n);
  }
}
