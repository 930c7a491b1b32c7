/** The sequential round trip: the decoder gives back every coefficient of a scan that the encoder has
    written, however the data arrive. */
module SeqRoundTrip {
  import opened Bits
  import opened Reading
  import opened Coef
  import opened Huffman
  import opened BitOutput
  import opened BitInput
  import opened AcScan
  import opened Arrival
  import opened Segments
  import opened RestartMarkers
  import opened SeqScan
  import opened SeqMcu
  import opened SeqPass
  import opened McuDecoder
  import opened Zigzag

  // ---------------------------------------------------------------- MCUs and segments

  lemma {:induction false} GroupSizes<T>(mcus: seq<T>, interval: nat, s: nat)
    requires s < |Groups(mcus, interval)|
    ensures var g := Groups(mcus, interval);
      && (interval > 0 ==> |g[s]| <= interval)
      && (s + 1 < |g| ==> interval > 0 && |g[s]| == interval)
      && (s > 0 ==> g[s] != [])
    decreases |mcus|
  {
    if interval != 0 && |mcus| > interval {
      var rest := mcus[interval..];
      if s > 0 {
        GroupSizes(rest, interval, s - 1);
        if s == 1 {
          GroupNotEmpty(rest, interval);
        }
      }
    }
  }

  lemma GroupNotEmpty<T>(mcus: seq<T>, interval: nat)
    requires mcus != []
    ensures Groups(mcus, interval)[0] != []
  {
  }

  /** `i` MCUs of the scan are the first `s` groups and `n` MCUs of the next. */
  ghost predicate Reached<T>(mcus: seq<T>, interval: nat, i: nat, s: nat, n: nat)
  {
    var g := Groups(mcus, interval);
    s < |g| && n <= |g[s]| && i <= |mcus| && Joined(g[..s]) + g[s][..n] == mcus[..i]
  }

  lemma ReachedStart<T>(mcus: seq<T>, interval: nat)
    ensures Reached(mcus, interval, 0, 0, 0)
  {
    var g := Groups(mcus, interval);
    assert Joined(g[..0]) == [] && g[0][..0] == [];
  }

  /** The next MCU is in this group, or it is the first of the next one. */
  lemma ReachedNext<T>(mcus: seq<T>, interval: nat, i: nat, s: nat, n: nat)
    requires Reached(mcus, interval, i, s, n) && i < |mcus|
    ensures var g := Groups(mcus, interval);
      if n < |g[s]| then g[s][n] == mcus[i] && Reached(mcus, interval, i + 1, s, n + 1)
      else
        s + 1 < |g| && g[s + 1] != [] && g[s + 1][0] == mcus[i] && Reached(mcus, interval, i, s + 1, 0)
        && Reached(mcus, interval, i + 1, s + 1, 1)
  {
    hide Groups;
    var g := Groups(mcus, interval);
    JoinedGroups(mcus, interval);
    JoinedAround(g, s);
    var before, after := Joined(g[..s]), Joined(g[s + 1..]);
    if n < |g[s]| {
      InGroup(mcus, before, g[s], after, i, n);
    } else {
      assert g[s][..n] == g[s];
      assert g[..s + 1] == g[..s] + [g[s]];
      JoinedSnoc(g[..s], g[s]);
      assert Joined(g[..s + 1]) == mcus[..i];
      NoneAfter(g[s + 1..]);
      if s + 1 < |g| {
        GroupSizes(mcus, interval, s + 1);
        JoinedAround(g, s + 1);
        assert Joined(g[..s + 1]) + g[s + 1][..0] == mcus[..i];
        InGroup(mcus, Joined(g[..s + 1]), g[s + 1], Joined(g[s + 2..]), i, 0);
      }
    }
  }

  lemma NoneAfter<T>(g: seq<seq<T>>)
    ensures g == [] ==> Joined(g) == []
  {
  }

  lemma JoinedAround<T>(g: seq<seq<T>>, s: nat)
    requires s < |g|
    ensures Joined(g) == Joined(g[..s]) + (g[s] + Joined(g[s + 1..]))
  {
    JoinedSplit(g, s);
    assert g[s..][1..] == g[s + 1..];
  }

  lemma InGroup<T>(mcus: seq<T>, before: seq<T>, g: seq<T>, after: seq<T>, i: nat, n: nat)
    requires mcus == before + (g + after) && n < |g| && i < |mcus| && before + g[..n] == mcus[..i]
    ensures g[n] == mcus[i] && before + g[..n + 1] == mcus[..i + 1]
  {
    assert |before| + n == i;
    assert mcus[i] == (g + after)[n] == g[n];
    assert g[..n + 1] == g[..n] + [g[n]];
    assert mcus[..i + 1] == mcus[..i] + [mcus[i]];
    assert before + (g[..n] + [g[n]]) == (before + g[..n]) + [g[n]];
  }

  // ---------------------------------------------------------------- where decoding stands

  /** A scan in the file: its groups of MCUs, the bits of each, and what follows the last one. */
  datatype ScanFile = ScanFile(ts: Tables, comps: seq<Comp>, mem: seq<nat>, interval: nat, mcus: seq<Mcu>,
        following: seq<Byte>) {
    predicate Ok() {
      && ScanCoded(ts, comps, mcus, interval) && StartsMarker(following) && MembersOk(mem, |comps|)
      && forall i | 0 <= i < |mcus| :: IsMcu(mcus[i])
    }

    predicate IsMcu(m: Mcu) { |m| == |mem| && forall j | 0 <= j < |m| :: m[j].ci == mem[j] }

    function Groups(): seq<seq<Mcu>> { Segments.Groups(mcus, interval) }

    function Segs(): (segs: seq<BitSeq>)
      requires ScanCoded(ts, comps, mcus, interval)
      ensures |segs| == |Groups()|
    {
      GroupSegments(ts, comps, Groups())
    }

    /** What is left to read of segment `s` after `n` MCUs. */
    function Rest(s: nat, n: nat): BitSeq
      requires ScanCoded(ts, comps, mcus, interval) && s < |Groups()| && n <= |Groups()[s]|
    {
      GroupPart(Groups()[s], n);
      BitsFrom(ts, comps, Joined(Groups()[s]), |Joined(Groups()[s][..n])|) + Padding(|Segs()[s]|)
    }

    function Dc(s: nat, n: nat): seq<int>
      requires ScanCoded(ts, comps, mcus, interval) && s < |Groups()| && n <= |Groups()[s]|
    {
      GroupPart(Groups()[s], n);
      DcAt(comps, Joined(Groups()[s]), |Joined(Groups()[s][..n])|)
    }
  }

  lemma GroupPart(g: seq<Mcu>, n: nat)
    requires n <= |g|
    ensures |Joined(g[..n])| <= |Joined(g)| && Joined(g)[..|Joined(g[..n])|] == Joined(g[..n])
  {
    JoinedSplit(g, n);
  }

  /** The marker after segment `s`, and what follows it. */
  ghost predicate AfterSegment(f: ScanFile, all: seq<Byte>, s: nat, ahead: Next)
    requires ScanCoded(f.ts, f.comps, f.mcus, f.interval) && s < |f.Groups()|
  {
    && ahead.Marker? && |f.following| >= 2
    && (s + 1 < |f.Groups()| ==> ahead.m == RST0 + s % 8 && AtSegment(all, ahead.pos, f.Segs(), s + 1, f.following))
    && (s + 1 == |f.Groups()| ==> ahead.m == f.following[1])
  }

  /** The next MCU is number `n` of segment `s`. */
  ghost predicate EntryFor(f: ScanFile, all: seq<Byte>, s: nat, n: nat, e: Entry)
  {
    && ScanCoded(f.ts, f.comps, f.mcus, f.interval) && s < |f.Groups()| && n < |f.Groups()[s]|
    && e.Ready? && e.bits == f.Rest(s, n) && AfterSegment(f, all, s, e.ahead) && e.last == f.Dc(s, n)
    && !e.insufficient && CountsDown(f.interval, e.toGo, n) && (f.interval > 0 ==> e.toGo > 0) && e.num == s % 8
  }

  /** The decoder has finished `n` MCUs of segment `s`. */
  ghost predicate At(dec: HuffDecoder, f: ScanFile, all: seq<Byte>, s: nat, n: nat)
    reads dec, dec.br, dec.mr
  {
    && dec.Valid() && dec.br.pos <= |all| && f.Ok() && s < |f.Groups()| && n <= |f.Groups()[s]|
    && dec.ts == f.ts && dec.comps == f.comps && dec.mem == f.mem && dec.interval == f.interval
    && dec.Clean() && CountsDown(f.interval, dec.restartsToGo, n) && dec.mr.nextRestartNum == s % 8
    && AfterSegment(f, all, s, Ahead(all, dec.br.pos, dec.br.unreadMarker))
    && if n == |f.Groups()[s]| then |dec.Left(all)| < 8
       else !dec.br.insufficient && dec.Left(all) == f.Rest(s, n) && dec.lastDc == f.Dc(s, n)
  }

  lemma FileParts(f: ScanFile, s: nat)
    requires ScanCoded(f.ts, f.comps, f.mcus, f.interval) && s < |f.Groups()|
    ensures GroupCoded(f.ts, f.comps, f.Groups()[s]) && Sendable(f.ts, f.comps, Joined(f.Groups()[s]))
    ensures |f.Segs()| == |f.Groups()| && f.Segs()[s] == SentBits(f.ts, f.comps, Joined(f.Groups()[s]))
  {
    hide Sendable, SentBits, Groups;
    assert GroupCoded(f.ts, f.comps, f.Groups()[s]);
  }

  /** Inside a segment no restart is due. */
  lemma EntryWithin(dec: HuffDecoder, f: ScanFile, all: seq<Byte>, s: nat, n: nat)
    requires At(dec, f, all, s, n) && n < |f.Groups()[s]|
    ensures EntryFor(f, all, s, n, dec.EntryIn(all)) && !dec.RestartDue()
  {
    hide Groups, ScanCoded, HuffDecoder.Valid, ToRead, Ahead, AfterSegment, ScanFile.Rest, ScanFile.Dc;
    GroupSizes(f.mcus, f.interval, s);
  }

  lemma StartOfSegment(f: ScanFile, s: nat)
    requires ScanCoded(f.ts, f.comps, f.mcus, f.interval) && s < |f.Groups()|
    ensures f.Rest(s, 0) == f.Segs()[s] + Padding(|f.Segs()[s]|)
    ensures f.Dc(s, 0) == NoDc(|f.comps|)
  {
    hide Groups, Usable, SegmentCoded, BitsFrom;
    FileParts(f, s);
    var items := Joined(f.Groups()[s]);
    assert f.Groups()[s][..0] == [];
    NoneAfter<McuBlock>([]);
    BitsFromAll(f.ts, f.comps, items, 0);
    assert items[..0] == [];
    NothingSent(f.ts, f.comps);
    assert [] + BitsFrom(f.ts, f.comps, items, 0) == BitsFrom(f.ts, f.comps, items, 0);
  }

  /** After a segment comes its restart marker, and with it the next segment. */
  lemma EntryNext(dec: HuffDecoder, f: ScanFile, all: seq<Byte>, s: nat)
    requires s < |f.Groups()| && At(dec, f, all, s, |f.Groups()[s]|) && s + 1 < |f.Groups()| && f.Groups()[s + 1] != []
    ensures EntryFor(f, all, s + 1, 0, dec.EntryIn(all)) && |dec.Left(all)| < 8
  {
    hide Groups, ScanCoded, HuffDecoder.Valid, ToRead, RestBytes, Unpack, RestEnd, ScanFile.Rest, ScanFile.Dc,
        GroupsCoded, Sendable, ScanFrom, GroupSegments;
    GroupSizes(f.mcus, f.interval, s);
    var ahead := Ahead(all, dec.br.pos, dec.br.unreadMarker);
    AtRestart(f, all, s, ahead);
    StartOfSegment(f, s + 1);
  }

  lemma AtSegmentPos(all: seq<Byte>, pos: nat, segs: seq<BitSeq>, i: nat, following: seq<Byte>)
    requires AtSegment(all, pos, segs, i, following)
    ensures pos <= |all|
  {
  }

  lemma AtRestart(f: ScanFile, all: seq<Byte>, s: nat, ahead: Next)
    requires ScanCoded(f.ts, f.comps, f.mcus, f.interval) && s + 1 < |f.Groups()| && AfterSegment(f, all, s, ahead)
    ensures ahead.m == RST0 + s % 8 && ahead.pos <= |all|
    ensures Unpack(RestBytes(all, ahead.pos)) == f.Segs()[s + 1] + Padding(|f.Segs()[s + 1]|)
    ensures AfterSegment(f, all, s + 1, RestEnd(all, ahead.pos))
  {
    hide Groups, RestBytes, Unpack, RestEnd, GroupsCoded, ScanFrom, GroupSegments, AtSegment, Padding;
    AtSegmentPos(all, ahead.pos, f.Segs(), s + 1, f.following);
    var next := ReadSegment(all, ahead.pos, f.Segs(), s + 1, f.following);
  }

  // ---------------------------------------------------------------- one MCU

  /** What has to come out for MCU `n` of segment `s`. */
  ghost predicate Comes(f: ScanFile, s: nat, n: nat, job: Job)
  {
    && ScanCoded(f.ts, f.comps, f.mcus, f.interval) && s < |f.Groups()| && n < |f.Groups()[s]| && job.Ok()
    && job.Outcome([]) == Got((BlocksOf(f.Groups()[s][n]), f.Dc(s, n + 1)), f.Rest(s, n + 1))
  }

  lemma McuInGroup(f: ScanFile, s: nat, n: nat)
    requires f.Ok() && s < |f.Groups()| && n < |f.Groups()[s]|
    ensures var g := f.Groups()[s]; var items, p := Joined(g), |Joined(g[..n])|;
      p + |f.mem| == |Joined(g[..n + 1])| <= |items| && items[p..p + |f.mem|] == g[n] && McuAt(f.comps, f.mem, items, p)
  {
    hide Groups, ScanCoded;
    var g := f.Groups()[s];
    var items, p := Joined(g), |Joined(g[..n])|;
    GroupPart(g, n);
    GroupPart(g, n + 1);
    JoinedPrefix(g, n);
    McuOfGroup(f, s, n);
    assert items[..p + |f.mem|] == items[..p] + g[n];
    assert items[p..p + |f.mem|] == items[..p + |f.mem|][p..] == g[n];
    forall i | 0 <= i < |f.mem|
      ensures MemberAt(f.mem, items, p, i)
    {
      assert items[p + i] == items[p..p + |f.mem|][i] == g[n][i];
    }
  }

  /** Every MCU of a group is one of the scan. */
  lemma McuOfGroup(f: ScanFile, s: nat, n: nat)
    requires f.Ok() && s < |f.Groups()| && n < |f.Groups()[s]|
    ensures f.IsMcu(f.Groups()[s][n])
  {
    hide Groups, ScanCoded, ScanFile.IsMcu;
    var g := f.Groups();
    JoinedGroups(f.mcus, f.interval);
    JoinedAround(g, s);
    var i := |Joined(g[..s])| + n;
    assert f.mcus[i] == (g[s] + Joined(g[s + 1..]))[n] == g[s][n];
  }

  lemma RestAt(f: ScanFile, s: nat, n: nat)
    requires ScanCoded(f.ts, f.comps, f.mcus, f.interval) && s < |f.Groups()| && n <= |f.Groups()[s]|
    ensures var items, p := Joined(f.Groups()[s]), |Joined(f.Groups()[s][..n])|;
      && p <= |items| && Sendable(f.ts, f.comps, items) && Usable(f.ts, f.comps) && BlocksOk(items, |f.comps|)
      && f.Rest(s, n) == BitsFrom(f.ts, f.comps, items, p) + Padding(|f.Segs()[s]|)
         && f.Dc(s, n) == DcAt(f.comps, items, p)
  {
    hide Groups, Usable, SegmentCoded, BitsFrom, DcAt, ScanCoded, BlocksOk;
    FileParts(f, s);
    GroupPart(f.Groups()[s], n);
  }

  ghost predicate Decodes(f: ScanFile, s: nat, n: nat, ds: seq<Block>)
    requires ScanCoded(f.ts, f.comps, f.mcus, f.interval) && s < |f.Groups()| && n < |f.Groups()[s]|
  {
    && Usable(f.ts, f.comps) && MembersOk(f.mem, |f.comps|) && |f.Dc(s, n)| == |f.comps| && |ds| == |f.mem|
    && DecodeBlocks(f.ts, f.comps, f.mem, ds, f.Dc(s, n), 0, f.Rest(s, n))
       == Got((BlocksOf(f.Groups()[s][n]), f.Dc(s, n + 1)), f.Rest(s, n + 1))
  }

  lemma FileOk(f: ScanFile)
    requires f.Ok()
    ensures ScanCoded(f.ts, f.comps, f.mcus, f.interval) && MembersOk(f.mem, |f.comps|)
  {
    hide ScanCoded, MembersOk, ScanFile.IsMcu;
  }

  lemma McuDecodes(f: ScanFile, s: nat, n: nat, ds: seq<Block>)
    requires f.Ok() && s < |f.Groups()| && n < |f.Groups()[s]| && |ds| == |f.mem| && ZeroedFrom(ds, 0)
    ensures Decodes(f, s, n, ds)
  {
    hide Groups, ScanCoded, Usable, Sendable, BitsFrom, DecodeBlocks, McuAt, BlocksOf, BlocksOk, DcAt, Joined,
        ScanFile.Rest, ScanFile.Dc, ZeroedFrom, MembersOk, ScanFile.Ok, ScanFile.Segs;
    FileOk(f);
    McuInGroup(f, s, n);
    RestAt(f, s, n);
    RestAt(f, s, n + 1);
    var g := f.Groups()[s];
    var items, p, pad := Joined(g), |Joined(g[..n])|, Padding(|f.Segs()[s]|);
    WholeMcuRoundTrip(f.ts, f.comps, f.mem, items, p, |Joined(g[..n + 1])|, g[n], ds, pad);
  }

  lemma McuComes(f: ScanFile, all: seq<Byte>, s: nat, n: nat, e: Entry, job: Job)
    requires f.Ok() && EntryFor(f, all, s, n, e)
    requires job == Job(f.ts, f.comps, f.mem, job.ds, e.last, e.bits) && |job.ds| == |f.mem| && ZeroedFrom(job.ds, 0)
    ensures Comes(f, s, n, job)
  {
    hide Groups, ScanCoded, AfterSegment, Usable, DecodeBlocks, BlocksOf, ScanFile.Rest, ScanFile.Dc, ZeroedFrom,
        MembersOk, ScanFile.Ok;
    McuDecodes(f, s, n, job.ds);
    assert job.a + [] == job.a;
  }

  /** The MCU that comes out is the one that was encoded. */
  lemma McuArrived(dec: HuffDecoder, f: ScanFile, all: seq<Byte>, s: nat, n: nat, e: Entry, ds: seq<Block>,
        zeros: nat, ds': seq<Block>)
    requires dec.Valid() && dec.Clean() && dec.br.pos <= |all| && f.Ok() && EntryFor(f, all, s, n, e)
    requires dec.ts == f.ts && dec.comps == f.comps && dec.mem == f.mem && dec.interval == f.interval
    requires Comes(f, s, n, dec.JobAt(e, ds)) && dec.Decoded(e, ds, zeros, ds', dec.Left(all))
    requires dec.Advanced(e, Ahead(all, dec.br.pos, dec.br.unreadMarker))
    ensures ds' == BlocksOf(f.Groups()[s][n]) && At(dec, f, all, s, n + 1) && !dec.br.insufficient
  {
    hide Groups, ScanCoded, AfterSegment, HuffDecoder.Valid, ScanFile.Ok, ToRead, Ahead, Job.Outcome, Job.Ok,
        ScanFile.Rest, ScanFile.Dc;
    if zeros == 0 {
      NoZeroBits();
    }
    GroupSizes(f.mcus, f.interval, s);
    if n + 1 == |f.Groups()[s]| {
      EndOfSegment(f, s);
    }
  }

  /** Only padding is left at the end of a segment. */
  lemma EndOfSegment(f: ScanFile, s: nat)
    requires ScanCoded(f.ts, f.comps, f.mcus, f.interval) && s < |f.Groups()|
    ensures |f.Rest(s, |f.Groups()[s]|)| < 8
  {
    hide Groups, Sendable;
    FileParts(f, s);
    var g := f.Groups()[s];
    assert g[..|g|] == g;
  }

  // ---------------------------------------------------------------- the whole scan

  /** Block areas as the decoder expects them. */
  method NewAreas(n: nat) returns (blocks: seq<array<int>>)
    ensures |blocks| == n && Areas(blocks) && fresh(blocks) && ZeroedFrom(Contents(blocks), 0)
  {
    hide ZigzagOf;
    blocks := [];
    while |blocks| < n
      invariant |blocks| <= n && Areas(blocks) && fresh(blocks)
      invariant forall j | 0 <= j < |blocks| :: AreaZeroed(blocks[j])
    {
      var block := new int[64](_ => 0);
      assert AreaZeroed(block) by { ZeroArea(block); }
      assert forall j | 0 <= j < |blocks| :: blocks[j] != block;
      blocks := blocks + [block];
    }
    ZeroedAreas(blocks);
  }

  ghost predicate AreaZeroed(area: array<int>)
    reads area
  {
    area.Length == 64 && Zeroed(ZigzagOf(area[..]))
  }

  lemma ZeroArea(area: array<int>)
    requires area.Length == 64 && forall i | 0 <= i < 64 :: area[i] == 0
    ensures AreaZeroed(area)
  {
    hide Natural;
  }

  lemma ZeroedAreas(blocks: seq<array<int>>)
    requires Areas(blocks) && forall j | 0 <= j < |blocks| :: AreaZeroed(blocks[j])
    ensures ZeroedFrom(Contents(blocks), 0)
  {
    hide ZigzagOf, Zeroed;
    forall j | 0 <= j < |blocks|
      ensures Zeroed(Contents(blocks)[j])
    {
      assert AreaZeroed(blocks[j]);
    }
  }

  /** The decoder stands before MCU `i` of the scan: number `n` of segment `s`, which may be the start of the
      segment after the one it is in. */
  ghost predicate Before(dec: HuffDecoder, f: ScanFile, all: seq<Byte>, s: nat, n: nat)
    reads dec, dec.br, dec.mr
  {
    && dec.Valid() && dec.br.pos <= |all| && f.Ok() && EntryFor(f, all, s, n, dec.EntryIn(all))
    && dec.ts == f.ts && dec.comps == f.comps && dec.mem == f.mem && dec.interval == f.interval
    && dec.Clean() && (dec.RestartDue() ==> |dec.Left(all)| < 8)
  }

  ghost predicate McuIs(f: ScanFile, s: nat, n: nat, m: Mcu)
  {
    s < |f.Groups()| && n < |f.Groups()[s]| && f.Groups()[s][n] == m
  }

  lemma BeforeNext(dec: HuffDecoder, f: ScanFile, all: seq<Byte>, i: nat, s: nat, n: nat) returns (s': nat, n': nat)
    requires At(dec, f, all, s, n) && Reached(f.mcus, f.interval, i, s, n) && i < |f.mcus|
    ensures Before(dec, f, all, s', n') && McuIs(f, s', n', f.mcus[i]) && Reached(f.mcus, f.interval, i + 1, s', n' + 1)
  {
    hide Groups, ScanCoded, HuffDecoder.Valid, ScanFile.Ok, ToRead, Ahead, AfterSegment, ScanFile.Rest, ScanFile.Dc,
        HuffDecoder.EntryIn, EntryFor, Reached;
    ReachedNext(f.mcus, f.interval, i, s, n);
    if n < |f.Groups()[s]| {
      EntryWithin(dec, f, all, s, n);
      s', n' := s, n;
    } else {
      EntryNext(dec, f, all, s);
      s', n' := s + 1, 0;
    }
  }

  /** ... and `blocks` will hold it, whatever an interrupted attempt has stored there. */
  ghost predicate Trying(dec: HuffDecoder, f: ScanFile, all: seq<Byte>, s: nat, n: nat, blocks: seq<array<int>>)
    reads dec, dec.br, dec.mr, blocks
  {
    && Before(dec, f, all, s, n) && Areas(blocks) && |blocks| == |dec.mem|
    && Comes(f, s, n, dec.JobAt(dec.EntryIn(all), Contents(blocks)))
  }

  /** `blocks` hold MCU `n` of segment `s`. */
  ghost predicate HoldMcu(f: ScanFile, s: nat, n: nat, blocks: seq<array<int>>)
    reads blocks
  {
    s < |f.Groups()| && n < |f.Groups()[s]| && Areas(blocks) && Contents(blocks) == BlocksOf(f.Groups()[s][n])
  }

  /** One call of the decoder. */
  method Attempt(dec: HuffDecoder, blocks: seq<array<int>>, ghost f: ScanFile, ghost more: seq<Byte>, ghost s: nat,
        ghost n: nat) returns (ok: bool)
    requires Trying(dec, f, dec.br.data + more, s, n, blocks)
    modifies dec, dec.br, dec.mr, blocks
    ensures dec.br.data == old(dec.br.data) && Areas(blocks)
    ensures ok ==> At(dec, f, dec.br.data + more, s, n + 1) && !dec.br.insufficient && HoldMcu(f, s, n, blocks)
    ensures !ok ==> Trying(dec, f, dec.br.data + more, s, n, blocks) && more != []
  {
    hide Groups, ScanCoded, HuffDecoder.SetUp, ScanFile.Ok, ToRead, Ahead, AfterSegment, ScanFile.Rest, ScanFile.Dc,
        HuffDecoder.EntryIn, Areas, Contents, Job.Outcome, Job.Ok,
      Comes, HuffDecoder.Decoded, HuffDecoder.Advanced;
    ghost var all := dec.br.data + more;
    ghost var e, ds := dec.EntryIn(all), Contents(blocks);
    var r;
    ghost var zeros;
    r, zeros := dec.DecodeMcu(blocks, more);
    ok := r == Done;
    if ok {
      McuArrived(dec, f, all, s, n, e, ds, zeros, Contents(blocks));
    } else {
      ComesAgain(dec, f, s, n, e, ds, Contents(blocks));
      StillComing(dec, f, all, s, n);
      assert dec.br.data + [] == dec.br.data;
    }
  }

  lemma ComesAgain(dec: HuffDecoder, f: ScanFile, s: nat, n: nat, e: Entry, ds: seq<Block>, ds': seq<Block>)
    requires e.Ready? && Comes(f, s, n, dec.JobAt(e, ds)) && dec.Undecoded(e, ds, ds')
    ensures Comes(f, s, n, dec.JobAt(e, ds'))
  {
    hide Groups, ScanCoded, Job.Outcome, Job.Ok, ScanFile.Rest, ScanFile.Dc;
  }

  /** While the marker after the segment has not been seen there are data to come. */
  lemma StillComing(dec: HuffDecoder, f: ScanFile, all: seq<Byte>, s: nat, n: nat)
    requires dec.Valid() && dec.br.pos <= |all| && EntryFor(f, all, s, n, dec.EntryIn(all))
    ensures Ahead(all, dec.br.pos, dec.br.unreadMarker).Marker?
  {
    hide Groups, ScanCoded, HuffDecoder.Valid, ToRead, RestEnd, RestBytes, Unpack, ScanFile.Rest, ScanFile.Dc;
  }

  /** The decoder stands before the scan, set up for it. */
  ghost predicate Starts(dec: HuffDecoder, f: ScanFile, all: seq<Byte>)
    reads dec, dec.br, dec.mr
  {
    && dec.Valid() && f.Ok() && dec.ts == f.ts && dec.comps == f.comps && dec.mem == f.mem && dec.interval == f.interval
    && dec.lastDc == NoDc(|f.comps|) && dec.restartsToGo == f.interval && dec.mr.nextRestartNum == 0 && dec.Clean()
    && dec.br.bitsLeft == 0 && dec.br.unreadMarker == 0 && !dec.br.insufficient && dec.br.pos <= |all|
    && all[dec.br.pos..] == ScanData(f.ts, f.comps, f.mcus, f.interval) + f.following
  }

  /** It stands at the marker after the scan; no data were made up, and none were skipped. */
  ghost predicate Ends(dec: HuffDecoder, f: ScanFile, all: seq<Byte>)
    reads dec, dec.br, dec.mr
  {
    && dec.Valid() && dec.Clean() && !dec.br.insufficient && dec.br.pos <= |all|
    && var ahead := Ahead(all, dec.br.pos, dec.br.unreadMarker);
      ahead.Marker? && |f.following| >= 2 && ahead.m == f.following[1]
  }

  ghost predicate McusAre(f: ScanFile, out: seq<seq<Block>>)
  {
    |out| <= |f.mcus| && forall j | 0 <= j < |out| :: out[j] == BlocksOf(f.mcus[j])
  }

  /** Decode MCU after MCU of a scan, waiting for the next chunk of data whenever the source runs dry.
      However the data are cut into chunks, all coefficients come back. */
  method DecodeScan(dec: HuffDecoder, chunks: seq<seq<Byte>>, total: nat, ghost f: ScanFile)
    returns (out: seq<seq<Block>>)
    requires total == |f.mcus| && Starts(dec, f, dec.br.data + Joined(chunks))
    modifies dec, dec.br, dec.mr
    ensures |out| == total && McusAre(f, out)
    ensures Ends(dec, f, old(dec.br.data) + Joined(chunks))
  {
    hide Groups, ToRead, Ahead, Joined, Reached, Before, At, Starts, BlocksOf;
    ghost var all := dec.br.data + Joined(chunks);
    ghost var s, n := 0, 0;
    var used := 0;
    out := [];
    AtStart(dec, f, all);
    ReachedStart(f.mcus, f.interval);
    assert chunks[0..] == chunks;
    for i := 0 to total
      invariant used <= |chunks| && dec.br.data + Joined(chunks[used..]) == all
      invariant At(dec, f, all, s, n) && Reached(f.mcus, f.interval, i, s, n) && !dec.br.insufficient
      invariant |out| == i && McusAre(f, out)
    {
      ghost var s', n' := BeforeNext(dec, f, all, i, s, n);
      var block: seq<Block>;
      block, used := NextMcu(dec, chunks, used, f, all, s', n');
      out := out + [block];
      s, n := s', n' + 1;
    }
    AtEnd(dec, f, all, s, n);
  }

  method NextMcu(dec: HuffDecoder, chunks: seq<seq<Byte>>, used0: nat, ghost f: ScanFile, ghost all: seq<Byte>,
        ghost s: nat, ghost n: nat)
    returns (block: seq<Block>, used: nat)
    requires used0 <= |chunks| && dec.br.data + Joined(chunks[used0..]) == all && Before(dec, f, all, s, n)
    modifies dec, dec.br, dec.mr
    ensures used0 <= used <= |chunks| && dec.br.data + Joined(chunks[used..]) == all
    ensures At(dec, f, all, s, n + 1) && !dec.br.insufficient && s < |f.Groups()| && n < |f.Groups()[s]|
        && block == BlocksOf(f.Groups()[s][n])
  {
    hide Groups, ScanCoded, HuffDecoder.Valid, ScanFile.Ok, ToRead, Ahead, ScanFile.Rest, ScanFile.Dc, Joined,
        Before, At, Trying, Areas;
    used := used0;
    var blocks := NewAreas(|dec.mem|);
    FirstAttempt(dec, f, all, s, n, blocks);
    var ok := Attempt(dec, blocks, f, Joined(chunks[used..]), s, n);
    while !ok
      invariant used0 <= used <= |chunks| && dec.br.data + Joined(chunks[used..]) == all && fresh(blocks)
          && Areas(blocks)
      invariant ok ==> At(dec, f, all, s, n + 1) && !dec.br.insufficient && HoldMcu(f, s, n, blocks)
      invariant !ok ==> Trying(dec, f, all, s, n, blocks) && Joined(chunks[used..]) != []
      decreases |chunks| - used
    {
      ChunksLeft(chunks, used);
      ghost var data := dec.br.data;
      Arrive(dec, chunks[used], f, all, s, n, blocks);
      assert data + (chunks[used] + Joined(chunks[used + 1..])) == (data + chunks[used]) + Joined(chunks[used + 1..]);
      used := used + 1;
      ok := Attempt(dec, blocks, f, Joined(chunks[used..]), s, n);
    }
    block := Contents(blocks);
  }

  /** The source delivers another chunk. */
  method Arrive(dec: HuffDecoder, chunk: seq<Byte>, ghost f: ScanFile, ghost all: seq<Byte>, ghost s: nat,
        ghost n: nat, ghost blocks: seq<array<int>>)
    requires Trying(dec, f, all, s, n, blocks)
    modifies dec.br`data
    ensures Trying(dec, f, all, s, n, blocks) && dec.br.data == old(dec.br.data) + chunk
  {
    hide Groups, ScanCoded, ScanFile.Ok, ToRead, Ahead, EntryFor, Areas, Contents, Comes, HuffDecoder.SetUp;
    dec.br.data := dec.br.data + chunk;
  }

  lemma ChunksLeft(chunks: seq<seq<Byte>>, used: nat)
    requires used <= |chunks| && Joined(chunks[used..]) != []
    ensures used < |chunks| && Joined(chunks[used..]) == chunks[used] + Joined(chunks[used + 1..])
  {
    assert used < |chunks| ==> chunks[used..][1..] == chunks[used + 1..];
  }

  lemma FirstAttempt(dec: HuffDecoder, f: ScanFile, all: seq<Byte>, s: nat, n: nat, blocks: seq<array<int>>)
    requires Before(dec, f, all, s, n) && Areas(blocks) && |blocks| == |dec.mem| && ZeroedFrom(Contents(blocks), 0)
    ensures Trying(dec, f, all, s, n, blocks)
  {
    hide Groups, ScanCoded, ScanFile.Ok, HuffDecoder.Valid, HuffDecoder.EntryIn, EntryFor, Areas, Contents,
        Comes, ZeroedFrom;
    var e := dec.EntryIn(all);
    EntryReady(f, all, s, n, e);
    McuComes(f, all, s, n, e, dec.JobAt(e, Contents(blocks)));
  }

  lemma EntryReady(f: ScanFile, all: seq<Byte>, s: nat, n: nat, e: Entry)
    requires EntryFor(f, all, s, n, e)
    ensures e.Ready?
  {
    hide Groups, ScanCoded, ScanFile.Rest, ScanFile.Dc;
  }

  lemma AtStart(dec: HuffDecoder, f: ScanFile, all: seq<Byte>)
    requires Starts(dec, f, all)
    ensures At(dec, f, all, 0, 0) && !dec.br.insufficient
  {
    hide Groups, HuffDecoder.Valid, ToRead, RestEnd, RestBytes, Unpack, ScanFile.Rest, ScanFile.Dc, GroupsCoded,
        GroupSegments, ScanFrom, ScanBytes;
    var segs := f.Segs();
    ScanSplits(segs, 0);
    NoneMarked(segs);
    var next := ReadSegment(all, dec.br.pos, segs, 0, f.following);
    FreshRead(all, dec.br.pos, dec.br.getBuffer);
    StartOfSegment(f, 0);
    if |f.Groups()[0]| == 0 {
      EndOfSegment(f, 0);
    }
  }

  lemma NoneMarked(segs: seq<BitSeq>)
    requires segs != []
    ensures Marked(segs[..0]) + ScanFrom(segs, 0) == ScanFrom(segs, 0)
  {
    hide ScanFrom;
    assert Marked(segs[..0]) == [];
  }

  lemma AtEnd(dec: HuffDecoder, f: ScanFile, all: seq<Byte>, s: nat, n: nat)
    requires At(dec, f, all, s, n) && Reached(f.mcus, f.interval, |f.mcus|, s, n) && !dec.br.insufficient
    ensures Ends(dec, f, all)
  {
    hide Groups, HuffDecoder.Valid, ToRead, Ahead, ScanFile.Rest, ScanFile.Dc, ScanCoded, GroupSegments;
    var g := f.Groups();
    JoinedGroups(f.mcus, f.interval);
    JoinedAround(g, s);
    assert |g[s][..n]| == n;
    if s + 1 < |g| {
      GroupSizes(f.mcus, f.interval, s + 1);
      JoinedAround(g, s + 1);
      JoinedPrefix(g, s);
    }
  }
}
