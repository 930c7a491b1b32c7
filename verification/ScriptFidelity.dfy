/** A whole progressive image: decoding all scans of an accepted script yields every coefficient
    truncated to the precision of the last scan that sent it. */
module ScriptFidelity {
  import opened Bits
  import opened Reading
  import opened Coef
  import opened Huffman
  import opened AcScan
  import opened Script
  import opened Segments
  import AcPass
  import AcRoundTrip
  import AcFidelity
  import Dc = DcScan
  import DcEncoder

  /** Coefficient blocks, in zigzag order, per component. */
  type Image = seq<seq<Block>>

  /** A block of a scan: which component of the scan, and which block of it. */
  datatype Visit = Visit(ci: nat, b: nat)

  /** How one scan is coded: its Huffman tables (one per component of a DC scan, a single one for an
      AC scan) and which blocks it visits from one restart to the next. */
  datatype Coding = Coding(ts: seq<HuffTable>, groups: seq<seq<Visit>>)

  /** The blocks of each component that belong to the image.  Interleaved scans may visit more, to fill up
      their MCUs. */
  type Kept = seq<set<nat>>

  predicate KeptOk(img: Image, kept: Kept)
  {
    |kept| == |img| && forall c, b | 0 <= c < |img| && b in kept[c] :: b < |img[c]|
  }

  /** What is known of a coefficient whose last scan had `last` as its Al. */
  function ValueAt(v: int, k: nat, last: int): int
  {
    if last < 0 then 0 else if k == 0 then Floor(v, last) else Trunc(v, last)
  }

  predicate SameShape(store: Image, img: Image)
  {
    |store| == |img| && forall c | 0 <= c < |img| :: |store[c]| == |img[c]|
  }

  predicate BlockAgrees(d: Block, z: Block, row: seq<int>)
    requires |row| == DCTSIZE2
  {
    forall k | 0 <= k < 64 :: d[k] == ValueAt(z[k], k, row[k])
  }

  /** The decoder's coefficients are the originals at the precision recorded in `p`. */
  predicate Agrees(store: Image, img: Image, kept: Kept, p: Progress)
    requires Shaped(p, |img|)
  {
    && SameShape(store, img) && KeptOk(img, kept)
    && forall c, b | 0 <= c < |img| && b in kept[c] :: BlockAgrees(store[c][b], img[c][b], p[c])
  }

  function Blank(img: Image): (store: Image)
    ensures SameShape(store, img)
  {
    seq(|img|, c requires 0 <= c < |img| => seq(|img[c]|, _ => seq(64, _ => 0)))
  }

  // ---------------------------------------------------------------- visiting blocks

  predicate InScan(s: ScanInfo, img: Image, v: Visit)
    requires CompsOk(s, |img|)
  {
    v.ci < |s.comps| && v.b < |img[s.comps[v.ci]]|
  }

  predicate VisitsOk(s: ScanInfo, img: Image, g: seq<Visit>)
    requires CompsOk(s, |img|)
  {
    forall i {:trigger g[i]} | 0 <= i < |g| :: InScan(s, img, g[i])
  }

  lemma VisitAt(s: ScanInfo, img: Image, g: seq<Visit>, i: nat)
    requires CompsOk(s, |img|) && VisitsOk(s, img, g) && i < |g|
    ensures InScan(s, img, g[i]) && g[i].ci < |s.comps| && 0 <= s.comps[g[i].ci] < |img|
  {
  }

  predicate Once(g: seq<Visit>) { forall i, j | 0 <= i < j < |g| :: g[i] != g[j] }

  function BlocksAt(s: ScanInfo, store: Image, g: seq<Visit>): (r: seq<Block>)
    requires CompsOk(s, |store|) && VisitsOk(s, store, g)
    ensures |r| == |g|
  {
    seq(|g|, i requires 0 <= i < |g| => store[s.comps[g[i].ci]][g[i].b])
  }

  predicate Hit(s: ScanInfo, g: seq<Visit>, c: nat, b: nat)
  {
    exists i | 0 <= i < |g| :: g[i].ci < |s.comps| && s.comps[g[i].ci] == c && g[i].b == b
  }

  lemma HitJoin(s: ScanInfo, g: seq<Visit>, h: seq<Visit>, c: nat, b: nat)
    ensures Hit(s, g + h, c, b) <==> Hit(s, g, c, b) || Hit(s, h, c, b)
  {
    if Hit(s, g, c, b) {
      var i :| 0 <= i < |g| && g[i].ci < |s.comps| && s.comps[g[i].ci] == c && g[i].b == b;
      assert (g + h)[i] == g[i];
    }
    if Hit(s, h, c, b) {
      var i :| 0 <= i < |h| && h[i].ci < |s.comps| && s.comps[h[i].ci] == c && h[i].b == b;
      assert (g + h)[|g| + i] == h[i];
    }
  }

  lemma {:induction false} CompsIncrease(s: ScanInfo, n: nat, i: nat, j: nat)
    requires CompsOk(s, n) && i < j < |s.comps|
    ensures s.comps[i] < s.comps[j]
    decreases j
  {
    if i < j - 1 {
      CompsIncrease(s, n, i, j - 1);
    }
  }

  /** Different components of a scan are different components of the image. */
  lemma CompsApart(s: ScanInfo, n: nat, i: nat, j: nat)
    requires CompsOk(s, n) && i < |s.comps| && j < |s.comps| && s.comps[i] == s.comps[j]
    ensures i == j
  {
    if i < j {
      CompsIncrease(s, n, i, j);
    }
    if j < i {
      CompsIncrease(s, n, j, i);
    }
  }

  lemma NotHit(s: ScanInfo, n: nat, g: seq<Visit>, v: Visit)
    requires CompsOk(s, n) && v !in g && v.ci < |s.comps|
    ensures !Hit(s, g, s.comps[v.ci], v.b)
  {
    forall i | 0 <= i < |g|
      ensures !(g[i].ci < |s.comps| && s.comps[g[i].ci] == s.comps[v.ci] && g[i].b == v.b)
    {
      if g[i].ci < |s.comps| && s.comps[g[i].ci] == s.comps[v.ci] {
        CompsApart(s, n, g[i].ci, v.ci);
      }
    }
  }

  /** Store decoded blocks in scan order. */
  function StoreAll(s: ScanInfo, store: Image, g: seq<Visit>, blocks: seq<Block>): (r: Image)
    requires CompsOk(s, |store|) && |blocks| == |g| && VisitsOk(s, store, g)
    ensures SameShape(r, store)
    decreases |g|
  {
    if g == [] then store
    else
      var c, b := s.comps[g[0].ci], g[0].b;
      StoreAll(s, store[c := store[c][b := blocks[0]]], g[1..], blocks[1..])
  }

  /** Blocks that are not visited stay as they are. */
  lemma {:induction false} StoredElsewhere(s: ScanInfo, store: Image, g: seq<Visit>, blocks: seq<Block>, c: nat, b: nat)
    requires CompsOk(s, |store|) && |blocks| == |g| && VisitsOk(s, store, g)
    requires c < |store| && b < |store[c]| && !Hit(s, g, c, b)
    ensures StoreAll(s, store, g, blocks)[c][b] == store[c][b]
    decreases |g|
  {
    if g != [] {
      var c0, b0 := s.comps[g[0].ci], g[0].b;
      assert g == [g[0]] + g[1..];
      HitJoin(s, [g[0]], g[1..], c, b);
      assert [g[0]][0] == g[0];
      StoredElsewhere(s, store[c0 := store[c0][b0 := blocks[0]]], g[1..], blocks[1..], c, b);
    }
  }

  /** Each block visited gets its own new value. */
  lemma {:induction false} StoredThere(s: ScanInfo, store: Image, g: seq<Visit>, blocks: seq<Block>, i: nat)
    requires CompsOk(s, |store|) && |blocks| == |g| && VisitsOk(s, store, g) && Once(g) && i < |g|
    ensures StoreAll(s, store, g, blocks)[s.comps[g[i].ci]][g[i].b] == blocks[i]
    decreases |g|
  {
    var c0, b0 := s.comps[g[0].ci], g[0].b;
    var store' := store[c0 := store[c0][b0 := blocks[0]]];
    if i > 0 {
      StoredThere(s, store', g[1..], blocks[1..], i - 1);
    } else {
      NotAgain(s, |store|, g);
      StoredElsewhere(s, store', g[1..], blocks[1..], c0, b0);
    }
  }

  lemma NotAgain(s: ScanInfo, n: nat, g: seq<Visit>)
    requires CompsOk(s, n) && g != [] && Once(g) && g[0].ci < |s.comps|
    ensures !Hit(s, g[1..], s.comps[g[0].ci], g[0].b)
  {
    hide CompsOk, Hit;
    NotHit(s, n, g[1..], g[0]);
  }

  // ---------------------------------------------------------------- between two restarts

  function AcOf(s: ScanInfo): Scan
    requires 0 <= s.ss && 0 <= s.se && 0 <= s.al
  {
    Scan(if s.ah == 0 then Initial else Refine, s.ss, s.se, s.al)
  }

  function Items(s: ScanInfo, img: Image, g: seq<Visit>): (items: seq<Dc.Item>)
    requires CompsOk(s, |img|) && VisitsOk(s, img, g)
    ensures |items| == |g| && Dc.ItemsOk(items, |s.comps|)
  {
    seq(|g|, i requires 0 <= i < |g| => Dc.Item(g[i].ci, BlocksAt(s, img, g)[i][0]))
  }

  predicate TablesOk(s: ScanInfo, ts: seq<HuffTable>)
  {
    if s.ss == 0 then s.ah == 0 ==> Dc.ValidTables(ts, |s.comps|) else |ts| == 1 && ts[0].Valid()
  }

  /** The compressor codes the blocks without raising an error: all symbols it sends have codes, all
      values it sends are in range. */
  ghost predicate GroupEncodable(s: ScanInfo, img: Image, ts: seq<HuffTable>, g: seq<Visit>)
  {
    && CompsOk(s, |img|) && ParamsOk(s) && TablesOk(s, ts) && VisitsOk(s, img, g)
    && if s.ss == 0 then
         s.ah == 0 ==> Dc.DiffsCoded(ts, s.al, Items(s, img, g), DcEncoder.NoPrediction(|s.comps|))
       else
         && AcPass.SegmentCoded(ts[0], AcOf(s), BlocksAt(s, img, g))
         && forall i | 0 <= i < |g| :: AcRoundTrip.InRange(AcOf(s), BlocksAt(s, img, g)[i])
  }

  /** What it sends from one restart to the next. */
  ghost function GroupBits(s: ScanInfo, img: Image, ts: seq<HuffTable>, g: seq<Visit>): BitSeq
    requires GroupEncodable(s, img, ts, g)
  {
    if s.ss == 0 then
      if s.ah == 0 then Dc.FirstBits(ts, s.al, Items(s, img, g), DcEncoder.NoPrediction(|s.comps|))
      else Dc.RefineBits(s.al, Items(s, img, g))
    else AcPass.SegmentBits(ts[0], AcOf(s), BlocksAt(s, img, g))
  }

  function Visited(g: seq<Visit>): (cis: seq<nat>)
    ensures |cis| == |g| && forall i | 0 <= i < |g| :: cis[i] == g[i].ci
  {
    seq(|g|, i requires 0 <= i < |g| => g[i].ci)
  }

  function DcsOf(blocks: seq<Block>): (r: seq<int>)
    ensures |r| == |blocks| && forall i | 0 <= i < |r| :: r[i] == blocks[i][0]
  {
    seq(|blocks|, i requires 0 <= i < |blocks| => blocks[i][0])
  }

  function WithDcs(blocks: seq<Block>, vs: seq<int>): (r: seq<Block>)
    requires |vs| == |blocks|
    ensures |r| == |blocks| && forall i | 0 <= i < |r| :: r[i] == blocks[i][0 := vs[i]]
  {
    seq(|blocks|, i requires 0 <= i < |blocks| => blocks[i][0 := vs[i]])
  }

  predicate Runnable(s: ScanInfo, store: Image, ts: seq<HuffTable>, g: seq<Visit>)
  {
    CompsOk(s, |store|) && ParamsOk(s) && TablesOk(s, ts) && VisitsOk(s, store, g)
  }

  /** The decoder, from one restart to the next, over the coefficients held so far. */
  function RunGroup(s: ScanInfo, store: Image, ts: seq<HuffTable>, g: seq<Visit>, bs: BitSeq): Read<Image>
  {
    if !Runnable(s, store, ts, g) then More
    else
      var held := BlocksAt(s, store, g);
      if s.ss == 0 then
        var (vs, rest) :- if s.ah == 0
          then Dc.DecodeFirst(ts, s.al, Visited(g), DcEncoder.NoPrediction(|s.comps|), bs)
          else Dc.DecodeRefine(s.al, DcsOf(held), bs);
        if |vs| == |g| then Got(StoreAll(s, store, g, WithDcs(held, vs)), rest) else More
      else
        var (ds, rest) :- DecodeScan(ts[0], AcOf(s), held, 0, bs);
        if |ds| == |g| then Got(StoreAll(s, store, g, ds), rest) else More
  }

  /** In the middle of a scan: the blocks visited so far have its precision, the others still that of the scans
      before. */
  ghost predicate Midway(s: ScanInfo, store: Image, img: Image, kept: Kept, p: Progress, done: seq<Visit>)
    requires Shaped(p, |img|)
  {
    && SameShape(store, img) && KeptOk(img, kept)
    && forall c, b | 0 <= c < |img| && b in kept[c] :: MidwayAt(s, store, img, p, done, c, b)
  }

  ghost predicate MidwayAt(s: ScanInfo, store: Image, img: Image, p: Progress, done: seq<Visit>, c: nat, b: nat)
    requires Shaped(p, |img|) && SameShape(store, img) && c < |img| && b < |img[c]|
  {
    BlockAgrees(store[c][b], img[c][b], if Hit(s, done, c, b) then After(s, p)[c] else p[c])
  }

  /** A block as the scan should leave it. */
  ghost predicate Brought(s: ScanInfo, img: Image, p: Progress, v: Visit, block: Block)
    requires Shaped(p, |img|) && CompsOk(s, |img|) && InScan(s, img, v)
  {
    BlockAgrees(block, img[s.comps[v.ci]][v.b], After(s, p)[s.comps[v.ci]])
  }

  /** Storing blocks of the right precision. */
  lemma Stored(s: ScanInfo, store: Image, img: Image, kept: Kept, p: Progress, done: seq<Visit>, g: seq<Visit>,
        blocks: seq<Block>)
    requires Shaped(p, |img|) && CompsOk(s, |img|) && Midway(s, store, img, kept, p, done)
    requires VisitsOk(s, img, g) && Once(g) && |blocks| == |g| && |kept| == |img|
    requires forall i | 0 <= i < |g| && g[i].b in kept[s.comps[g[i].ci]] :: Brought(s, img, p, g[i], blocks[i])
    ensures |store| == |img| && VisitsOk(s, store, g)
    ensures Midway(s, StoreAll(s, store, g, blocks), img, kept, p, done + g)
  {
    hide BlockAgrees, After, CompsOk, Hit, StoreAll, MidwayAt, Once, Brought;
    SameVisits(s, store, img, kept, p, done, g);
    forall c: nat, b: nat | c < |img| && b in kept[c]
      ensures MidwayAt(s, StoreAll(s, store, g, blocks), img, p, done + g, c, b)
    {
      assert MidwayAt(s, store, img, p, done, c, b);
      if Hit(s, g, c, b) {
        var i := WhereHit(s, g, c, b);
        StoredHit(s, store, img, p, done, g, blocks, i);
      } else {
        StoredMiss(s, store, img, p, done, g, blocks, c, b);
      }
    }
  }

  lemma StoredHit(s: ScanInfo, store: Image, img: Image, p: Progress, done: seq<Visit>, g: seq<Visit>,
        blocks: seq<Block>, i: nat)
    requires Shaped(p, |img|) && CompsOk(s, |img|) && SameShape(store, img) && VisitsOk(s, img, g)
    requires VisitsOk(s, store, g) && Once(g) && |blocks| == |g| && i < |g| && Brought(s, img, p, g[i], blocks[i])
    ensures MidwayAt(s, StoreAll(s, store, g, blocks), img, p, done + g, s.comps[g[i].ci], g[i].b)
  {
    hide BlockAgrees, After, CompsOk, StoreAll, Once;
    VisitAt(s, img, g, i);
    HitJoin(s, done, g, s.comps[g[i].ci], g[i].b);
    assert Hit(s, g, s.comps[g[i].ci], g[i].b);
    StoredThere(s, store, g, blocks, i);
  }

  lemma StoredMiss(s: ScanInfo, store: Image, img: Image, p: Progress, done: seq<Visit>, g: seq<Visit>,
        blocks: seq<Block>, c: nat, b: nat)
    requires Shaped(p, |img|) && CompsOk(s, |img|) && SameShape(store, img) && VisitsOk(s, store, g)
    requires |blocks| == |g| && c < |img| && b < |img[c]| && !Hit(s, g, c, b) && MidwayAt(s, store, img, p, done, c, b)
    ensures MidwayAt(s, StoreAll(s, store, g, blocks), img, p, done + g, c, b)
  {
    hide BlockAgrees, After, CompsOk, StoreAll, Hit;
    HitJoin(s, done, g, c, b);
    StoredElsewhere(s, store, g, blocks, c, b);
  }

  lemma WhereHit(s: ScanInfo, g: seq<Visit>, c: nat, b: nat) returns (i: nat)
    requires Hit(s, g, c, b)
    ensures i < |g| && g[i].ci < |s.comps| && s.comps[g[i].ci] == c && g[i].b == b
  {
    i :| 0 <= i < |g| && g[i].ci < |s.comps| && s.comps[g[i].ci] == c && g[i].b == b;
  }

  /** What the decoder holds of a block that has not been visited yet. */
  lemma Unvisited(s: ScanInfo, store: Image, img: Image, kept: Kept, p: Progress, done: seq<Visit>, g: seq<Visit>,
        i: nat)
    requires Shaped(p, |img|) && CompsOk(s, |img|) && Midway(s, store, img, kept, p, done)
    requires VisitsOk(s, img, g) && i < |g| && g[i].b in kept[s.comps[g[i].ci]] && Once(done + g)
    ensures VisitsOk(s, store, g)
        && BlockAgrees(BlocksAt(s, store, g)[i], BlocksAt(s, img, g)[i], p[s.comps[g[i].ci]])
  {
    hide BlockAgrees, After;
    var c, b := s.comps[g[i].ci], g[i].b;
    assert MidwayAt(s, store, img, p, done, c, b);
    NotDone(done, g, i);
    NotHit(s, |img|, done, g[i]);
  }

  lemma NotDone(done: seq<Visit>, g: seq<Visit>, i: nat)
    requires Once(done + g) && i < |g|
    ensures g[i] !in done
  {
    forall j | 0 <= j < |done|
      ensures done[j] != g[i]
    {
      assert (done + g)[j] != (done + g)[|done| + i];
    }
  }

  // ---------------------------------------------------------------- DC

  /** The values that a DC scan brings, for a block that belongs to the image. */
  lemma DcBrought(s: ScanInfo, img: Image, p: Progress, v: Visit, held: Block, dc: int)
    requires Shaped(p, |img|) && ScanOk(s, p) && s.ss == 0 && InScan(s, img, v)
    requires BlockAgrees(held, img[s.comps[v.ci]][v.b], p[s.comps[v.ci]])
    requires s.al >= 0 && dc == Floor(img[s.comps[v.ci]][v.b][0], s.al)
    ensures Brought(s, img, p, v, held[0 := dc])
  {
    hide Floor, Trunc, BandOk;
  }

  lemma DcRefined(s: ScanInfo, img: Image, p: Progress, v: Visit, held: Block)
    requires Shaped(p, |img|) && ScanOk(s, p) && s.ss == 0 && s.ah > 0 && s.al >= 0 && InScan(s, img, v)
    requires BlockAgrees(held, img[s.comps[v.ci]][v.b], p[s.comps[v.ci]])
    ensures var z := img[s.comps[v.ci]][v.b][0];
      Dc.SetBit(held[0], BitSet(z, s.al), s.al) == Floor(z, s.al)
  {
    hide Floor, BitSet, Pow2;
    var c := s.comps[v.ci];
    assert BandOk(s, p[c]) && StepOk(s, p[c][0]);
    FloorStep(img[c][v.b][0], s.al);
  }

  lemma DcGroup(s: ScanInfo, store: Image, img: Image, kept: Kept, p: Progress, done: seq<Visit>, ts: seq<HuffTable>,
        g: seq<Visit>, rest: BitSeq)
    returns (r: Image)
    requires Shaped(p, |img|) && ScanOk(s, p) && Midway(s, store, img, kept, p, done) && s.ss == 0
    requires GroupEncodable(s, img, ts, g) && Once(done + g)
    ensures RunGroup(s, store, ts, g, GroupBits(s, img, ts, g) + rest) == Got(r, rest)
    ensures Midway(s, r, img, kept, p, done + g)
  {
    hide Midway, Floor, Brought, BlockAgrees, ScanOk, Dc.FirstBits, Dc.RefineBits, Dc.DecodeFirst, Dc.DecodeRefine,
        Dc.DiffsCoded, Dc.Floors, StoreAll, Once, VisitsOk, CompsOk, Dc.Ored, BlocksAt, Items;
    SameVisits(s, store, img, kept, p, done, g);
    var held, items := BlocksAt(s, store, g), Items(s, img, g);
    var vs := if s.ah == 0 then Dc.Floors(s.al, items) else Dc.Ored(s.al, DcsOf(held), items);
    if s.ah == 0 {
      Dc.DcFirstRoundTrip(ts, s.al, items, DcEncoder.NoPrediction(|s.comps|), rest);
      ItemComponents(s, img, g);
    } else {
      Dc.RefineAny(s.al, DcsOf(held), items, rest);
    }
    r := StoreAll(s, store, g, WithDcs(held, vs));
    DcAllBrought(s, store, img, kept, p, done, g, vs);
    OnceTail(done, g);
    Stored(s, store, img, kept, p, done, g, WithDcs(held, vs));
  }

  lemma SameVisits(s: ScanInfo, store: Image, img: Image, kept: Kept, p: Progress, done: seq<Visit>, g: seq<Visit>)
    requires Shaped(p, |img|) && CompsOk(s, |img|) && Midway(s, store, img, kept, p, done) && VisitsOk(s, img, g)
    ensures |store| == |img| && VisitsOk(s, store, g) && KeptOk(img, kept)
  {
    hide MidwayAt;
  }

  lemma OnceTail(done: seq<Visit>, g: seq<Visit>)
    requires Once(done + g)
    ensures Once(g)
  {
    forall i, j | 0 <= i < j < |g|
      ensures g[i] != g[j]
    {
      assert (done + g)[|done| + i] != (done + g)[|done| + j];
    }
  }

  lemma ItemComponents(s: ScanInfo, img: Image, g: seq<Visit>)
    requires CompsOk(s, |img|) && VisitsOk(s, img, g)
    ensures Dc.Components(Items(s, img, g)) == Visited(g)
  {
    hide CompsOk;
  }

  lemma DcOneBrought(s: ScanInfo, store: Image, img: Image, kept: Kept, p: Progress, done: seq<Visit>, g: seq<Visit>,
        i: nat, dc: int)
    requires Shaped(p, |img|) && ScanOk(s, p) && Midway(s, store, img, kept, p, done) && s.ss == 0 && s.al >= 0
    requires VisitsOk(s, img, g) && VisitsOk(s, store, g) && Once(done + g) && i < |g|
    requires |kept| == |store| == |img|
    requires g[i].b in kept[s.comps[g[i].ci]]
    requires dc == if s.ah == 0 then Floor(BlocksAt(s, img, g)[i][0], s.al)
      else Dc.SetBit(BlocksAt(s, store, g)[i][0], BitSet(BlocksAt(s, img, g)[i][0], s.al), s.al)
    ensures Brought(s, img, p, g[i], BlocksAt(s, store, g)[i][0 := dc])
  {
    hide Midway, Floor, Brought, BlockAgrees, Dc.SetBit, BitSet, Once, BandOk;
    Unvisited(s, store, img, kept, p, done, g, i);
    if s.ah > 0 {
      DcRefined(s, img, p, g[i], BlocksAt(s, store, g)[i]);
    }
    DcBrought(s, img, p, g[i], BlocksAt(s, store, g)[i], dc);
  }

  lemma DcAllBrought(s: ScanInfo, store: Image, img: Image, kept: Kept, p: Progress, done: seq<Visit>, g: seq<Visit>,
        vs: seq<int>)
    requires Shaped(p, |img|) && ScanOk(s, p) && Midway(s, store, img, kept, p, done) && s.ss == 0 && s.al >= 0
    requires VisitsOk(s, img, g) && VisitsOk(s, store, g) && Once(done + g) && |kept| == |store| == |img|
    requires vs == if s.ah == 0 then Dc.Floors(s.al, Items(s, img, g))
      else Dc.Ored(s.al, DcsOf(BlocksAt(s, store, g)), Items(s, img, g))
    ensures forall i | 0 <= i < |g| && g[i].b in kept[s.comps[g[i].ci]] ::
      Brought(s, img, p, g[i], WithDcs(BlocksAt(s, store, g), vs)[i])
  {
    hide Midway, Floor, Brought, Dc.SetBit, BitSet, Once, ScanOk;
    ScanComps(s, p);
    forall i: nat | i < |g| && g[i].ci < |s.comps| && 0 <= s.comps[g[i].ci] < |kept|
        && g[i].b in kept[s.comps[g[i].ci]]
      ensures InScan(s, img, g[i]) && Brought(s, img, p, g[i], WithDcs(BlocksAt(s, store, g), vs)[i])
    {
      VisitAt(s, img, g, i);
      DcOneBrought(s, store, img, kept, p, done, g, i, vs[i]);
    }
  }

  lemma ScanComps(s: ScanInfo, p: Progress)
    requires ScanOk(s, p)
    ensures CompsOk(s, |p|)
  {
  }

  // ---------------------------------------------------------------- AC

  lemma AcHolds(s: ScanInfo, img: Image, p: Progress, v: Visit, held: Block)
    requires Shaped(p, |img|) && ScanOk(s, p) && s.ss > 0 && InScan(s, img, v)
    requires BlockAgrees(held, img[s.comps[v.ci]][v.b], p[s.comps[v.ci]])
    ensures AcRoundTrip.HoldsFrom(AcOf(s), held, img[s.comps[v.ci]][v.b], s.ss)
  {
    hide Trunc;
    var c := s.comps[v.ci];
    forall k | s.ss <= k <= s.se
      ensures held[k] == AcRoundTrip.OldValue(AcOf(s), img[c][v.b][k])
    {
      assert BandOk(s, p[c]) && StepOk(s, p[c][k]);
    }
  }

  lemma AcBrought(s: ScanInfo, img: Image, p: Progress, v: Visit, held: Block, d: Block)
    requires Shaped(p, |img|) && ScanOk(s, p) && s.ss > 0 && InScan(s, img, v)
    requires BlockAgrees(held, img[s.comps[v.ci]][v.b], p[s.comps[v.ci]])
    requires forall k | 0 <= k < 64 ::
      d[k] == if s.ss <= k <= s.se then Trunc(img[s.comps[v.ci]][v.b][k], s.al) else held[k]
    ensures Brought(s, img, p, v, d)
  {
    hide Trunc, Floor, BandOk;
  }

  predicate IsKept(s: ScanInfo, kept: Kept, v: Visit)
    requires CompsOk(s, |kept|)
  {
    v.ci < |s.comps| && v.b in kept[s.comps[v.ci]]
  }

  /** Every block visited belongs to the image. */
  predicate AllKept(s: ScanInfo, kept: Kept, g: seq<Visit>)
    requires CompsOk(s, |kept|)
  {
    forall i | 0 <= i < |g| :: IsKept(s, kept, g[i])
  }

  lemma AcGroup(s: ScanInfo, store: Image, img: Image, kept: Kept, p: Progress, done: seq<Visit>, ts: seq<HuffTable>,
        g: seq<Visit>, rest: BitSeq)
    returns (r: Image)
    requires Shaped(p, |img|) && ScanOk(s, p) && Midway(s, store, img, kept, p, done) && s.ss > 0
    requires GroupEncodable(s, img, ts, g) && Once(done + g) && |kept| == |img| && AllKept(s, kept, g)
    ensures RunGroup(s, store, ts, g, GroupBits(s, img, ts, g) + rest) == Got(r, rest)
    ensures Midway(s, r, img, kept, p, done + g)
  {
    hide Midway, BlockAgrees, ScanOk, Trunc, DecodeScan, ToksBits, EncodeScan, Coded, HuffTable.Shaped,
        HuffTable.ValidCounts, HuffTable.DistinctSymbols, AcPass.SegmentTokens, StoreAll, Once, VisitsOk, CompsOk,
        BlocksAt, AllKept, Brought, AcFidelity.Holds, AcRoundTrip.InRange;
    SameVisits(s, store, img, kept, p, done, g);
    var sc, held, zs := AcOf(s), BlocksAt(s, store, g), BlocksAt(s, img, g);
    AcAllHold(s, store, img, kept, p, done, g);
    AcPass.SegmentIsScan(sc, zs);
    AcFidelity.AcScanRoundTrip(ts[0], sc, held, zs, rest);
    var ds := DecodeScan(ts[0], sc, held, 0, ToksBits(ts[0], EncodeScan(sc, zs, NONE)) + rest).value;
    r := StoreAll(s, store, g, ds);
    AcAllBrought(s, store, img, kept, p, done, g, ds);
    OnceTail(done, g);
    Stored(s, store, img, kept, p, done, g, ds);
  }

  lemma AcAllHold(s: ScanInfo, store: Image, img: Image, kept: Kept, p: Progress, done: seq<Visit>, g: seq<Visit>)
    requires Shaped(p, |img|) && ScanOk(s, p) && Midway(s, store, img, kept, p, done) && s.ss > 0
    requires VisitsOk(s, img, g) && VisitsOk(s, store, g) && Once(done + g) && |kept| == |store| == |img|
    requires AllKept(s, kept, g)
    requires AcOf(s).Valid() && forall i | 0 <= i < |g| :: AcRoundTrip.InRange(AcOf(s), BlocksAt(s, img, g)[i])
    ensures AcFidelity.Holds(AcOf(s), BlocksAt(s, store, g), BlocksAt(s, img, g))
  {
    hide Midway, BlockAgrees, AcRoundTrip.InRange, AcRoundTrip.HoldsFrom, Once, ScanOk;
    ScanComps(s, p);
    forall i: nat | i < |g|
      ensures AcRoundTrip.HoldsFrom(AcOf(s), BlocksAt(s, store, g)[i], BlocksAt(s, img, g)[i], s.ss)
    {
      VisitAt(s, img, g, i);
      Unvisited(s, store, img, kept, p, done, g, i);
      AcHolds(s, img, p, g[i], BlocksAt(s, store, g)[i]);
    }
  }

  lemma AcAllBrought(s: ScanInfo, store: Image, img: Image, kept: Kept, p: Progress, done: seq<Visit>, g: seq<Visit>,
        ds: seq<Block>)
    requires Shaped(p, |img|) && ScanOk(s, p) && Midway(s, store, img, kept, p, done) && s.ss > 0
    requires VisitsOk(s, img, g) && VisitsOk(s, store, g) && Once(done + g) && |kept| == |store| == |img|
    requires AllKept(s, kept, g)
    requires |ds| == |g| && forall i, k | 0 <= i < |ds| && 0 <= k < 64 ::
      ds[i][k] == if s.ss <= k <= s.se then Trunc(BlocksAt(s, img, g)[i][k], s.al) else BlocksAt(s, store, g)[i][k]
    ensures forall i | 0 <= i < |g| && g[i].b in kept[s.comps[g[i].ci]] :: Brought(s, img, p, g[i], ds[i])
  {
    hide Midway, Trunc, Brought, BlockAgrees, Once, ScanOk;
    ScanComps(s, p);
    forall i: nat | i < |g|
      ensures InScan(s, img, g[i]) && Brought(s, img, p, g[i], ds[i])
    {
      VisitAt(s, img, g, i);
      Unvisited(s, store, img, kept, p, done, g, i);
      AcBrought(s, img, p, g[i], BlocksAt(s, store, g)[i], ds[i]);
    }
  }

  // ---------------------------------------------------------------- one scan

  /** The scan visits every block of its components that belongs to the image, and no block twice.  An AC scan,
      which has a single component, visits no others. */
  ghost predicate OrderOk(s: ScanInfo, img: Image, kept: Kept, order: seq<Visit>)
    requires CompsOk(s, |img|)
  {
    && KeptOk(img, kept) && Once(order) && (s.ss > 0 ==> AllKept(s, kept, order))
    && forall ci, b | 0 <= ci < |s.comps| && b in kept[s.comps[ci]] :: Visit(ci, b) in order
  }

  ghost predicate Encodable(s: ScanInfo, img: Image, kept: Kept, cd: Coding)
  {
    && CompsOk(s, |img|) && OrderOk(s, img, kept, Joined(cd.groups))
    && forall i | 0 <= i < |cd.groups| :: GroupEncodable(s, img, cd.ts, cd.groups[i])
  }

  /** The data of a scan: from restart to restart what has been sent, and whatever else, such as padding. */
  ghost predicate Carries(s: ScanInfo, img: Image, ts: seq<HuffTable>, groups: seq<seq<Visit>>, data: seq<BitSeq>)
    requires forall i | 0 <= i < |groups| :: GroupEncodable(s, img, ts, groups[i])
  {
    |data| == |groups| && forall i | 0 <= i < |groups| :: GroupBits(s, img, ts, groups[i]) <= data[i]
  }

  /** Decoding a scan, restart by restart. */
  function RunGroups(s: ScanInfo, store: Image, ts: seq<HuffTable>, groups: seq<seq<Visit>>, data: seq<BitSeq>):
      Read<Image>
    requires |data| == |groups|
    decreases |groups|
  {
    if groups == [] then Got(store, [])
    else
      var (next, _) :- RunGroup(s, store, ts, groups[0], data[0]);
      RunGroups(s, next, ts, groups[1..], data[1..])
  }

  lemma OneGroup(s: ScanInfo, store: Image, img: Image, kept: Kept, p: Progress, done: seq<Visit>, ts: seq<HuffTable>,
        g: seq<Visit>, data: BitSeq)
    returns (r: Image)
    requires Shaped(p, |img|) && ScanOk(s, p) && Midway(s, store, img, kept, p, done)
    requires GroupEncodable(s, img, ts, g) && Once(done + g) && |kept| == |img| && (s.ss > 0 ==> AllKept(s, kept, g))
    requires GroupBits(s, img, ts, g) <= data
    ensures RunGroup(s, store, ts, g, data) == Got(r, data[|GroupBits(s, img, ts, g)|..])
    ensures Midway(s, r, img, kept, p, done + g)
  {
    hide Midway, GroupEncodable, GroupBits, RunGroup, Once, AllKept;
    var bits := GroupBits(s, img, ts, g);
    assert data == bits + data[|bits|..];
    if s.ss == 0 {
      r := DcGroup(s, store, img, kept, p, done, ts, g, data[|bits|..]);
    } else {
      r := AcGroup(s, store, img, kept, p, done, ts, g, data[|bits|..]);
    }
  }

  lemma {:induction false} GroupsDecode(s: ScanInfo, store: Image, img: Image, kept: Kept, p: Progress,
        done: seq<Visit>, ts: seq<HuffTable>, groups: seq<seq<Visit>>, data: seq<BitSeq>)
    requires Shaped(p, |img|) && ScanOk(s, p) && Midway(s, store, img, kept, p, done)
    requires forall i | 0 <= i < |groups| :: GroupEncodable(s, img, ts, groups[i])
    requires Once(done + Joined(groups)) && |kept| == |img| && (s.ss > 0 ==> AllKept(s, kept, Joined(groups)))
    requires Carries(s, img, ts, groups, data)
    ensures RunGroups(s, store, ts, groups, data).Got?
    ensures Midway(s, RunGroups(s, store, ts, groups, data).value, img, kept, p, done + Joined(groups))
    decreases |groups|
  {
    hide Midway, GroupEncodable, GroupBits, RunGroup, Once, AllKept;
    if groups == [] {
      assert done + Joined<Visit>([]) == done;
    } else {
      var g, later := groups[0], Joined(groups[1..]);
      assert done + (g + later) == (done + g) + later;
      OnceParts(done + g, later);
      if s.ss > 0 {
        KeptParts(s, kept, g, later);
      }
      var r := OneGroup(s, store, img, kept, p, done, ts, g, data[0]);
      GroupsDecode(s, r, img, kept, p, done + g, ts, groups[1..], data[1..]);
    }
  }

  lemma OnceParts(g: seq<Visit>, h: seq<Visit>)
    requires Once(g + h)
    ensures Once(g)
  {
    forall i, j | 0 <= i < j < |g|
      ensures g[i] != g[j]
    {
      assert (g + h)[i] != (g + h)[j];
    }
  }

  lemma KeptParts(s: ScanInfo, kept: Kept, g: seq<Visit>, h: seq<Visit>)
    requires CompsOk(s, |kept|) && AllKept(s, kept, g + h)
    ensures AllKept(s, kept, g) && AllKept(s, kept, h)
  {
    forall i | 0 <= i < |g|
      ensures IsKept(s, kept, g[i])
    {
      assert IsKept(s, kept, (g + h)[i]);
    }
    forall i | 0 <= i < |h|
      ensures IsKept(s, kept, h[i])
    {
      assert IsKept(s, kept, (g + h)[|g| + i]);
    }
  }

  lemma ScanBegins(s: ScanInfo, store: Image, img: Image, kept: Kept, p: Progress)
    requires Shaped(p, |img|) && Agrees(store, img, kept, p)
    ensures Midway(s, store, img, kept, p, [])
  {
    hide BlockAgrees, After;
  }

  lemma ScanEnds(s: ScanInfo, store: Image, img: Image, kept: Kept, p: Progress, order: seq<Visit>)
    requires Shaped(p, |img|) && CompsOk(s, |img|) && OrderOk(s, img, kept, order)
    requires Midway(s, store, img, kept, p, order)
    ensures Agrees(store, img, kept, After(s, p))
  {
    hide ValueAt, After;
    forall c, b | 0 <= c < |img| && b in kept[c]
      ensures BlockAgrees(store[c][b], img[c][b], After(s, p)[c])
    {
      assert MidwayAt(s, store, img, p, order, c, b);
      if c in s.comps {
        VisitedAll(s, img, kept, order, c, b);
      }
    }
  }

  lemma VisitedAll(s: ScanInfo, img: Image, kept: Kept, order: seq<Visit>, c: nat, b: nat)
    requires CompsOk(s, |img|) && OrderOk(s, img, kept, order) && c in s.comps && c < |img| && b in kept[c]
    ensures Hit(s, order, c, b)
  {
    var ci :| 0 <= ci < |s.comps| && s.comps[ci] == c;
    var i :| 0 <= i < |order| && order[i] == Visit(ci, b);
  }

  // ---------------------------------------------------------------- the script

  ghost predicate AllEncodable(scans: seq<ScanInfo>, img: Image, kept: Kept, cds: seq<Coding>)
  {
    |cds| == |scans| && forall i | 0 <= i < |scans| :: Encodable(scans[i], img, kept, cds[i])
  }

  /** The data of all scans. */
  ghost predicate AllCarry(scans: seq<ScanInfo>, img: Image, kept: Kept, cds: seq<Coding>, data: seq<seq<BitSeq>>)
    requires AllEncodable(scans, img, kept, cds)
  {
    |data| == |scans| && forall i | 0 <= i < |scans| :: ScanCarries(scans[i], img, kept, cds[i], data[i])
  }

  ghost predicate ScanCarries(s: ScanInfo, img: Image, kept: Kept, cd: Coding, data: seq<BitSeq>)
  {
    Encodable(s, img, kept, cd) && Carries(s, img, cd.ts, cd.groups, data)
  }

  function RunScript(scans: seq<ScanInfo>, store: Image, cds: seq<Coding>, data: seq<seq<BitSeq>>): Read<Image>
    requires |cds| == |scans| == |data|
  {
    if scans == [] then Got(store, [])
    else if |data[0]| != |cds[0].groups| then More
    else
      var (next, _) :- RunGroups(scans[0], store, cds[0].ts, cds[0].groups, data[0]);
      RunScript(scans[1..], next, cds[1..], data[1..])
  }

  lemma OneScan(s: ScanInfo, img: Image, kept: Kept, store: Image, p: Progress, cd: Coding, data: seq<BitSeq>)
    returns (r: Image)
    requires Shaped(p, |img|) && ScanOk(s, p) && Agrees(store, img, kept, p) && ScanCarries(s, img, kept, cd, data)
    ensures |data| == |cd.groups|
    ensures RunGroups(s, store, cd.ts, cd.groups, data).Got? && RunGroups(s, store, cd.ts, cd.groups, data).value == r
    ensures Agrees(r, img, kept, After(s, p))
  {
    hide Agrees, After, Midway, GroupEncodable, ScanOk, RunGroups;
    ScanBegins(s, store, img, kept, p);
    var order := Joined(cd.groups);
    assert [] + order == order;
    GroupsDecode(s, store, img, kept, p, [], cd.ts, cd.groups, data);
    r := RunGroups(s, store, cd.ts, cd.groups, data).value;
    ScanEnds(s, r, img, kept, p, order);
  }

  lemma {:induction false} ScriptDecodes(scans: seq<ScanInfo>, img: Image, kept: Kept, store: Image, p: Progress,
        cds: seq<Coding>, data: seq<seq<BitSeq>>)
    requires Shaped(p, |img|) && AllOk(scans, p) && Agrees(store, img, kept, p)
    requires AllEncodable(scans, img, kept, cds) && AllCarry(scans, img, kept, cds, data)
    ensures RunScript(scans, store, cds, data).Got?
    ensures Agrees(RunScript(scans, store, cds, data).value, img, kept, AfterAll(scans, p))
    decreases |scans|
  {
    hide ScanOk, Agrees, ScanCarries, RunGroups, Encodable;
    if scans != [] {
      assert ScanCarries(scans[0], img, kept, cds[0], data[0]);
      var r := OneScan(scans[0], img, kept, store, p, cds[0], data[0]);
      ScriptDecodes(scans[1..], img, kept, r, After(scans[0], p), cds[1..], data[1..]);
    }
  }

  lemma BlankAgrees(img: Image, kept: Kept)
    requires KeptOk(img, kept)
    ensures Agrees(Blank(img), img, kept, Start(|img|))
  {
  }

  /** Decoding all scans of an accepted script: AC coefficients truncated toward zero and DC
      coefficients rounded down to their last Al, zero where nothing was sent. */
  lemma ScriptFidelity(scans: seq<ScanInfo>, img: Image, kept: Kept, cds: seq<Coding>, data: seq<seq<BitSeq>>)
    requires scans != [] && IsProgressive(scans) && ScriptOk(scans, |img|) && KeptOk(img, kept)
    requires AllEncodable(scans, img, kept, cds) && AllCarry(scans, img, kept, cds, data)
    ensures RunScript(scans, Blank(img), cds, data).Got?
    ensures Agrees(RunScript(scans, Blank(img), cds, data).value, img, kept, AfterAll(scans, Start(|img|)))
  {
    hide Agrees, RunScript, AllCarry, AllEncodable, AfterAll, AllOk;
    BlankAgrees(img, kept);
    ScriptDecodes(scans, img, kept, Blank(img), Start(|img|), cds, data);
  }

  /** Coefficients whose last scan had Al = 0 come out exact. */
  lemma ExactWhereComplete(store: Image, img: Image, kept: Kept, p: Progress, c: nat, b: nat, k: nat)
    requires Shaped(p, |img|) && Agrees(store, img, kept, p) && c < |img| && b in kept[c] && k < 64 && p[c][k] == 0
    ensures b < |img[c]| && store[c][b][k] == img[c][b][k]
  {
    assert BlockAgrees(store[c][b], img[c][b], p[c]);
    TruncZero(img[c][b][k]);
  }
}
