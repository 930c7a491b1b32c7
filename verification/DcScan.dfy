/** DC scans of progressive JPEG (T.81 section G.1.2.1), which may interleave components: a first
    pass sends differences of shifted values, each later pass one more bit of every value. */
module DcScan {
  import opened Bits
  import opened Reading
  import opened Coef
  import opened Huffman

  /** One DC coefficient of a scan, in the order the scan visits the blocks. */
  datatype Item = Item(ci: nat, dc: int)

  /** A DC difference: its magnitude category, then its bits. */
  function DiffBits(t: HuffTable, diff: int): BitSeq
    requires t.Shaped() && t.ValidCounts() && t.HasCode(BitLen(Abs(diff)))
  {
    t.EncodeSym(BitLen(Abs(diff))) + MagBits(diff, BitLen(Abs(diff)))
  }

  function DecodeDiff(t: HuffTable, bs: BitSeq): Read<int>
    requires t.Shaped() && t.ValidCounts()
  {
    var (s, b1) :- t.DecodeSym(bs);
    if s == 0 then Got(0, b1)
    else
      var (x, b2) :- Take(s, b1);
      Got(Extend(x, s), b2)
  }

  lemma DiffRoundTrip(t: HuffTable, diff: int, rest: BitSeq)
    requires t.Shaped() && t.ValidCounts() && t.HasCode(BitLen(Abs(diff)))
    ensures DecodeDiff(t, DiffBits(t, diff) + rest) == Got(diff, rest)
  {
    hide HuffTable.DecodeSym, HuffTable.EncodeSym, HuffTable.Shaped, HuffTable.ValidCounts, Take, Extend;
    var n := BitLen(Abs(diff));
    var raw := MagBits(diff, n);
    assert DiffBits(t, diff) + rest == t.EncodeSym(n) + (raw + rest);
    t.DecodeEncode(n, raw + rest);
    if diff == 0 {
      assert raw + rest == rest;
    } else {
      ExtendMag(diff, rest);
    }
  }

  predicate ValidTables(ts: seq<HuffTable>, comps: nat)
  {
    |ts| == comps && forall i | 0 <= i < comps :: ts[i].Shaped() && ts[i].ValidCounts()
  }

  predicate ItemsOk(items: seq<Item>, comps: nat)
  {
    forall i | 0 <= i < |items| :: items[i].ci < comps
  }

  /** The tables have codes for all differences the scan sends. */
  predicate DiffsCoded(ts: seq<HuffTable>, al: nat, items: seq<Item>, last: seq<int>)
    requires ValidTables(ts, |last|) && ItemsOk(items, |last|)
  {
    items == [] ||
    var v := Shr(items[0].dc, al);
    var ci := items[0].ci;
    ts[ci].HasCode(BitLen(Abs(v - last[ci]))) && DiffsCoded(ts, al, items[1..], last[ci := v])
  }

  function FirstBits(ts: seq<HuffTable>, al: nat, items: seq<Item>, last: seq<int>): BitSeq
    requires ValidTables(ts, |last|) && ItemsOk(items, |last|) && DiffsCoded(ts, al, items, last)
  {
    if items == [] then []
    else
      var v := Shr(items[0].dc, al);
      var ci := items[0].ci;
      DiffBits(ts[ci], v - last[ci]) + FirstBits(ts, al, items[1..], last[ci := v])
  }

  /** Decoding a first pass: the values for the blocks of components `cis`, in scan order. */
  function DecodeFirst(ts: seq<HuffTable>, al: nat, cis: seq<nat>, last: seq<int>, bs: BitSeq): Read<seq<int>>
    requires ValidTables(ts, |last|) && forall i | 0 <= i < |cis| :: cis[i] < |last|
  {
    if cis == [] then Got([], bs)
    else
      var (diff, b1) :- DecodeDiff(ts[cis[0]], bs);
      var v := diff + last[cis[0]];
      var (rest, b2) :- DecodeFirst(ts, al, cis[1..], last[cis[0] := v], b1);
      Got([v * Pow2(al)] + rest, b2)
  }

  function Components(items: seq<Item>): (cis: seq<nat>)
    ensures |cis| == |items|
  {
    seq(|items|, i requires 0 <= i < |items| => items[i].ci)
  }

  function Floors(al: nat, items: seq<Item>): (vs: seq<int>)
    ensures |vs| == |items|
  {
    seq(|items|, i requires 0 <= i < |items| => Floor(items[i].dc, al))
  }

  /** The decoder ends up with every value shifted right and left again by `al`. */
  lemma {:induction false} DcFirstRoundTrip(ts: seq<HuffTable>, al: nat, items: seq<Item>, last: seq<int>, rest: BitSeq)
    requires ValidTables(ts, |last|) && ItemsOk(items, |last|) && DiffsCoded(ts, al, items, last)
    ensures ItemsOk(items, |last|)
        && DecodeFirst(ts, al, Components(items), last, FirstBits(ts, al, items, last) + rest)
         == Got(Floors(al, items), rest)
    decreases |items|
  {
    hide DecodeDiff, DiffBits, Shr, Pow2, HuffTable.Shaped, HuffTable.ValidCounts;
    if items == [] {
      assert FirstBits(ts, al, items, last) + rest == rest;
    } else {
      var ci, v := items[0].ci, Shr(items[0].dc, al);
      var more := FirstBits(ts, al, items[1..], last[ci := v]) + rest;
      assert FirstBits(ts, al, items, last) + rest == DiffBits(ts[ci], v - last[ci]) + more;
      DiffRoundTrip(ts[ci], v - last[ci], more);
      DcFirstRoundTrip(ts, al, items[1..], last[ci := v], rest);
      assert Components(items)[1..] == Components(items[1..]);
      assert [Floor(items[0].dc, al)] + Floors(al, items[1..]) == Floors(al, items);
    }
  }

  // ---------------------------------------------------------------- refinement

  function RefineBits(al: nat, items: seq<Item>): (b: BitSeq)
    ensures |b| == |items|
  {
    seq(|items|, i requires 0 <= i < |items| => BitSet(items[i].dc, al))
  }

  /** `|=` of one bit. */
  function SetBit(c: int, bit: bool, al: nat): int
  {
    if bit && !BitSet(c, al) then c + Pow2(al) else c
  }

  /** Decoding a refinement pass over the values held, in scan order. */
  function DecodeRefine(al: nat, ds: seq<int>, bs: BitSeq): Read<seq<int>>
  {
    if ds == [] then Got([], bs)
    else
      var (bit, b1) :- TakeBit(bs);
      var (rest, b2) :- DecodeRefine(al, ds[1..], b1);
      Got([SetBit(ds[0], bit, al)] + rest, b2)
  }

  /** What refining makes of any values held, right or wrong. */
  function Ored(al: nat, ds: seq<int>, items: seq<Item>): (vs: seq<int>)
    requires |ds| == |items|
    ensures |vs| == |ds|
  {
    seq(|ds|, i requires 0 <= i < |ds| => SetBit(ds[i], BitSet(items[i].dc, al), al))
  }

  lemma {:induction false} RefineAny(al: nat, ds: seq<int>, items: seq<Item>, rest: BitSeq)
    requires |ds| == |items|
    ensures DecodeRefine(al, ds, RefineBits(al, items) + rest) == Got(Ored(al, ds, items), rest)
    decreases |items|
  {
    hide BitSet, SetBit;
    if items == [] {
      assert RefineBits(al, items) + rest == rest;
    } else {
      var bs := RefineBits(al, items[1..]) + rest;
      assert RefineBits(al, items) + rest == [BitSet(items[0].dc, al)] + bs;
      assert ([BitSet(items[0].dc, al)] + bs)[1..] == bs;
      RefineAny(al, ds[1..], items[1..], rest);
      assert [SetBit(ds[0], BitSet(items[0].dc, al), al)] + Ored(al, ds[1..], items[1..]) == Ored(al, ds, items);
    }
  }

  /** Values held at the precision of the scan before come out at that of this one. */
  lemma OredFloors(al: nat, items: seq<Item>)
    ensures Ored(al, Floors(al + 1, items), items) == Floors(al, items)
  {
    hide Floor, BitSet, Pow2;
    forall i | 0 <= i < |items|
      ensures Ored(al, Floors(al + 1, items), items)[i] == Floors(al, items)[i]
    {
      FloorStep(items[i].dc, al);
    }
  }

  lemma DcRefineRoundTrip(al: nat, items: seq<Item>, rest: BitSeq)
    ensures DecodeRefine(al, Floors(al + 1, items), RefineBits(al, items) + rest) == Got(Floors(al, items), rest)
  {
    hide Floors, Ored, RefineBits, DecodeRefine;
    OredFloors(al, items);
    RefineAny(al, Floors(al + 1, items), items, rest);
  }
}
