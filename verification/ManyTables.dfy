/** Reading segments that define several tables at once, which this compressor never writes but others do. */
module ManyTables {
  import opened BitOutput
  import opened Huffman
  import opened MarkerSyntax
  import opened MarkerParsing

  /** The definition of one table, without the length of the segment. */
  function Definition(g: Segment): (b: seq<Byte>)
    requires (g.Dqt? || g.Dht?) && Legal(g)
    ensures |b| > 0
  {
    LongEnough(g);
    Body(g)[2..]
  }

  lemma LongEnough(g: Segment)
    requires (g.Dqt? || g.Dht?) && Legal(g)
    ensures |Body(g)| > 2
  {
    hide QuantBytes, Total;
  }

  function Definitions(gs: seq<Segment>): seq<Byte>
    requires forall i | 0 <= i < |gs| :: (gs[i].Dqt? || gs[i].Dht?) && Legal(gs[i])
  {
    if gs == [] then [] else Definition(gs[0]) + Definitions(gs[1..])
  }

  // ---------------------------------------------------------------- quantization tables

  /** All tables are stored, one after the other. */
  function AllStored(info: Info, gs: seq<Segment>): (r: Info)
    requires info.Ok() && forall i | 0 <= i < |gs| :: Legal(gs[i])
    ensures r.Ok()
    decreases |gs|
  {
    if gs == [] then info else AllStored(Apply(info, gs[0]), gs[1..])
  }

  lemma {:induction false} QuantSize(wide: bool, vals: seq<nat>)
    requires forall i | 0 <= i < |vals| :: vals[i] < if wide then 0x1_0000 else 256
    ensures |QuantBytes(wide, vals)| == if wide then 2 * |vals| else |vals|
  {
    if vals != [] {
      QuantSize(wide, vals[1..]);
    }
  }

  lemma QuantDefinition(g: Segment)
    requires g.Dqt? && Legal(g)
    ensures Definition(g) == [g.index + if g.wide then 16 else 0] + QuantBytes(g.wide, g.zigzag)
  {
    hide QuantBytes;
  }

  lemma OneDqt(info: Info, g: Segment, more: seq<Byte>, length: nat)
    requires info.Ok() && g.Dqt? && Legal(g) && length >= |Definition(g)|
    ensures |Definition(g)| == if g.wide then 129 else 65
    ensures DqtLoop(info, length, Definition(g) + more) == DqtLoop(Apply(info, g), length - |Definition(g)|, more)
  {
    hide ParseQuant, QuantBytes, Unzigzag, ParseEntry, Definition;
    var n: Byte := g.index + if g.wide then 16 else 0;
    QuantSize(g.wide, g.zigzag);
    QuantDefinition(g);
    var s2 := QuantBytes(g.wide, g.zigzag) + more;
    assert Definition(g) + more == [n] + s2;
    ByteOne(n, s2);
    QuantBack(g.wide, g.zigzag, more);
    assert n / 16 != 0 <==> g.wide;
  }

  lemma {:induction false} DqtDefinitions(info: Info, gs: seq<Segment>, rest: seq<Byte>)
    requires info.Ok() && forall i | 0 <= i < |gs| :: gs[i].Dqt? && Legal(gs[i])
    ensures DqtLoop(info, |Definitions(gs)|, Definitions(gs) + rest) == Got(AllStored(info, gs), rest)
    decreases |gs|
  {
    hide Definition, Apply, Legal, Info.Ok;
    if gs == [] {
      assert Definitions(gs) + rest == rest;
    } else {
      var more := Definitions(gs[1..]) + rest;
      assert Definitions(gs) + rest == Definition(gs[0]) + more;
      OneDqt(info, gs[0], more, |Definitions(gs)|);
      DqtDefinitions(Apply(info, gs[0]), gs[1..], rest);
    }
  }

  /** A DQT segment with several tables stores each of them, as segments with one table each would. */
  lemma ManyDqtLaw(info: Info, gs: seq<Segment>, rest: seq<Byte>)
    requires info.Ok() && (forall i | 0 <= i < |gs| :: gs[i].Dqt? && Legal(gs[i]))
    requires |Definitions(gs)| + 2 < 0x1_0000
    ensures ParseBody(info, 0xDB, Two(|Definitions(gs)| + 2) + Definitions(gs) + rest) == Got(AllStored(info, gs), rest)
  {
    hide Definitions, Info.Ok;
    var n := |Definitions(gs)| + 2;
    assert Two(n) + Definitions(gs) + rest == Two(n) + (Definitions(gs) + rest);
    ByteTwo(n, Definitions(gs) + rest);
    DqtDefinitions(info, gs, rest);
  }

  // ---------------------------------------------------------------- Huffman tables

  function Slot(info: Info, isAc: bool, index: nat): Option<HuffTable>
    requires info.Ok() && index < 4
  {
    if isAc then info.ac[index] else info.dc[index]
  }

  /** The slot holds the table: its counts, and its symbols as far as the counts go. */
  predicate Holds(slot: Option<HuffTable>, g: Segment)
    requires g.Dht?
  {
    && slot.Some? && slot.value.bits == [0] + g.counts && |slot.value.huffval| == 256 && |g.vals| <= 256
    && slot.value.huffval[..|g.vals|] == g.vals
  }

  predicate Defines(g: Segment, isAc: bool, index: nat) { g.Dht? && g.isAc == isAc && g.index == index }

  /** The last table for a slot. */
  function LastFor(gs: seq<Segment>, isAc: bool, index: nat): (g: Option<Segment>)
    ensures g.Some? ==> g.value in gs && Defines(g.value, isAc, index)
  {
    if gs == [] then None
    else if Defines(gs[|gs| - 1], isAc, index) then Some(gs[|gs| - 1])
    else LastFor(gs[..|gs| - 1], isAc, index)
  }

  lemma {:induction false} LastOfRest(gs: seq<Segment>, isAc: bool, index: nat)
    requires gs != []
    ensures LastFor(gs, isAc, index)
        == if LastFor(gs[1..], isAc, index).Some? then LastFor(gs[1..], isAc, index)
           else if Defines(gs[0], isAc, index) then Some(gs[0]) else None
    decreases |gs|
  {
    var n := |gs| - 1;
    if n > 0 && !Defines(gs[n], isAc, index) {
      LastOfRest(gs[..n], isAc, index);
      assert gs[..n][1..] == gs[1..][..n - 1];
    }
  }

  /** A slot holds the last table for it, or what it has held before. */
  predicate SlotAfter(last: Option<Segment>, before: Option<HuffTable>, after: Option<HuffTable>)
  {
    if last.Some? then last.value.Dht? && Holds(after, last.value) else after == before
  }

  lemma TableDefinition(g: Segment)
    requires g.Dht? && Legal(g)
    ensures Definition(g) == [g.index + if g.isAc then 16 else 0] + g.counts + g.vals
  {
    hide Total;
  }

  lemma OneTable(g: Segment, more: seq<Byte>, length: nat)
    requires g.Dht? && Legal(g) && length >= |Definition(g)|
    ensures |Definition(g)| == 17 + |g.vals|
    ensures ParseTable(length, Definition(g) + more) == Got(TableDef(g.isAc, g.index, g.counts, g.vals), more)
  {
    hide Total, Body, Definition;
    var n: Byte := g.index + if g.isAc then 16 else 0;
    TableDefinition(g);
    assert [n] + g.counts + g.vals + more == [n] + (g.counts + (g.vals + more));
    ByteOne(n, g.counts + (g.vals + more));
    BytesMany(g.counts, g.vals + more);
    BytesMany(g.vals, more);
  }

  lemma {:induction false} DhtDefinitions(info: Info, gs: seq<Segment>, rest: seq<Byte>, work: seq<Byte>, isAc: bool,
        index: nat)
    returns (r: Info)
    requires info.Ok() && (forall i | 0 <= i < |gs| :: gs[i].Dht? && Legal(gs[i])) && |work| == 256 && index < 4
    ensures DhtLoop(info, |Definitions(gs)|, Definitions(gs) + rest, work) == Got(r, rest) && r.Ok()
    ensures SlotAfter(LastFor(gs, isAc, index), Slot(info, isAc, index), Slot(r, isAc, index))
    ensures r == info.(dc := r.dc, ac := r.ac)
    decreases |gs|
  {
    hide Definition, Legal, Total, ParseTable, Holds, LastFor;
    if gs == [] {
      assert Definitions(gs) + rest == rest;
      r := info;
      NoneLast(isAc, index);
    } else {
      var g := gs[0];
      GoodSize(g);
      var more := Definitions(gs[1..]) + rest;
      assert Definitions(gs) + rest == Definition(g) + more;
      OneTable(g, more, |Definitions(gs)|);
      var t, work' := TableOf(g.counts, g.vals, work), g.vals + work[|g.vals|..];
      r := DhtDefinitions(Store(info, g.isAc, g.index, t), gs[1..], rest, work', isAc, index);
      LastOfRest(gs, isAc, index);
      TableHeld(g, work);
    }
  }

  lemma NoneLast(isAc: bool, index: nat)
    ensures LastFor([], isAc, index) == None
  {
  }

  lemma GoodSize(g: Segment)
    requires g.Dht? && Legal(g)
    ensures |g.vals| <= 256 && g.index < 4
  {
  }

  lemma TableHeld(g: Segment, work: seq<Byte>)
    requires g.Dht? && Legal(g) && |work| == 256
    ensures |g.vals| <= 256 && Holds(Some(TableOf(g.counts, g.vals, work)), g)
  {
  }

  /** A DHT segment with several tables stores each of them in its slot; the last one counts if there are several for
      one slot, and all other slots keep what they hold. */
  lemma ManyDhtLaw(info: Info, gs: seq<Segment>, rest: seq<Byte>, isAc: bool, index: nat) returns (r: Info)
    requires info.Ok() && (forall i | 0 <= i < |gs| :: gs[i].Dht? && Legal(gs[i])) && index < 4
    requires |Definitions(gs)| + 2 < 0x1_0000
    ensures ParseBody(info, 0xC4, Two(|Definitions(gs)| + 2) + Definitions(gs) + rest) == Got(r, rest)
    ensures r.Ok() && r == info.(dc := r.dc, ac := r.ac)
    ensures SlotAfter(LastFor(gs, isAc, index), Slot(info, isAc, index), Slot(r, isAc, index))
  {
    hide Definitions, SlotAfter, LastFor, Legal, DhtLoop;
    var n := |Definitions(gs)| + 2;
    assert Two(n) + Definitions(gs) + rest == Two(n) + (Definitions(gs) + rest);
    ByteTwo(n, Definitions(gs) + rest);
    r := DhtDefinitions(info, gs, rest, Blank(), isAc, index);
  }
}
