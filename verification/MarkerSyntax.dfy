/** Marker segments (T.81 section B.2): their bytes, what they tell a decoder, and how a decoder takes them apart. */
module MarkerSyntax {
  import opened BitOutput
  import opened Huffman
  import opened AcScan
  import opened Zigzag

  // ---------------------------------------------------------------- parsing bytes

  /** The bytes may end too early, or be wrong. */
  datatype Parse<+T> = Wait | Bad | Got(value: T, rest: seq<Byte>) {
    predicate IsFailure() { !Got? }

    function PropagateFailure<U>(): Parse<U>
      requires !Got?
    {
      if Wait? then Wait else Bad
    }

    function Extract(): (T, seq<Byte>)
      requires Got?
    {
      (value, rest)
    }
  }

  function Byte1(s: seq<Byte>): Parse<Byte> { if s == [] then Wait else Got(s[0], s[1..]) }

  /** Two bytes, the high one first. */
  function Byte2(s: seq<Byte>): Parse<nat> { if |s| < 2 then Wait else Got((s[0] as nat) * 256 + s[1], s[2..]) }

  function Bytes(n: nat, s: seq<Byte>): Parse<seq<Byte>> { if |s| < n then Wait else Got(s[..n], s[n..]) }

  function Two(v: nat): seq<Byte>
    requires v < 0x1_0000
  {
    [v / 256, v % 256]
  }

  lemma ByteTwo(v: nat, rest: seq<Byte>)
    requires v < 0x1_0000
    ensures Byte2(Two(v) + rest) == Got(v, rest)
  {
    assert (Two(v) + rest)[2..] == rest;
  }

  lemma ByteOne(b: Byte, rest: seq<Byte>)
    ensures Byte1([b] + rest) == Got(b, rest)
  {
    assert ([b] + rest)[1..] == rest;
  }

  lemma BytesMany(b: seq<Byte>, rest: seq<Byte>)
    ensures Bytes(|b|, b + rest) == Got(b, rest)
  {
    assert (b + rest)[..|b|] == b && (b + rest)[|b|..] == rest;
  }

  // ---------------------------------------------------------------- segments

  /** A component of a frame: identifier, sampling factors, quantization table. */
  datatype FrameComp = FrameComp(id: Byte, h: nat, v: nat, tq: Byte)

  /** A component of a scan: identifier, DC and AC table. */
  datatype ScanComp = ScanComp(id: Byte, td: nat, ta: nat)

  type Counts = c: seq<Byte> | |c| == 16 witness seq(16, _ => 0)

  datatype Segment =
    | Dqt(index: nat, wide: bool, zigzag: seq<nat>)
    | Dht(isAc: bool, index: nat, counts: Counts, vals: seq<Byte>)
    | Dri(interval: nat)
    | Sof(code: Byte, precision: Byte, height: nat, width: nat, comps: seq<FrameComp>)
    | Sos(scan: seq<ScanComp>, ss: Byte, se: Byte, ah: nat, al: nat)

  const SOI: Byte := 0xD8
  const EOI: Byte := 0xD9
  const DQT: Byte := 0xDB
  const DHT: Byte := 0xC4
  const DRI: Byte := 0xDD
  const SOS: Byte := 0xDA
  const SOF0: Byte := 0xC0
  const SOF1: Byte := 0xC1
  const SOF2: Byte := 0xC2
  const SOF9: Byte := 0xC9
  const SOF10: Byte := 0xCA

  /** Markers that stand alone, and those whose parameters are passed over. */
  predicate Bare(code: Byte) { code == 1 || 0xD0 <= code < 0xD8 }

  predicate Skippable(code: Byte) { code in {0xDC, 0xCC, 0xFE} || 0xE0 <= code < 0xF0 }

  function Total(counts: seq<Byte>): nat
  {
    if counts == [] then 0 else Total(counts[..|counts| - 1]) + counts[|counts| - 1]
  }

  /** Segments that fit their fields. */
  predicate Legal(g: Segment)
  {
    match g
    case Dqt(index, wide, zz) => index < 4 && |zz| == 64
                                 && forall i | 0 <= i < 64 :: zz[i] < if wide then 0x1_0000 else 256
    case Dht(_, index, counts, vals) => index < 4 && |vals| == Total(counts) <= 256
    case Dri(interval) => interval < 0x1_0000
    case Sof(code, _, height, width, comps) =>
      && code in {SOF0, SOF1, SOF2} && 0 < height < 0x1_0000 && 0 < width < 0x1_0000 && 0 < |comps| < 256
      && forall i | 0 <= i < |comps| :: comps[i].h < 16 && comps[i].v < 16
    case Sos(scan, _, _, ah, al) => 0 < |scan| <= 4 && ah < 16 && al < 16
                                    && forall i | 0 <= i < |scan| :: scan[i].td < 16 && scan[i].ta < 16
  }

  function Code(g: Segment): Byte
  {
    match g
    case Dqt(_, _, _) => DQT
    case Dht(_, _, _, _) => DHT
    case Dri(_) => DRI
    case Sof(code, _, _, _, _) => code
    case Sos(_, _, _, _, _) => SOS
  }

  function EntryBytes(wide: bool, v: nat): seq<Byte>
    requires v < if wide then 0x1_0000 else 256
  {
    if wide then Two(v) else [v]
  }

  function QuantBytes(wide: bool, vals: seq<nat>): seq<Byte>
    requires forall i | 0 <= i < |vals| :: vals[i] < if wide then 0x1_0000 else 256
  {
    if vals == [] then [] else EntryBytes(wide, vals[0]) + QuantBytes(wide, vals[1..])
  }

  function FrameCompBytes(comps: seq<FrameComp>): seq<Byte>
    requires forall i | 0 <= i < |comps| :: comps[i].h < 16 && comps[i].v < 16
  {
    if comps == [] then [] else [comps[0].id, 16 * comps[0].h + comps[0].v, comps[0].tq] + FrameCompBytes(comps[1..])
  }

  function ScanCompBytes(scan: seq<ScanComp>): seq<Byte>
    requires forall i | 0 <= i < |scan| :: scan[i].td < 16 && scan[i].ta < 16
  {
    if scan == [] then [] else [scan[0].id, 16 * scan[0].td + scan[0].ta] + ScanCompBytes(scan[1..])
  }

  /** The bytes after the marker: a length that counts itself, and the parameters. */
  function Body(g: Segment): seq<Byte>
    requires Legal(g)
  {
    match g
    case Dqt(index, wide, zz) => Two(if wide then 131 else 67) + [index + if wide then 16 else 0] + QuantBytes(wide, zz)
    case Dht(isAc, index, counts, vals) => Two(19 + |vals|) + [index + if isAc then 16 else 0] + counts + vals
    case Dri(interval) => Two(4) + Two(interval)
    case Sof(_, precision, height, width, comps) =>
        Two(8 + 3 * |comps|) + [precision] + Two(height) + Two(width) + [|comps|] + FrameCompBytes(comps)
    case Sos(scan, ss, se, ah, al) => Two(6 + 2 * |scan|) + [|scan|] + ScanCompBytes(scan) + [ss, se, 16 * ah + al]
  }

  function SegmentOf(g: Segment): seq<Byte>
    requires Legal(g)
  {
    [0xFF, Code(g)] + Body(g)
  }

  // ---------------------------------------------------------------- what a decoder knows

  datatype Option<+T> = None | Some(value: T)

  /** A component as the decoder keeps it: its last tables, too. */
  datatype Component = Component(frame: FrameComp, dcTbl: nat, acTbl: nat)

  /** What the markers have said so far.  `current` are the components of the scan, by their place in the frame. */
  datatype Info = Info(quant: seq<Option<seq<nat>>>, dc: seq<Option<HuffTable>>, ac: seq<Option<HuffTable>>,
        interval: nat, sawSoi: bool, sawSof: bool, progressive: bool, arith: bool, precision: nat, height: nat,
            width: nat, comps: seq<Component>,
                       current: seq<nat>, ss: nat, se: nat, ah: nat, al: nat) {
    predicate Ok() { |quant| == |dc| == |ac| == 4 }
  }

  /** A quantization table in natural order, from its values in zigzag order. */
  function Unzigzag(zz: seq<nat>, n: nat, q: seq<nat>): (r: seq<nat>)
    requires n <= |zz| <= 64 && |q| == 64
    ensures |r| == 64
  {
    if n == 0 then q else Unzigzag(zz, n - 1, q)[Natural(n - 1) := zz[n - 1]]
  }

  /** Tables are found by number, components by identifier. */
  function FindComp(comps: seq<Component>, id: Byte, i: nat): (j: nat)
    requires i <= |comps|
    ensures i <= j <= |comps| && (j < |comps| ==> comps[j].frame.id == id)
    ensures forall k | i <= k < j :: comps[k].frame.id != id
    decreases |comps| - i
  {
    if i == |comps| || comps[i].frame.id == id then i else FindComp(comps, id, i + 1)
  }
}
