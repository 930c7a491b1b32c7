/** Progressive AC scans (T.81 sections G.1.2.2 and G.1.2.3) on blocks in zigzag order: what a
    scan sends, as Huffman symbols and raw bit groups, and how it is decoded from bits. */
module AcScan {
  import opened Bits
  import opened Reading
  import opened Coef
  import opened Huffman

  datatype Token = Sym(sym: nat) | Raw(bits: BitSeq)

  type Block = b: seq<int> | |b| == 64 witness seq(64, _ => 0)

  /** A first pass over a band of coefficients, or a pass that adds one bit of precision. */
  datatype Mode = Initial | Refine

  datatype Scan = Scan(mode: Mode, ss: nat, se: nat, al: nat) {
    predicate Valid() { 1 <= ss <= se <= 63 }
  }

  const ZRL: nat := 0xF0
  const MAX_EOBRUN: nat := 0x7FFF
  const MAX_BE: nat := 937

  // ---------------------------------------------------------------- tokens as bits

  predicate Coded(t: HuffTable, toks: seq<Token>)
    requires t.Shaped()
  {
    forall i | 0 <= i < |toks| && toks[i].Sym? :: t.HasCode(toks[i].sym)
  }

  function TokenBits(t: HuffTable, tok: Token): BitSeq
    requires t.Shaped() && t.ValidCounts() && (tok.Sym? ==> t.HasCode(tok.sym))
  {
    match tok
    case Sym(s) => t.EncodeSym(s)
    case Raw(b) => b
  }

  function ToksBits(t: HuffTable, toks: seq<Token>): BitSeq
    requires t.Shaped() && t.ValidCounts() && Coded(t, toks)
  {
    if toks == [] then [] else TokenBits(t, toks[0]) + ToksBits(t, toks[1..])
  }

  // ---------------------------------------------------------------- encoding

  /** The coefficients that make the encoder send a symbol. */
  predicate Sends(sc: Scan, c: int)
  {
    if sc.mode == Initial then Mag(c, sc.al) != 0 else Mag(c, sc.al) == 1
  }

  /** One past the last coefficient before `k` that sends a symbol; `ss` if there is none. */
  function EndBefore(sc: Scan, z: Block, k: nat): (e: nat)
    requires sc.Valid() && sc.ss <= k <= sc.se + 1
    ensures sc.ss <= e <= k
    ensures forall i | e <= i < k :: !Sends(sc, z[i])
    ensures e > sc.ss ==> Sends(sc, z[e - 1])
  {
    if k == sc.ss then k else if Sends(sc, z[k - 1]) then k else EndBefore(sc, z, k - 1)
  }

  function HeadEnd(sc: Scan, z: Block): (e: nat)
    requires sc.Valid()
    ensures sc.ss <= e <= sc.se + 1
    ensures forall i | e <= i <= sc.se :: !Sends(sc, z[i])
    ensures e > sc.ss ==> Sends(sc, z[e - 1])
  {
    EndBefore(sc, z, sc.se + 1)
  }

  /** First pass, figure G.3: `r` zeroes precede coefficient `k`. */
  function InitialHead(sc: Scan, z: Block, k: nat, e: nat, r: nat): seq<Token>
    requires sc.Valid() && sc.ss <= k && e <= sc.se + 1
    decreases if k < e then e - k else 0, r
  {
    if k >= e then []
    else if Mag(z[k], sc.al) == 0 then InitialHead(sc, z, k + 1, e, r + 1)
    else if r > 15 then [Sym(ZRL)] + InitialHead(sc, z, k, e, r - 16)
    else
      var v := SignedMag(z[k], sc.al);
      var n := BitLen(Abs(v));
      [Sym(16 * r + n), Raw(MagBits(v, n))] + InitialHead(sc, z, k + 1, e, 0)
  }

  function SignedMag(c: int, al: nat): (v: int)
    ensures Abs(v) == Mag(c, al)
  {
    if c < 0 then -(Mag(c, al) as int) else Mag(c, al)
  }

  /** Refinement, figure G.7: `r` zeroes and the correction bits `br` precede coefficient `k`. */
  function RefineHead(sc: Scan, z: Block, k: nat, e: nat, r: nat, br: BitSeq): seq<Token>
    requires sc.Valid() && sc.ss <= k && e <= sc.se + 1
    decreases if k < e then e - k else 0, r
  {
    if k >= e then []
    else if Mag(z[k], sc.al) == 0 then RefineHead(sc, z, k + 1, e, r + 1, br)
    else if r > 15 then [Sym(ZRL), Raw(br)] + RefineHead(sc, z, k, e, r - 16, [])
    else if Mag(z[k], sc.al) > 1 then
      RefineHead(sc, z, k + 1, e, r, br + [Mag(z[k], sc.al) % 2 == 1])
    else [Sym(16 * r + 1), Raw([z[k] >= 0]), Raw(br)] + RefineHead(sc, z, k + 1, e, 0, [])
  }

  function Head(sc: Scan, z: Block): seq<Token>
    requires sc.Valid()
  {
    if sc.mode == Initial then InitialHead(sc, z, sc.ss, HeadEnd(sc, z), 0)
    else RefineHead(sc, z, sc.ss, HeadEnd(sc, z), 0, [])
  }

  /** The correction bits of the already nonzero coefficients from `j` up to `k`. */
  function Corrections(al: nat, z: Block, j: nat, k: nat): (b: BitSeq)
    requires k <= 64
    ensures j <= k ==> |b| <= k - j
    decreases if j < k then k - j else 0
  {
    if j >= k then []
    else if Mag(z[j], al) > 1 then [Mag(z[j], al) % 2 == 1] + Corrections(al, z, j + 1, k)
    else Corrections(al, z, j + 1, k)
  }

  function Tail(sc: Scan, z: Block, k: nat): BitSeq
    requires sc.Valid()
  {
    if sc.mode == Initial then [] else Corrections(sc.al, z, k, sc.se + 1)
  }

  /** End-of-band blocks not sent yet, and the correction bits to send after them. */
  datatype Pending = Pending(eobrun: nat, be: BitSeq)

  const NONE := Pending(0, [])

  function EobTokens(p: Pending): seq<Token>
  {
    if p.eobrun == 0 then []
    else
      var n := BitLen(p.eobrun) - 1;
      [Sym(16 * n), Raw(ToBits(p.eobrun, n)), Raw(p.be)]
  }

  /** The tokens one block sends right away, and what it leaves pending. */
  function EncodeBlock(sc: Scan, z: Block, p: Pending): (seq<Token>, Pending)
    requires sc.Valid()
  {
    var e := HeadEnd(sc, z);
    var toks := if e > sc.ss then EobTokens(p) + Head(sc, z) else [];
    var p1 := if e > sc.ss then NONE else p;
    if e > sc.se then (toks, p1)
    else
      var p2 := Pending(p1.eobrun + 1, p1.be + Tail(sc, z, e));
      if Full(p2) then (toks + EobTokens(p2), NONE) else (toks, p2)
  }

  predicate Full(p: Pending)
  {
    p.eobrun == MAX_EOBRUN || |p.be| > MAX_BE
  }

  /** Everything a scan sends from a given pending state to its end. */
  function EncodeScan(sc: Scan, zs: seq<Block>, p: Pending): seq<Token>
    requires sc.Valid()
  {
    if zs == [] then EobTokens(p)
    else
      var (toks, p') := EncodeBlock(sc, zs[0], p);
      toks + EncodeScan(sc, zs[1..], p')
  }

  // ---------------------------------------------------------------- decoding

  /** Where the decoder stores zigzag coefficient `k`; runs past the block end in the last one. */
  function Slot(k: nat): (s: nat)
    ensures s < 64
  {
    if k < 64 then k else 63
  }

  /** First pass, from coefficient `k` on. Yields the block and the EOB run still to go. */
  function InitialLoop(t: HuffTable, sc: Scan, d: Block, k: nat, bs: BitSeq): Read<(Block, nat)>
    requires t.Shaped() && t.ValidCounts() && sc.Valid()
    decreases if k <= sc.se then sc.se + 1 - k else 0
  {
    if k > sc.se then Got((d, 0), bs)
    else
      var (sym, b1) :- t.DecodeSym(bs);
      var r, s := sym / 16, sym % 16;
      if s != 0 then
        var (x, b2) :- Take(s, b1);
        InitialLoop(t, sc, d[Slot(k + r) := Extend(x, s) * Pow2(sc.al)], k + r + 1, b2)
      else if r == 15 then InitialLoop(t, sc, d, k + 16, b1)
      else
        var (x, b2) :- Take(r, b1);
        Got((d, Pow2(r) + x - 1), b2)
  }

  /** Append correction bits to nonzero coefficients from `k` on, passing over `r` zeroes and
      stopping at the next one. */
  function Advance(sc: Scan, d: Block, k: nat, r: nat, bs: BitSeq): (res: Read<(Block, nat)>)
    requires sc.Valid()
    ensures res.Got? ==> k <= res.value.1
    decreases if k <= sc.se then sc.se + 1 - k else 0
  {
    if k > sc.se then Got((d, k), bs)
    else if d[k] != 0 then
      var (bit, b1) :- TakeBit(bs);
      Advance(sc, d[k := Correct(d[k], bit, sc.al)], k + 1, r, b1)
    else if r == 0 then Got((d, k), bs)
    else Advance(sc, d, k + 1, r - 1, bs)
  }

  /** Append correction bits to all nonzero coefficients from `k` on. */
  function CorrectTail(sc: Scan, d: Block, k: nat, bs: BitSeq): Read<Block>
    requires sc.Valid()
    decreases if k <= sc.se then sc.se + 1 - k else 0
  {
    if k > sc.se then Got(d, bs)
    else if d[k] != 0 then
      var (bit, b1) :- TakeBit(bs);
      CorrectTail(sc, d[k := Correct(d[k], bit, sc.al)], k + 1, b1)
    else CorrectTail(sc, d, k + 1, bs)
  }

  function RefineLoop(t: HuffTable, sc: Scan, d: Block, k: nat, bs: BitSeq): Read<(Block, nat)>
    requires t.Shaped() && t.ValidCounts() && sc.Valid()
    decreases if k <= sc.se then sc.se + 1 - k else 0
  {
    if k > sc.se then Got((d, 0), bs)
    else
      var (sym, b1) :- t.DecodeSym(bs);
      var r, s := sym / 16, sym % 16;
      if s != 0 then
        var (bit, b2) :- TakeBit(b1);
        var (dk, b3) :- Advance(sc, d, k, r, b2);
        var v := if bit then Pow2(sc.al) else -Pow2(sc.al);
        RefineLoop(t, sc, dk.0[Slot(dk.1) := v], dk.1 + 1, b3)
      else if r == 15 then
        var (dk, b2) :- Advance(sc, d, k, r, b1);
        RefineLoop(t, sc, dk.0, dk.1 + 1, b2)
      else
        var (x, b2) :- Take(r, b1);
        var (d', b3) :- CorrectTail(sc, d, k, b2);
        Got((d', Pow2(r) + x - 1), b3)
  }

  function Loop(t: HuffTable, sc: Scan, d: Block, k: nat, bs: BitSeq): Read<(Block, nat)>
    requires t.Shaped() && t.ValidCounts() && sc.Valid()
  {
    if sc.mode == Initial then InitialLoop(t, sc, d, k, bs) else RefineLoop(t, sc, d, k, bs)
  }

  function RunBlock(sc: Scan, d: Block, k: nat, bs: BitSeq): Read<Block>
    requires sc.Valid()
  {
    if sc.mode == Initial then Got(d, bs) else CorrectTail(sc, d, k, bs)
  }

  function DecodeBlock(t: HuffTable, sc: Scan, d: Block, eobrun: nat, bs: BitSeq): Read<(Block, nat)>
    requires t.Shaped() && t.ValidCounts() && sc.Valid()
  {
    if eobrun > 0 then
      var (d', b1) :- RunBlock(sc, d, sc.ss, bs);
      Got((d', eobrun - 1), b1)
    else Loop(t, sc, d, sc.ss, bs)
  }

  function DecodeScan(t: HuffTable, sc: Scan, ds: seq<Block>, eobrun: nat, bs: BitSeq): Read<seq<Block>>
    requires t.Shaped() && t.ValidCounts() && sc.Valid()
  {
    if ds == [] then Got([], bs)
    else
      var (de, b1) :- DecodeBlock(t, sc, ds[0], eobrun, bs);
      var (rest, b2) :- DecodeScan(t, sc, ds[1..], de.1, b1);
      Got([de.0] + rest, b2)
  }
}
