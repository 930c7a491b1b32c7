/** The order in which the AC encoders visit coefficients, against the tokens a block stands for:
    what is still to be emitted when coefficient `k` is next. */
module AcEncoding {
  import opened Bits
  import opened Coef
  import opened Huffman
  import opened AcScan

  function HeadFrom(sc: Scan, z: Block, k: nat, r: nat, br: BitSeq): seq<Token>
    requires sc.Valid() && sc.ss <= k
  {
    if sc.mode == Initial then InitialHead(sc, z, k, HeadEnd(sc, z), r) else RefineHead(sc, z, k, HeadEnd(sc, z), r, br)
  }

  /** The tokens still to be emitted for block `z`, and what it leaves pending, when `p` is pending,
      `r` zeroes and the correction bits `br` precede coefficient `k`. */
  function EncodeFrom(sc: Scan, z: Block, k: nat, r: nat, br: BitSeq, p: Pending): (seq<Token>, Pending)
    requires sc.Valid() && sc.ss <= k <= sc.se + 1
  {
    var e := HeadEnd(sc, z);
    if k < e then
      var toks := EobTokens(p) + HeadFrom(sc, z, k, r, br);
      if e > sc.se then (toks, NONE)
      else
        var (last, p') := EndBlock(Pending(1, Tail(sc, z, e)));
        (toks + last, p')
    else if e > sc.se then ([], p)
    else EndBlock(Pending(p.eobrun + 1, p.be + br + Tail(sc, z, k)))
  }

  function EndBlock(p: Pending): (seq<Token>, Pending)
  {
    if Full(p) then (EobTokens(p), NONE) else ([], p)
  }

  function Then(toks: seq<Token>, rest: (seq<Token>, Pending)): (seq<Token>, Pending) { (toks + rest.0, rest.1) }

  lemma EncodeFromStart(sc: Scan, z: Block, p: Pending)
    requires sc.Valid()
    ensures EncodeFrom(sc, z, sc.ss, 0, [], p) == EncodeBlock(sc, z, p)
  {
    hide HeadEnd, InitialHead, RefineHead, Tail, Full, EobTokens;
    var e := HeadEnd(sc, z);
    assert p.be + [] == p.be;
    assert [] + Tail(sc, z, e) == Tail(sc, z, e);
    var toks := EobTokens(p) + Head(sc, z);
    assert toks + [] == toks;
    assert [] + EobTokens(Pending(p.eobrun + 1, p.be + Tail(sc, z, e)))
        == EobTokens(Pending(p.eobrun + 1, p.be + Tail(sc, z, e)));
  }

  /** A coefficient that sends a symbol lies before the end of the head, the last of them at it. */
  lemma SendsInHead(sc: Scan, z: Block, k: nat)
    requires sc.Valid() && sc.ss <= k <= sc.se
    ensures Sends(sc, z[k]) ==> k < HeadEnd(sc, z)
    ensures !Sends(sc, z[k]) ==> k + 1 != HeadEnd(sc, z)
  {
    hide Sends, EndBefore;
  }

  lemma NoneEob()
    ensures EobTokens(NONE) == []
  {
  }

  /** What is pending goes out before the next symbol. */
  lemma FromPending(sc: Scan, z: Block, k: nat, r: nat, br: BitSeq, p: Pending)
    requires sc.Valid() && sc.ss <= k < HeadEnd(sc, z)
    ensures EncodeFrom(sc, z, k, r, br, p) == Then(EobTokens(p), EncodeFrom(sc, z, k, r, br, NONE))
  {
    hide HeadEnd, HeadFrom, Tail, Full, EobTokens;
    NoneEob();
    var h := HeadFrom(sc, z, k, r, br);
    assert [] + h == h;
    assert forall last :: (EobTokens(p) + h) + last == EobTokens(p) + (h + last);
  }

  /** Tokens at the front of what is left of the head. */
  lemma FromHead(sc: Scan, z: Block, k: nat, r: nat, br: BitSeq, toks: seq<Token>, k': nat, r': nat, br': BitSeq)
    requires sc.Valid() && sc.ss <= k < HeadEnd(sc, z) && k <= k' <= HeadEnd(sc, z)
    requires HeadFrom(sc, z, k, r, br) == toks + HeadFrom(sc, z, k', r', br')
    requires k' == HeadEnd(sc, z) ==> br' == []
    ensures EncodeFrom(sc, z, k, r, br, NONE) == Then(toks, EncodeFrom(sc, z, k', r', br', NONE))
  {
    hide HeadEnd, InitialHead, RefineHead, Tail, Full, EobTokens;
    NoneEob();
    var e := HeadEnd(sc, z);
    var h := HeadFrom(sc, z, k', r', br');
    assert [] + h == h && [] + (toks + h) == toks + h;
    assert forall last :: (toks + h) + last == toks + (h + last);
    if k' == e {
      HeadIsOver(sc, z, r', br');
      assert e <= sc.se ==> NONE.be + br' + Tail(sc, z, e) == Tail(sc, z, e);
      assert toks + h == toks && toks + [] == toks;
    }
  }

  lemma HeadIsOver(sc: Scan, z: Block, r: nat, br: BitSeq)
    requires sc.Valid()
    ensures HeadFrom(sc, z, HeadEnd(sc, z), r, br) == []
  {
    hide HeadEnd;
  }

  lemma FromZrl(sc: Scan, z: Block, k: nat, r: nat, br: BitSeq)
    requires sc.Valid() && sc.ss <= k < HeadEnd(sc, z) && Mag(z[k], sc.al) != 0 && r > 15
    ensures var toks := [Sym(ZRL)] + (if sc.mode == Refine then [Raw(br)] else []);
      EncodeFrom(sc, z, k, r, br, NONE) == Then(toks, EncodeFrom(sc, z, k, r - 16, [], NONE))
  {
    hide HeadEnd, EncodeFrom;
    assert [Sym(ZRL)] + [] == [Sym(ZRL)] && [Sym(ZRL)] + [Raw(br)] == [Sym(ZRL), Raw(br)];
    FromHead(sc, z, k, r, br, [Sym(ZRL)] + (if sc.mode == Refine then [Raw(br)] else []), k, r - 16, []);
  }

  lemma FromInitial(sc: Scan, z: Block, k: nat, r: nat)
    requires sc.Valid() && sc.mode == Initial && sc.ss <= k <= sc.se && Mag(z[k], sc.al) != 0 && r <= 15
    ensures var v := SignedMag(z[k], sc.al); var n := BitLen(Abs(v));
      EncodeFrom(sc, z, k, r, [], NONE)
          == Then([Sym(16 * r + n), Raw(MagBits(v, n))], EncodeFrom(sc, z, k + 1, 0, [], NONE))
  {
    hide HeadEnd, EncodeFrom, BitLen, SignedMag, MagBits, Mag;
    SendsInHead(sc, z, k);
    var v := SignedMag(z[k], sc.al);
    FromHead(sc, z, k, r, [], [Sym(16 * r + BitLen(Abs(v))), Raw(MagBits(v, BitLen(Abs(v))))], k + 1, 0, []);
  }

  lemma FromNew(sc: Scan, z: Block, k: nat, r: nat, br: BitSeq)
    requires sc.Valid() && sc.mode == Refine && sc.ss <= k <= sc.se && Mag(z[k], sc.al) == 1 && r <= 15
    ensures EncodeFrom(sc, z, k, r, br, NONE)
         == Then([Sym(16 * r + 1), Raw([z[k] >= 0]), Raw(br)], EncodeFrom(sc, z, k + 1, 0, [], NONE))
  {
    hide HeadEnd, EncodeFrom, Mag;
    SendsInHead(sc, z, k);
    FromHead(sc, z, k, r, br, [Sym(16 * r + 1), Raw([z[k] >= 0]), Raw(br)], k + 1, 0, []);
  }

  /** A coefficient that is still zero. */
  lemma FromZero(sc: Scan, z: Block, k: nat, r: nat, br: BitSeq, p: Pending)
    requires sc.Valid() && sc.ss <= k <= sc.se && Mag(z[k], sc.al) == 0
    ensures EncodeFrom(sc, z, k, r, br, p) == EncodeFrom(sc, z, k + 1, r + 1, br, p)
  {
    hide HeadEnd, Mag, EobTokens, Full;
    SendsInHead(sc, z, k);
  }

  /** A coefficient that was nonzero before. */
  lemma FromCorrection(sc: Scan, z: Block, k: nat, r: nat, br: BitSeq, p: Pending)
    requires sc.Valid() && sc.mode == Refine && sc.ss <= k <= sc.se && Mag(z[k], sc.al) > 1
    requires r <= 15 || HeadEnd(sc, z) <= k
    ensures EncodeFrom(sc, z, k, r, br, p) == EncodeFrom(sc, z, k + 1, r, br + [Mag(z[k], sc.al) % 2 == 1], p)
  {
    hide HeadEnd, Mag, EobTokens, Full;
    SendsInHead(sc, z, k);
    var bit := Mag(z[k], sc.al) % 2 == 1;
    if HeadEnd(sc, z) <= k {
      var rest := Tail(sc, z, k + 1);
      assert Tail(sc, z, k) == [bit] + rest;
      assert p.be + br + ([bit] + rest) == p.be + (br + [bit]) + rest;
    }
  }

  lemma FromEnd(sc: Scan, z: Block, r: nat, br: BitSeq, p: Pending)
    requires sc.Valid()
    ensures EncodeFrom(sc, z, sc.se + 1, r, br, p)
         == if HeadEnd(sc, z) <= sc.se then EndBlock(Pending(p.eobrun + 1, p.be + br)) else ([], p)
  {
    hide HeadEnd, EobTokens, Full;
    assert p.be + br + [] == p.be + br;
  }
}
