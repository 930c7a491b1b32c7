/** AC refinement decoding seen as a machine that can stop before any bit it needs.  The point is
    what an interrupted attempt may leave behind: applied correction bits, but no new
    coefficients. */
module AcResume {
  import opened Bits
  import opened Reading
  import opened Coef
  import opened Huffman
  import opened HuffDecoding
  import opened AcScan

  // ---------------------------------------------------------------- one code with its bits

  /** What a refinement code announces: `r` zeroes to pass over and the value for the one after
      them (0 for a run of 16 zeroes), or the end of the band for `run` blocks. */
  datatype Code = Place(r: nat, v: int) | Eob(run: nat)

  function NextCode(t: HuffTable, al: nat, bs: BitSeq): (c: Read<Code>)
    requires t.Shaped() && t.ValidCounts()
    ensures c.Got? && c.value.Eob? ==> c.value.run >= 1
    ensures c.Got? && c.value.Place? ==> c.value.r < 16
  {
    var (sym, b1) :- t.DecodeSym(bs);
    var r, s := sym / 16, sym % 16;
    if s != 0 then
      var (bit, b2) :- TakeBit(b1);
      Got(Place(r, if bit then Pow2(al) else -Pow2(al)), b2)
    else if r == 15 then Got(Place(15, 0), b1)
    else
      var (x, b2) :- Take(r, b1);
      Got(Eob(Pow2(r) + x), b2)
  }

  lemma TakeExtends(n: nat, bs: BitSeq, ext: BitSeq)
    requires n <= |bs|
    ensures Take(n, bs + ext) == Got(Take(n, bs).value, Take(n, bs).rest + ext)
  {
    assert (bs + ext)[..n] == bs[..n];
    assert (bs + ext)[n..] == bs[n..] + ext;
  }

  lemma TakeBitExtends(bs: BitSeq, ext: BitSeq)
    requires bs != []
    ensures TakeBit(bs + ext) == Got(bs[0], bs[1..] + ext)
  {
    assert (bs + ext)[1..] == bs[1..] + ext;
  }

  lemma NextCodeExtends(t: HuffTable, al: nat, bs: BitSeq, ext: BitSeq)
    requires t.Shaped() && t.ValidCounts() && NextCode(t, al, bs).Got?
    ensures NextCode(t, al, bs + ext) == Got(NextCode(t, al, bs).value, NextCode(t, al, bs).rest + ext)
  {
    hide HuffTable.DecodeSym, HuffTable.Shaped, HuffTable.ValidCounts, Take;
    DecodeExtends(t, bs, ext);
    var d := t.DecodeSym(bs);
    var r, s := d.value / 16, d.value % 16;
    if s != 0 {
      TakeBitExtends(d.rest, ext);
    } else if r != 15 {
      TakeExtends(r, d.rest, ext);
    }
  }

  // ---------------------------------------------------------------- stages

  /** Where the decoder stands: before a code, passing over coefficients toward the place for `v`,
      or past the end of the band of a block whose run is `run`. */
  datatype Stage = AtCode(k: nat) | Passing(k: nat, r: nat, v: int) | PastEob(k: nat, run: nat)

  function Start(sc: Scan, eobrun: nat): Stage
  {
    if eobrun == 0 then AtCode(sc.ss) else PastEob(sc.ss, eobrun)
  }

  predicate Legal(sc: Scan, st: Stage)
  {
    sc.Valid() && st.k <= sc.se + 1 && (st.PastEob? ==> st.run >= 1)
  }

  function Resume(t: HuffTable, sc: Scan, st: Stage, d: Block, bs: BitSeq): Read<(Block, nat)>
    requires t.Shaped() && t.ValidCounts() && Legal(sc, st)
  {
    match st
    case AtCode(k) => RefineLoop(t, sc, d, k, bs)
    case Passing(k, r, v) =>
      var (dk, b1) :- Advance(sc, d, k, r, bs);
      RefineLoop(t, sc, Put(dk.0, dk.1, v), dk.1 + 1, b1)
    case PastEob(k, run) =>
      var (d', b1) :- CorrectTail(sc, d, k, bs);
      Got((d', run - 1), b1)
  }

  function Put(d: Block, k: nat, v: int): Block { if v == 0 then d else d[Slot(k) := v] }

  lemma StartIsDecode(t: HuffTable, sc: Scan, d: Block, eobrun: nat, bs: BitSeq)
    requires t.Shaped() && t.ValidCounts() && sc.Valid() && sc.mode == Refine
    ensures Resume(t, sc, Start(sc, eobrun), d, bs) == DecodeBlock(t, sc, d, eobrun, bs)
  {
  }

  /** A code at stage AtCode leads to the next stage. */
  function AfterCode(k: nat, c: Code): Stage
  {
    match c
    case Place(r, v) => Passing(k, r, v)
    case Eob(run) => PastEob(k, run)
  }

  lemma CodeUnfolds(t: HuffTable, sc: Scan, d: Block, k: nat, bs: BitSeq)
    requires t.Shaped() && t.ValidCounts() && sc.Valid() && k <= sc.se
    ensures NextCode(t, sc.al, bs) == More ==> Resume(t, sc, AtCode(k), d, bs) == More
    ensures var c := NextCode(t, sc.al, bs);
    c.Got? ==> Resume(t, sc, AtCode(k), d, bs) == Resume(t, sc, AfterCode(k, c.value), d, c.rest)
  {
    hide HuffTable.DecodeSym, HuffTable.Shaped, HuffTable.ValidCounts, Take, TakeBit, Advance, CorrectTail;
  }

  // ---------------------------------------------------------------- reaching a stage

  /** Started on `v`, with `ext` after the bits `a`, the decoder is at `st` with `bs` before `ext`;
      the coefficients it has passed are those of `cur`, the others still those of `v`. */
  ghost predicate ReachesOn(t: HuffTable, sc: Scan, s0: Stage, a: BitSeq, st: Stage, cur: Block, bs: BitSeq,
        v: Block, ext: BitSeq)
    requires t.Shaped() && t.ValidCounts() && Legal(sc, s0) && Legal(sc, st)
  {
    Resume(t, sc, s0, v, a + ext) == Resume(t, sc, st, cur[..st.k] + v[st.k..], bs + ext)
  }

  /** ... whenever the coefficients it has passed were `u` to begin with. */
  ghost predicate Reaches(t: HuffTable, sc: Scan, s0: Stage, a: BitSeq, u: seq<int>, st: Stage, cur: Block, bs: BitSeq)
    requires t.Shaped() && t.ValidCounts() && Legal(sc, s0) && Legal(sc, st)
  {
    forall v: Block, ext: BitSeq :: v[..st.k] == u ==> ReachesOn(t, sc, s0, a, st, cur, bs, v, ext)
  }

  lemma ReachCode(t: HuffTable, sc: Scan, s0: Stage, a: BitSeq, u: seq<int>, k: nat, cur: Block, bs: BitSeq)
    requires t.Shaped() && t.ValidCounts() && Legal(sc, s0) && k <= sc.se && sc.Valid() && NextCode(t, sc.al, bs).Got?
    requires Reaches(t, sc, s0, a, u, AtCode(k), cur, bs)
    ensures var c := NextCode(t, sc.al, bs); Reaches(t, sc, s0, a, u, AfterCode(k, c.value), cur, c.rest)
  {
    hide Resume, NextCode, HuffTable.Shaped, HuffTable.ValidCounts;
    var c := NextCode(t, sc.al, bs);
    forall v: Block, ext: BitSeq | v[..k] == u
      ensures ReachesOn(t, sc, s0, a, AfterCode(k, c.value), cur, c.rest, v, ext)
    {
      assert ReachesOn(t, sc, s0, a, AtCode(k), cur, bs, v, ext);
      NextCodeExtends(t, sc.al, bs, ext);
      CodeUnfolds(t, sc, cur[..k] + v[k..], k, bs + ext);
    }
  }

  function PastOne(st: Stage): Stage { st.(k := st.k + 1) }

  lemma CorrectUnfolds(t: HuffTable, sc: Scan, st: Stage, d: Block, bs: BitSeq)
    requires t.Shaped() && t.ValidCounts() && Legal(sc, st) && !st.AtCode? && st.k <= sc.se && d[st.k] != 0
    ensures bs == [] ==> Resume(t, sc, st, d, bs) == More
    ensures bs != [] ==>
        Resume(t, sc, st, d, bs) == Resume(t, sc, PastOne(st), d[st.k := Correct(d[st.k], bs[0], sc.al)], bs[1..])
  {
    hide HuffTable.DecodeSym, HuffTable.Shaped, HuffTable.ValidCounts, RefineLoop, Correct;
  }

  /** A correction bit: the coefficient may have had it already. */
  lemma ReachCorrect(t: HuffTable, sc: Scan, s0: Stage, a: BitSeq, u: seq<int>, st: Stage, cur: Block,
        bs: BitSeq, y: int)
    requires t.Shaped() && t.ValidCounts() && Legal(sc, s0) && Legal(sc, st) && !st.AtCode? && st.k <= sc.se && bs != []
    requires Reaches(t, sc, s0, a, u, st, cur, bs) && |u| == st.k
    requires y != 0 && Correct(y, bs[0], sc.al) == Correct(cur[st.k], bs[0], sc.al)
    ensures Reaches(t, sc, s0, a, u + [y], PastOne(st), cur[st.k := Correct(cur[st.k], bs[0], sc.al)], bs[1..])
  {
    hide Resume, HuffTable.Shaped, HuffTable.ValidCounts, Correct;
    var k := st.k;
    var c := Correct(cur[k], bs[0], sc.al);
    var cur', bs' := cur[k := c], bs[1..];
    forall v: Block, ext: BitSeq | v[..k + 1] == u + [y]
      ensures ReachesOn(t, sc, s0, a, PastOne(st), cur', bs', v, ext)
    {
      assert v[k] == (u + [y])[k];
      assert v[..k] == (u + [y])[..k];
      assert ReachesOn(t, sc, s0, a, st, cur, bs, v, ext);
      var x: Block := cur[..k] + v[k..];
      CorrectUnfolds(t, sc, st, x, bs + ext);
      assert x[k := c] == cur[k := c][..k + 1] + v[k + 1..];
      assert (bs + ext)[1..] == bs[1..] + ext;
    }
  }

  /** A zero coefficient is passed over, ends the run, or is past the end of the band. */
  function AfterZero(st: Stage): Stage
    requires !st.AtCode?
  {
    match st
    case Passing(k, r, v) => if r == 0 then AtCode(k + 1) else Passing(k + 1, r - 1, v)
    case PastEob(k, run) => PastEob(k + 1, run)
  }

  function ZeroBecomes(st: Stage): int { if st.Passing? && st.r == 0 then st.v else 0 }

  lemma ZeroUnfolds(t: HuffTable, sc: Scan, st: Stage, d: Block, bs: BitSeq)
    requires t.Shaped() && t.ValidCounts() && Legal(sc, st) && !st.AtCode? && st.k <= sc.se && d[st.k] == 0
    ensures Resume(t, sc, st, d, bs) == Resume(t, sc, AfterZero(st), d[st.k := ZeroBecomes(st)], bs)
  {
    hide HuffTable.DecodeSym, HuffTable.Shaped, HuffTable.ValidCounts, RefineLoop;
    assert d[st.k := 0] == d;
  }

  lemma ReachZero(t: HuffTable, sc: Scan, s0: Stage, a: BitSeq, u: seq<int>, st: Stage, cur: Block, bs: BitSeq)
    requires t.Shaped() && t.ValidCounts() && Legal(sc, s0) && Legal(sc, st) && !st.AtCode? && st.k <= sc.se
    requires Reaches(t, sc, s0, a, u, st, cur, bs) && |u| == st.k
    ensures Reaches(t, sc, s0, a, u + [0], AfterZero(st), cur[st.k := ZeroBecomes(st)], bs)
  {
    hide Resume, HuffTable.Shaped, HuffTable.ValidCounts, ZeroBecomes;
    var k := st.k;
    var c := ZeroBecomes(st);
    var cur' := cur[k := c];
    forall v: Block, ext: BitSeq | v[..k + 1] == u + [0]
      ensures ReachesOn(t, sc, s0, a, AfterZero(st), cur', bs, v, ext)
    {
      assert v[k] == (u + [0])[k];
      assert v[..k] == (u + [0])[..k];
      assert ReachesOn(t, sc, s0, a, st, cur, bs, v, ext);
      var x: Block := cur[..k] + v[k..];
      ZeroUnfolds(t, sc, st, x, bs + ext);
      assert x[k := c] == cur[k := c][..k + 1] + v[k + 1..];
    }
  }

  lemma ReachPadded(t: HuffTable, sc: Scan, s0: Stage, a: BitSeq, u: seq<int>, st: Stage, cur: Block, bs: BitSeq,
        z: BitSeq)
    requires t.Shaped() && t.ValidCounts() && Legal(sc, s0) && Legal(sc, st)
    requires Reaches(t, sc, s0, a, u, st, cur, bs)
    ensures Reaches(t, sc, s0, a + z, u, st, cur, bs + z)
  {
    hide Resume, HuffTable.Shaped, HuffTable.ValidCounts;
    forall v: Block, ext: BitSeq | v[..st.k] == u
      ensures ReachesOn(t, sc, s0, a + z, st, cur, bs + z, v, ext)
    {
      assert ReachesOn(t, sc, s0, a, st, cur, bs, v, z + ext);
      assert (a + z) + ext == a + (z + ext);
      assert (bs + z) + ext == bs + (z + ext);
    }
  }

  // ---------------------------------------------------------------- an attempt under way

  /** Decoding block `d` from bits `a` has come to stage `st`, block `cur` and bits `bs`; given up
      now, it would leave block `w`, on which a new attempt comes to the same point. */
  ghost predicate Midway(t: HuffTable, sc: Scan, s0: Stage, a: BitSeq, d: Block, w: Block, st: Stage, cur: Block,
        bs: BitSeq)
  {
    && t.Shaped() && t.ValidCounts() && Legal(sc, s0) && Legal(sc, st)
    && d[st.k..] == cur[st.k..] && w[st.k..] == cur[st.k..]
    && Reaches(t, sc, s0, a, d[..st.k], st, cur, bs)
    && Reaches(t, sc, s0, a, w[..st.k], st, cur, bs)
  }

  lemma MidwayStart(t: HuffTable, sc: Scan, s0: Stage, a: BitSeq, d: Block)
    requires t.Shaped() && t.ValidCounts() && Legal(sc, s0)
    ensures Midway(t, sc, s0, a, d, d, s0, d, a)
  {
    hide Resume, HuffTable.Shaped, HuffTable.ValidCounts;
    forall v: Block, ext: BitSeq | v[..s0.k] == d[..s0.k]
      ensures ReachesOn(t, sc, s0, a, s0, d, a, v, ext)
    {
      assert d[..s0.k] + v[s0.k..] == v;
    }
  }

  lemma MidwayPadded(t: HuffTable, sc: Scan, s0: Stage, a: BitSeq, d: Block, w: Block, st: Stage, cur: Block,
        bs: BitSeq, z: BitSeq)
    requires Midway(t, sc, s0, a, d, w, st, cur, bs)
    ensures Midway(t, sc, s0, a + z, d, w, st, cur, bs + z)
  {
    hide Reaches, HuffTable.Shaped, HuffTable.ValidCounts;
    ReachPadded(t, sc, s0, a, d[..st.k], st, cur, bs, z);
    ReachPadded(t, sc, s0, a, w[..st.k], st, cur, bs, z);
  }

  /** Decoding is where it would be, had it started here ... */
  lemma MidwayResult(t: HuffTable, sc: Scan, s0: Stage, a: BitSeq, d: Block, w: Block, st: Stage, cur: Block,
        bs: BitSeq)
    requires Midway(t, sc, s0, a, d, w, st, cur, bs)
    ensures Resume(t, sc, s0, d, a) == Resume(t, sc, st, cur, bs)
  {
    hide Resume, HuffTable.Shaped, HuffTable.ValidCounts;
    assert ReachesOn(t, sc, s0, a, st, cur, bs, d, []);
    assert a + [] == a && bs + [] == bs && cur[..st.k] + d[st.k..] == cur;
  }

  /** ... and giving up leaves a block that decodes to the same, whatever bits are still to come. */
  lemma MidwayRetry(t: HuffTable, sc: Scan, s0: Stage, a: BitSeq, d: Block, w: Block, st: Stage, cur: Block,
        bs: BitSeq, ext: BitSeq)
    requires Midway(t, sc, s0, a, d, w, st, cur, bs)
    ensures Resume(t, sc, s0, w, a + ext) == Resume(t, sc, s0, d, a + ext)
  {
    hide Resume, HuffTable.Shaped, HuffTable.ValidCounts;
    assert ReachesOn(t, sc, s0, a, st, cur, bs, d, ext);
    assert ReachesOn(t, sc, s0, a, st, cur, bs, w, ext);
  }

  lemma MidwayCode(t: HuffTable, sc: Scan, s0: Stage, a: BitSeq, d: Block, w: Block, k: nat, cur: Block, bs: BitSeq)
    requires Midway(t, sc, s0, a, d, w, AtCode(k), cur, bs) && k <= sc.se && NextCode(t, sc.al, bs).Got?
    ensures var c := NextCode(t, sc.al, bs); Midway(t, sc, s0, a, d, w, AfterCode(k, c.value), cur, c.rest)
  {
    hide Reaches, NextCode, HuffTable.Shaped, HuffTable.ValidCounts;
    ReachCode(t, sc, s0, a, d[..k], k, cur, bs);
    ReachCode(t, sc, s0, a, w[..k], k, cur, bs);
  }

  lemma MidwayCorrect(t: HuffTable, sc: Scan, s0: Stage, a: BitSeq, d: Block, w: Block, st: Stage, cur: Block,
        bs: BitSeq)
    requires Midway(t, sc, s0, a, d, w, st, cur, bs) && !st.AtCode? && st.k <= sc.se && cur[st.k] != 0 && bs != []
    ensures var c := Correct(cur[st.k], bs[0], sc.al);
    Midway(t, sc, s0, a, d, w[st.k := c], PastOne(st), cur[st.k := c], bs[1..])
  {
    hide Reaches, Correct, HuffTable.Shaped, HuffTable.ValidCounts;
    var k := st.k;
    var c := Correct(cur[k], bs[0], sc.al);
    assert d[k] == d[k..][0] == cur[k..][0] == cur[k];
    CorrectTwice(cur[k], bs[0], sc.al);
    CorrectKeepsNonzero(cur[k], bs[0], sc.al);
    ReachCorrect(t, sc, s0, a, d[..k], st, cur, bs, d[k]);
    ReachCorrect(t, sc, s0, a, w[..k], st, cur, bs, c);
    assert d[..k + 1] == d[..k] + [d[k]];
    assert w[k := c][..k + 1] == w[..k] + [c];
    TailSame(d, cur, k, c);
    TailSame(w, cur, k, c);
  }

  lemma TailSame(d: Block, cur: Block, k: nat, c: int)
    requires k < 64 && d[k..] == cur[k..]
    ensures d[k + 1..] == cur[k := c][k + 1..] == d[k := c][k + 1..]
  {
    assert d[k + 1..] == d[k..][1..];
    assert cur[k + 1..] == cur[k..][1..];
  }

  lemma MidwayZero(t: HuffTable, sc: Scan, s0: Stage, a: BitSeq, d: Block, w: Block, st: Stage, cur: Block, bs: BitSeq)
    requires Midway(t, sc, s0, a, d, w, st, cur, bs) && !st.AtCode? && st.k <= sc.se && cur[st.k] == 0
    ensures Midway(t, sc, s0, a, d, w, AfterZero(st), cur[st.k := ZeroBecomes(st)], bs)
  {
    hide Reaches, ZeroBecomes, HuffTable.Shaped, HuffTable.ValidCounts;
    var k := st.k;
    assert d[k] == d[k..][0] == cur[k..][0] == 0;
    assert w[k] == w[k..][0] == cur[k..][0] == 0;
    ReachZero(t, sc, s0, a, d[..k], st, cur, bs);
    ReachZero(t, sc, s0, a, w[..k], st, cur, bs);
    assert d[..k + 1] == d[..k] + [0];
    assert w[..k + 1] == w[..k] + [0];
    TailSame(d, cur, k, ZeroBecomes(st));
    TailSame(w, cur, k, ZeroBecomes(st));
  }

  /** At the end of the band nothing more is read. */
  lemma AtBandEnd(t: HuffTable, sc: Scan, st: Stage, cur: Block, bs: BitSeq)
    requires t.Shaped() && t.ValidCounts() && Legal(sc, st) && st.k == sc.se + 1
    ensures Resume(t, sc, st, cur, bs)
         == Got((if st.Passing? then Put(cur, st.k, st.v) else cur, if st.PastEob? then st.run - 1 else 0), bs)
  {
  }
}
