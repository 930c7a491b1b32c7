/** decode_mcu_AC_refine: one block at a time, changed in place, from a source that may run dry at
    any bit. */
module AcDecoder {
  import opened Bits
  import opened Reading
  import opened Coef
  import opened Huffman
  import opened HuffTables
  import opened BitOutput
  import opened BitInput
  import opened HuffDecoding
  import opened AcScan
  import opened AcResume
  import opened Zigzag

  // ---------------------------------------------------------------- one code

  lemma PadTwice(a: BitSeq, m: nat, n: nat)
    ensures (a + ToBits(0, m)) + ToBits(0, n) == a + ToBits(0, m + n)
  {
    hide ToBits;
    ToBitsConcat(0, 0, m, n);
  }

  /** A symbol decoded from `a`, then a further read of which only the bits come later. */
  lemma CodeRead(t: HuffTable, al: nat, a: BitSeq, z1: nat, sym: nat, a1: BitSeq, n: nat, z2: nat, x: nat, a2: BitSeq)
    requires t.Shaped() && t.ValidCounts() && t.DecodeSym(a + ToBits(0, z1)) == Got(sym, a1)
    requires n == (if sym % 16 != 0 then 1 else if sym / 16 == 15 then 0 else sym / 16)
    requires Take(n, a1 + ToBits(0, z2)) == Got(x, a2)
    ensures sym % 16 != 0 ==>
        NextCode(t, al, a + ToBits(0, z1 + z2)) == Got(Place(sym / 16, if x == 1 then Pow2(al) else -Pow2(al)), a2)
    ensures sym % 16 == 0 && sym / 16 != 15 ==>
        NextCode(t, al, a + ToBits(0, z1 + z2)) == Got(Eob(Pow2(sym / 16) + x), a2)
  {
    hide ToBits, Value, HuffTable.DecodeSym, HuffTable.Shaped, HuffTable.ValidCounts;
    PadTwice(a, z1, z2);
    DecodeExtends(t, a + ToBits(0, z1), ToBits(0, z2));
    var b := a1 + ToBits(0, z2);
    if sym % 16 != 0 {
      OneBit(b);
    }
  }

  lemma OneBit(b: BitSeq)
    requires b != []
    ensures Take(1, b) == Got(if b[0] then 1 else 0, b[1..])
  {
    assert b[..1] == [] + [b[0]];
    ValueSnoc([], b[0]);
    NoValue();
  }

  /** The bits ran out inside a code. */
  lemma CodeCut(t: HuffTable, al: nat, a: BitSeq, sym: nat, a1: BitSeq, n: nat)
    requires t.Shaped() && t.ValidCounts() && t.DecodeSym(a) == Got(sym, a1)
    requires n == (if sym % 16 != 0 then 1 else sym / 16) && |a1| < n && !(sym % 16 == 0 && sym / 16 == 15)
    ensures NextCode(t, al, a) == More
  {
    hide HuffTable.DecodeSym, HuffTable.Shaped, HuffTable.ValidCounts;
  }

  method ReadCode(br: BitReader, t: HuffTable, d: DDerived, al: nat) returns (ok: bool, code: Code, ghost zeros: nat)
    requires br.Valid() && DMatches(t, d)
    modifies br
    ensures br.Valid() && br.data == old(br.data)
    ensures br.Follows(old(br.pos), old(br.unreadMarker), old(br.insufficient))
    ensures ok ==> NextCode(t, al, old(br.Avail()) + ToBits(0, zeros)) == Got(code, br.Avail())
    ensures ok && zeros == 0 ==> br.insufficient == old(br.insufficient)
    ensures ok && zeros > 0 ==> br.insufficient && br.unreadMarker != 0 && NextCode(t, al, old(br.Avail())) == More
    ensures !ok ==> Dry(br.data, br.pos, br.unreadMarker)
  {
    hide ToBits, Value, DMatches, ToRead, HuffTable.Shaped, HuffTable.DecodeSym, HuffTable.ValidCounts, Take;
    TableSizes(t, d);
    ghost var a := br.Avail();
    NoZeroes(a);
    code := Place(0, 0);
    var sym: nat;
    ok, sym, zeros := HuffDecode(br, t, d);
    if !ok {
      return;
    }
    ghost var a1 := br.Avail();
    SymbolIsByte(t, a + ToBits(0, zeros));
    var r, s := sym / 16, sym % 16;
    if s == 0 && r == 15 {
      return true, Place(15, 0), zeros;
    }
    var n := if s != 0 then 1 else r;
    var x: nat;
    ghost var more;
    ok, x, more := br.Fetch(n);
    if !ok {
      return;
    }
    CodeRead(t, al, a, zeros, sym, a1, n, more, x, br.Avail());
    if zeros == 0 && more > 0 {
      CodeCut(t, al, a, sym, a1, n);
    }
    zeros := zeros + more;
    code := if s != 0 then Place(r, if x == 1 then Pow2(al) else -Pow2(al)) else Eob(Pow2(r) + x);
  }

  lemma SymbolIsByte(t: HuffTable, a: BitSeq)
    requires t.Shaped() && t.ValidCounts() && t.DecodeSym(a).Got?
    ensures t.DecodeSym(a).value < 256
  {
  }

  // ---------------------------------------------------------------- the block in place

  method Store(block: array<int>, k: nat, v: int)
    requires block.Length == 64 && k < 80
    modifies block
    ensures block[..] == old(block[..])[Natural(k) := v]
    ensures ZigzagOf(block[..]) == ZigzagOf(old(block[..]))[Slot(k) := v]
  {
    hide ZigzagOf, Natural;
    StoreNatural(block[..], k, v);
    block[Natural(k)] := v;
  }

  lemma StoredAt(b: seq<int>, k: nat)
    requires |b| == 64 && k < 64
    ensures b[Natural(k)] == ZigzagOf(b)[k]
  {
    hide Natural;
  }

  predicate InBlock(log: seq<nat>) { forall i | 0 <= i < |log| :: log[i] < 64 }

  /** Zeroes at the positions of the undo log, last entry first. */
  function Zeroed(b: seq<int>, log: seq<nat>): (w: seq<int>)
    requires |b| == 64 && InBlock(log)
    ensures |w| == 64
    decreases |log|
  {
    if log == [] then b else Zeroed(b[log[|log| - 1] := 0], log[..|log| - 1])
  }

  lemma {:induction false} ZeroedAt(b: seq<int>, log: seq<nat>, p: nat)
    requires |b| == 64 && p < 64 && InBlock(log)
    ensures p in log ==> Zeroed(b, log)[p] == 0
    ensures p !in log ==> Zeroed(b, log)[p] == b[p]
    decreases |log|
  {
    if log != [] {
      var last := log[|log| - 1];
      ZeroedAt(b[last := 0], log[..|log| - 1], p);
      if b[last := 0][p] == 0 && p == last {
        ZeroStays(b[last := 0], log[..|log| - 1], p);
      }
    }
  }

  lemma {:induction false} ZeroStays(b: seq<int>, log: seq<nat>, p: nat)
    requires |b| == 64 && p < 64 && InBlock(log) && b[p] == 0
    ensures Zeroed(b, log)[p] == 0
    decreases |log|
  {
    if log != [] {
      ZeroStays(b[log[|log| - 1] := 0], log[..|log| - 1], p);
    }
  }

  /** A new coefficient, once logged, is invisible to the undo. */
  lemma LogStore(b: seq<int>, log: seq<nat>, p: nat, v: int)
    requires |b| == 64 && p < 64 && InBlock(log) && b[p] == 0
    ensures Zeroed(b[p := v], log + [p]) == Zeroed(b, log)
  {
    assert (log + [p])[..|log|] == log;
    assert b[p := v][p := 0] == b;
  }

  /** A corrected coefficient is not in the log. */
  lemma LogCorrect(b: seq<int>, log: seq<nat>, p: nat, c: int)
    requires |b| == 64 && p < 64 && InBlock(log) && p !in log
    ensures Zeroed(b[p := c], log) == Zeroed(b, log)[p := c]
  {
    hide Zeroed;
    var w, w' := Zeroed(b[p := c], log), Zeroed(b, log)[p := c];
    forall q: nat | q < 64
      ensures w[q] == w'[q]
    {
      ZeroedAt(b[p := c], log, q);
      ZeroedAt(b, log, q);
    }
  }

  method Undo(block: array<int>, log: array<nat>, num: nat)
    requires block.Length == 64 && num <= log.Length && InBlock(log[..num])
    modifies block
    ensures block[..] == Zeroed(old(block[..]), log[..num])
  {
    ghost var newnz := log[..num];
    assert newnz[..num] == newnz;
    var n: nat := num;
    while n > 0
      invariant n <= num && Zeroed(block[..], newnz[..n]) == Zeroed(old(block[..]), newnz)
    {
      n := n - 1;
      assert newnz[..n + 1][..n] == newnz[..n] && newnz[..n + 1][n] == log[n];
      block[log[n]] := 0;
    }
  }

  // ---------------------------------------------------------------- an attempt

  /** What one call of the decoder starts from. */
  datatype Attempt = Attempt(t: HuffTable, sc: Scan, s0: Stage, d: Block, a: BitSeq, warned: bool)

  /** The attempt has come to `st`; `zeros` made-up bits were read after the real ones. */
  ghost predicate Going(br: BitReader, at: Attempt, w: seq<int>, st: Stage, b: seq<int>, zeros: nat)
    reads br
  {
    && br.Valid() && |b| == 64 && |w| == 64
    && Midway(at.t, at.sc, at.s0, at.a + ToBits(0, zeros), at.d, ZigzagOf(w), st, ZigzagOf(b), br.Avail())
    && Honest(br, at, zeros)
  }

  ghost predicate Honest(br: BitReader, at: Attempt, zeros: nat)
    reads br
  {
    && at.t.Shaped() && at.t.ValidCounts() && Legal(at.sc, at.s0)
    && (if zeros == 0 then br.insufficient == at.warned
        else br.insufficient && br.unreadMarker != 0 && Resume(at.t, at.sc, at.s0, at.d, at.a) == More)
  }

  /** The attempt has read all it needs. */
  ghost predicate Finished(br: BitReader, at: Attempt, b: seq<int>, eobrun: nat, zeros: nat)
    reads br
  {
    && br.Valid() && |b| == 64 && Honest(br, at, zeros)
    && Resume(at.t, at.sc, at.s0, at.d, at.a + ToBits(0, zeros)) == Got((ZigzagOf(b), eobrun), br.Avail())
  }

  ghost predicate Unzeroed(b: seq<int>, log: seq<nat>, w: seq<int>)
  {
    |b| == 64 && InBlock(log) && Zeroed(b, log) == w
  }

  /** Reading more than there was. */
  lemma GoingPadded(br: BitReader, at: Attempt, w: seq<int>, st: Stage, b: seq<int>, zeros: nat, more: nat,
        bits: BitSeq)
    requires br.Valid() && |b| == 64 && |w| == 64
    requires Midway(at.t, at.sc, at.s0, at.a + ToBits(0, zeros), at.d, ZigzagOf(w), st, ZigzagOf(b), bits)
    ensures Midway(at.t, at.sc, at.s0, at.a + ToBits(0, zeros + more), at.d, ZigzagOf(w), st, ZigzagOf(b),
        bits + ToBits(0, more))
    ensures zeros == 0 && at.t.Shaped() && at.t.ValidCounts() && Legal(at.sc, at.s0) && Legal(at.sc, st)
        ==> Resume(at.t, at.sc, at.s0, at.d, at.a) == Resume(at.t, at.sc, st, ZigzagOf(b), bits)
  {
    hide ToBits, Midway, ZigzagOf, Resume, Legal, HuffTable.Shaped, HuffTable.ValidCounts;
    PadTwice(at.a, zeros, more);
    NoZeroes(at.a);
    MidwayPadded(at.t, at.sc, at.s0, at.a + ToBits(0, zeros), at.d, ZigzagOf(w), st, ZigzagOf(b), bits,
        ToBits(0, more));
    MidwayResult(at.t, at.sc, at.s0, at.a + ToBits(0, zeros), at.d, ZigzagOf(w), st, ZigzagOf(b), bits);
  }

  lemma Corrected(at: Attempt, a: BitSeq, w: seq<int>, st: Stage, b: seq<int>, log: seq<nat>, bs: BitSeq,
        bit: nat, rest: BitSeq)
    requires |b| == 64 && |w| == 64 && Unzeroed(b, log, w) && Take(1, bs) == Got(bit, rest)
    requires Midway(at.t, at.sc, at.s0, a, at.d, ZigzagOf(w), st, ZigzagOf(b), bs)
    requires !st.AtCode? && st.k <= at.sc.se <= 63 && ZigzagOf(b)[st.k] != 0
    ensures b[Natural(st.k)] == ZigzagOf(b)[st.k]
    ensures var p, c := Natural(st.k), Correct(b[Natural(st.k)], bit == 1, at.sc.al);
      && Midway(at.t, at.sc, at.s0, a, at.d, ZigzagOf(w[p := c]), PastOne(st), ZigzagOf(b[p := c]), rest)
      && Unzeroed(b[p := c], log, w[p := c])
  {
    hide Reaches, HuffTable.Shaped, HuffTable.ValidCounts, Correct, ZigzagOf, Natural, Value;
    var k := st.k;
    var p := Natural(k);
    StoredAt(b, k);
    StoredAt(w, k);
    OneBit(bs);
    var c := Correct(b[p], bit == 1, at.sc.al);
    MidwayCorrect(at.t, at.sc, at.s0, a, at.d, ZigzagOf(w), st, ZigzagOf(b), bs);
    StoreNatural(b, k, c);
    StoreNatural(w, k, c);
    assert ZigzagOf(w)[k] == ZigzagOf(w)[k..][0] == ZigzagOf(b)[k..][0];
    ZeroedAt(b, log, p);
    LogCorrect(b, log, p, c);
  }

  /** Given up now, the attempt leaves a block that decodes to the same result. */
  ghost predicate CanRetry(at: Attempt, w: seq<int>)
  {
    && at.t.Shaped() && at.t.ValidCounts() && Legal(at.sc, at.s0) && |w| == 64
    && forall ext: BitSeq :: RetrySame(at, w, ext)
  }

  ghost predicate RetrySame(at: Attempt, w: seq<int>, ext: BitSeq)
    requires at.t.Shaped() && at.t.ValidCounts() && Legal(at.sc, at.s0) && |w| == 64
  {
    Resume(at.t, at.sc, at.s0, ZigzagOf(w), at.a + ext) == Resume(at.t, at.sc, at.s0, at.d, at.a + ext)
  }

  lemma GoingRetry(br: BitReader, at: Attempt, w: seq<int>, st: Stage, b: seq<int>, zeros: nat)
    requires Going(br, at, w, st, b, zeros)
    ensures zeros > 0 ==> br.unreadMarker != 0
    ensures zeros == 0 ==> CanRetry(at, w)
  {
    hide Midway, Resume, ToBits, ZigzagOf, HuffTable.Shaped, HuffTable.ValidCounts;
    if zeros == 0 {
      NoZeroes(at.a);
      MidwayLegal(at.t, at.sc, at.s0, at.a, at.d, ZigzagOf(w), st, ZigzagOf(b), br.Avail());
      forall ext: BitSeq
        ensures RetrySame(at, w, ext)
      {
        MidwayRetry(at.t, at.sc, at.s0, at.a, at.d, ZigzagOf(w), st, ZigzagOf(b), br.Avail(), ext);
      }
    }
  }

  lemma DryMarker(data: seq<Byte>, pos: nat, marker: Byte)
    requires Dry(data, pos, marker)
    ensures marker == 0
  {
  }

  lemma CorrectionCut(at: Attempt, st: Stage, b: seq<int>, bits: BitSeq)
    requires at.t.Shaped() && at.t.ValidCounts() && Legal(at.sc, st) && |b| == 64 && |bits| < 1
    requires !st.AtCode? && st.k <= at.sc.se <= 63 && ZigzagOf(b)[st.k] != 0
    ensures Resume(at.t, at.sc, st, ZigzagOf(b), bits) == More
  {
    CorrectUnfolds(at.t, at.sc, st, ZigzagOf(b), bits);
  }

  /** Append a correction bit to the nonzero coefficient `st.k`, unless an earlier attempt did. */
  method AppendCorrection(br: BitReader, block: array<int>, ghost log: seq<nat>,
                          ghost at: Attempt, ghost w: seq<int>, ghost st: Stage, ghost zeros: nat, k: nat, al: nat)
    returns (ok: bool, ghost w': seq<int>, ghost zeros': nat)
    requires block.Length == 64 && Going(br, at, w, st, block[..], zeros) && Unzeroed(block[..], log, w)
    requires !st.AtCode? && k == st.k <= at.sc.se <= 63 && al == at.sc.al && ZigzagOf(block[..])[k] != 0
    modifies br, block
    ensures br.Valid() && br.data == old(br.data)
    ensures br.Follows(old(br.pos), old(br.unreadMarker), old(br.insufficient))
    ensures Unzeroed(block[..], log, w')
    ensures ok ==> Going(br, at, w', PastOne(st), block[..], zeros')
    ensures !ok ==> Dry(br.data, br.pos, br.unreadMarker) && CanRetry(at, w')
  {
    hide ToBits, Midway, ZigzagOf, Natural, Resume, Legal, HuffTable.Shaped, HuffTable.ValidCounts, ToRead,
        Dry, Unzeroed, Correct, Take;
    ghost var before := br.Avail();
    MidwayLegal(at.t, at.sc, at.s0, at.a + ToBits(0, zeros), at.d, ZigzagOf(w), st, ZigzagOf(block[..]), before);
    GoingRetry(br, at, w, st, block[..], zeros);
    w' := w;
    var bit: nat;
    ghost var more;
    ok, bit, more := br.Fetch(1);
    zeros' := zeros + more;
    if !ok {
      assert br.unreadMarker == 0 by { DryMarker(br.data, br.pos, br.unreadMarker); }
      return;
    }
    GoingPadded(br, at, w, st, block[..], zeros, more, before);
    if zeros == 0 && more > 0 {
      CorrectionCut(at, st, block[..], before);
    }
    Corrected(at, at.a + ToBits(0, zeros'), w, st, block[..], log, before + ToBits(0, more), bit, br.Avail());
    w' := w[Natural(k) := Correct(block[Natural(k)], bit == 1, al)];
    Store(block, k, Correct(block[Natural(k)], bit == 1, al));
  }

  lemma MidwayLegal(t: HuffTable, sc: Scan, s0: Stage, a: BitSeq, d: Block, w: Block, st: Stage, cur: Block, bs: BitSeq)
    requires Midway(t, sc, s0, a, d, w, st, cur, bs)
    ensures t.Shaped() && t.ValidCounts() && Legal(sc, s0) && Legal(sc, st)
  {
  }

  /** A coefficient that stays zero. */
  lemma PassedZero(br: BitReader, at: Attempt, w: seq<int>, st: Stage, b: seq<int>, zeros: nat)
    requires Going(br, at, w, st, b, zeros) && !st.AtCode? && st.k <= at.sc.se <= 63 && ZigzagOf(b)[st.k] == 0
    requires ZeroBecomes(st) == 0
    ensures Going(br, at, w, AfterZero(st), b, zeros)
  {
    hide ToBits, Midway, ZigzagOf, Resume, HuffTable.Shaped, HuffTable.ValidCounts, AfterZero;
    MidwayZero(at.t, at.sc, at.s0, at.a + ToBits(0, zeros), at.d, ZigzagOf(w), st, ZigzagOf(b), br.Avail());
    assert ZigzagOf(b)[st.k := 0] == ZigzagOf(b);
  }

  /** A coefficient that becomes nonzero, and is logged. */
  lemma NewPlaced(br: BitReader, at: Attempt, w: seq<int>, k: nat, v: int, b: seq<int>, log: seq<nat>, zeros: nat)
    requires Going(br, at, w, Passing(k, 0, v), b, zeros) && k <= at.sc.se <= 63 && ZigzagOf(b)[k] == 0
    requires Unzeroed(b, log, w)
    ensures Going(br, at, w, AtCode(k + 1), b[Natural(k) := v], zeros)
    ensures Unzeroed(b[Natural(k) := v], log + [Natural(k)], w)
  {
    hide ToBits, Midway, ZigzagOf, Resume, HuffTable.Shaped, HuffTable.ValidCounts, Natural, Zeroed;
    MidwayZero(at.t, at.sc, at.s0, at.a + ToBits(0, zeros), at.d, ZigzagOf(w), Passing(k, 0, v), ZigzagOf(b),
        br.Avail());
    StoreNatural(b, k, v);
    StoredAt(b, k);
    LogStore(b, log, Natural(k), v);
  }

  /** The end of the band. */
  lemma BandEnds(br: BitReader, at: Attempt, w: seq<int>, st: Stage, b: seq<int>, zeros: nat)
    requires Going(br, at, w, st, b, zeros) && st.k == at.sc.se + 1
    ensures st.AtCode? ==> Finished(br, at, b, 0, zeros)
    ensures st.PastEob? ==> st.run >= 1 && Finished(br, at, b, st.run - 1, zeros)
    ensures st.Passing? && st.v == 0 ==> Finished(br, at, b, 0, zeros)
    ensures st.Passing? && st.v != 0 && st.k <= 64 ==> Finished(br, at, b[Natural(st.k) := st.v], 0, zeros)
  {
    hide ToBits, Midway, ZigzagOf, Resume, HuffTable.Shaped, HuffTable.ValidCounts, Natural;
    var a := at.a + ToBits(0, zeros);
    MidwayLegal(at.t, at.sc, at.s0, a, at.d, ZigzagOf(w), st, ZigzagOf(b), br.Avail());
    MidwayResult(at.t, at.sc, at.s0, a, at.d, ZigzagOf(w), st, ZigzagOf(b), br.Avail());
    AtBandEnd(at.t, at.sc, st, ZigzagOf(b), br.Avail());
    if st.Passing? && st.k <= 64 {
      StoreNatural(b, st.k, st.v);
    }
  }

  lemma GoingZigzag(br: BitReader, at: Attempt, w: seq<int>, st: Stage, b: seq<int>, zeros: nat, k: nat)
    requires Going(br, at, w, st, b, zeros) && k < 64
    ensures b[Natural(k)] == ZigzagOf(b)[k]
  {
    StoredAt(b, k);
  }

  /** Pass over `r0` zeroes, appending correction bits to the nonzero coefficients on the way, up
      to the next zero or the end of the band. */
  method PassOver(br: BitReader, block: array<int>, ghost log: seq<nat>, ghost at: Attempt, ghost w: seq<int>,
        ghost zeros: nat, ghost v: int, k0: nat, r0: nat, al: nat, se: nat)
    returns (ok: bool, k: nat, ghost w': seq<int>, ghost zeros': nat, ghost r': nat)
    requires block.Length == 64 && Going(br, at, w, Passing(k0, r0, v), block[..], zeros) && Unzeroed(block[..], log, w)
    requires k0 <= se == at.sc.se <= 63 && al == at.sc.al
    modifies br, block
    ensures br.Valid() && br.data == old(br.data)
    ensures br.Follows(old(br.pos), old(br.unreadMarker), old(br.insufficient))
    ensures k0 <= k <= se + 1 && Unzeroed(block[..], log, w')
    ensures ok ==> Going(br, at, w', Passing(k, r', v), block[..], zeros')
    ensures ok && k <= se ==> r' == 0 && ZigzagOf(block[..])[k] == 0
    ensures !ok ==> Dry(br.data, br.pos, br.unreadMarker) && CanRetry(at, w')
  {
    hide Going, Unzeroed, ZigzagOf, Natural, ToRead, Dry, CanRetry, BitReader.Valid;
    k, w', zeros' := k0, w, zeros;
    var r := r0;
    r' := r;
    GoingValid(br, at, w', Passing(k, r, v), block[..], zeros');
    while k <= se
      invariant br.Valid() && br.data == old(br.data)
      invariant br.Follows(old(br.pos), old(br.unreadMarker), old(br.insufficient))
      invariant k0 <= k <= se + 1 && Unzeroed(block[..], log, w') && r' == r
      invariant Going(br, at, w', Passing(k, r, v), block[..], zeros')
    {
      GoingZigzag(br, at, w', Passing(k, r, v), block[..], zeros', k);
      if block[Natural(k)] != 0 {
        ok, w', zeros' := AppendCorrection(br, block, log, at, w', Passing(k, r, v), zeros', k, al);
        if !ok {
          return;
        }
      } else {
        if r == 0 {
          break;
        }
        PassedZero(br, at, w', Passing(k, r, v), block[..], zeros');
        r := r - 1;
        r' := r;
      }
      k := k + 1;
    }
    ok := true;
  }

  lemma GoingValid(br: BitReader, at: Attempt, w: seq<int>, st: Stage, b: seq<int>, zeros: nat)
    requires Going(br, at, w, st, b, zeros)
    ensures br.Valid()
  {
  }

  lemma CodeTaken(br: BitReader, at: Attempt, w: seq<int>, k: nat, b: seq<int>, zeros: nat, more: nat,
        before: BitSeq, c: Code)
    requires br.Valid() && |b| == 64 && |w| == 64 && k <= at.sc.se
    requires Midway(at.t, at.sc, at.s0, at.a + ToBits(0, zeros), at.d, ZigzagOf(w), AtCode(k), ZigzagOf(b), before)
    requires NextCode(at.t, at.sc.al, before + ToBits(0, more)) == Got(c, br.Avail())
    ensures Midway(at.t, at.sc, at.s0, at.a + ToBits(0, zeros + more), at.d, ZigzagOf(w), AfterCode(k, c),
        ZigzagOf(b), br.Avail())
    ensures zeros == 0 && NextCode(at.t, at.sc.al, before) == More ==> Resume(at.t, at.sc, at.s0, at.d, at.a) == More
  {
    hide ToBits, Midway, ZigzagOf, Resume, Legal, NextCode, HuffTable.Shaped, HuffTable.ValidCounts;
    MidwayLegal(at.t, at.sc, at.s0, at.a + ToBits(0, zeros), at.d, ZigzagOf(w), AtCode(k), ZigzagOf(b), before);
    GoingPadded(br, at, w, AtCode(k), b, zeros, more, before);
    MidwayCode(at.t, at.sc, at.s0, at.a + ToBits(0, zeros + more), at.d, ZigzagOf(w), k, ZigzagOf(b),
        before + ToBits(0, more));
    CodeUnfolds(at.t, at.sc, ZigzagOf(b), k, before);
  }

  /** Read a code while under way. */
  method TakeCode(br: BitReader, t: HuffTable, d: DDerived, ghost b: seq<int>, ghost at: Attempt, ghost w: seq<int>,
        ghost zeros: nat, ghost k: nat, al: nat)
    returns (ok: bool, c: Code, ghost zeros': nat)
    requires Going(br, at, w, AtCode(k), b, zeros) && k <= at.sc.se <= 63 && al == at.sc.al && t == at.t
        && DMatches(t, d)
    modifies br
    ensures br.Valid() && br.data == old(br.data)
    ensures br.Follows(old(br.pos), old(br.unreadMarker), old(br.insufficient))
    ensures ok ==> Going(br, at, w, AfterCode(k, c), b, zeros')
    ensures ok && c.Eob? ==> c.run >= 1
    ensures !ok ==> Dry(br.data, br.pos, br.unreadMarker) && CanRetry(at, w)
  {
    hide ToBits, Midway, ZigzagOf, Resume, HuffTable.Shaped, HuffTable.ValidCounts, ToRead, Dry, DMatches,
        NextCode, CanRetry;
    ghost var before := br.Avail();
    GoingRetry(br, at, w, AtCode(k), b, zeros);
    ghost var more;
    ok, c, more := ReadCode(br, t, d, al);
    zeros' := zeros + more;
    if !ok {
      assert br.unreadMarker == 0 by { DryMarker(br.data, br.pos, br.unreadMarker); }
      return;
    }
    CodeTaken(br, at, w, k, b, zeros, more, before, c);
  }

  /** The coefficients after the end of the band, nearest the end: correction bits only. */
  method FinishBand(br: BitReader, block: array<int>, ghost log: seq<nat>, ghost at: Attempt, ghost w: seq<int>,
        ghost zeros: nat, k0: nat, ghost run: nat, al: nat, se: nat)
    returns (ok: bool, ghost w': seq<int>, ghost zeros': nat)
    requires block.Length == 64 && Going(br, at, w, PastEob(k0, run), block[..], zeros) && Unzeroed(block[..], log, w)
    requires k0 <= se + 1 && se == at.sc.se <= 63 && al == at.sc.al && run >= 1
    modifies br, block
    ensures br.Valid() && br.data == old(br.data)
    ensures br.Follows(old(br.pos), old(br.unreadMarker), old(br.insufficient))
    ensures ok ==> Finished(br, at, block[..], run - 1, zeros')
    ensures Unzeroed(block[..], log, w')
    ensures !ok ==> Dry(br.data, br.pos, br.unreadMarker) && CanRetry(at, w')
  {
    hide Going, Finished, Unzeroed, ZigzagOf, Natural, ToRead, Dry, CanRetry, BitReader.Valid;
    w', zeros' := w, zeros;
    var k := k0;
    GoingValid(br, at, w', PastEob(k, run), block[..], zeros');
    while k <= se
      invariant br.Valid() && br.data == old(br.data)
      invariant br.Follows(old(br.pos), old(br.unreadMarker), old(br.insufficient))
      invariant k0 <= k <= se + 1 && Unzeroed(block[..], log, w')
      invariant Going(br, at, w', PastEob(k, run), block[..], zeros')
    {
      GoingZigzag(br, at, w', PastEob(k, run), block[..], zeros', k);
      if block[Natural(k)] != 0 {
        ok, w', zeros' := AppendCorrection(br, block, log, at, w', PastEob(k, run), zeros', k, al);
        if !ok {
          return;
        }
      } else {
        PassedZero(br, at, w', PastEob(k, run), block[..], zeros');
      }
      k := k + 1;
    }
    BandEnds(br, at, w', PastEob(k, run), block[..], zeros');
    ok := true;
  }

  /** Between codes, or past the end of the band. */
  ghost predicate AtOrDone(br: BitReader, at: Attempt, w: seq<int>, k: nat, b: seq<int>, log: seq<nat>, zeros: nat)
    reads br
  {
    br.Valid() && if k <= at.sc.se + 1 then Going(br, at, w, AtCode(k), b, zeros) && Unzeroed(b, log, w)
        else Finished(br, at, b, 0, zeros)
  }

  /** Store a new coefficient where the zeroes before it end, and log its position. */
  method PlaceNew(br: BitReader, block: array<int>, log: array<nat>, num: nat, ghost at: Attempt, ghost w: seq<int>,
        ghost zeros: nat, v: int, k: nat, ghost r: nat)
    returns (num': nat)
    requires block.Length == 64 && log.Length == 64 && num < k <= at.sc.se + 1 <= 64
    requires Going(br, at, w, Passing(k, r, v), block[..], zeros) && Unzeroed(block[..], log[..num], w)
    requires k <= at.sc.se ==> r == 0 && ZigzagOf(block[..])[k] == 0
    modifies block, log
    ensures num' <= num + 1 && AtOrDone(br, at, w, k + 1, block[..], log[..num'], zeros)
  {
    hide Going, Finished, Unzeroed, ZigzagOf, Natural, ToRead, BitReader.Valid;
    GoingValid(br, at, w, Passing(k, r, v), block[..], zeros);
    if k <= at.sc.se {
      if v == 0 {
        PassedZero(br, at, w, Passing(k, r, v), block[..], zeros);
      } else {
        NewPlaced(br, at, w, k, v, block[..], log[..num], zeros);
      }
    } else {
      BandEnds(br, at, w, Passing(k, r, v), block[..], zeros);
    }
    num' := num;
    if v != 0 {
      var pos := Natural(k);
      block[pos] := v;
      ghost var before := log[..num];
      log[num] := pos;
      assert log[..num + 1] == before + [pos];
      num' := num + 1;
    }
  }

  /** The codes of one block, up to the end of the band or an end-of-band code. */
  method CodeLoop(br: BitReader, t: HuffTable, d: DDerived, block: array<int>, log: array<nat>, ghost at: Attempt,
        ss: nat, se: nat, al: nat)
    returns (ok: bool, num: nat, k: nat, run: nat, ghost w: seq<int>, ghost zeros: nat)
    requires block.Length == 64 && log.Length == 64 && 1 <= ss <= se == at.sc.se <= 63 && al == at.sc.al
    requires t == at.t && DMatches(t, d) && Going(br, at, block[..], AtCode(ss), block[..], 0)
    modifies br, block, log
    ensures br.Valid() && br.data == old(br.data) && num <= 64
    ensures br.Follows(old(br.pos), old(br.unreadMarker), old(br.insufficient))
    ensures ok && run == 0 ==> Finished(br, at, block[..], 0, zeros)
    ensures ok && run > 0 ==> k <= se && Going(br, at, w, PastEob(k, run), block[..], zeros)
    ensures !ok || run > 0 ==> Unzeroed(block[..], log[..num], w)
    ensures !ok ==> Dry(br.data, br.pos, br.unreadMarker) && CanRetry(at, w)
  {
    hide Going, Finished, Unzeroed, ZigzagOf, Natural, ToRead, BitReader.Valid, DMatches, Dry, CanRetry;
    num, k, run, w, zeros := 0, ss, 0, block[..], 0;
    NothingLogged(block[..]);
    GoingValid(br, at, w, AtCode(ss), block[..], 0);
    while k <= se
      invariant br.Valid() && br.data == old(br.data) && run == 0
      invariant br.Follows(old(br.pos), old(br.unreadMarker), old(br.insufficient))
      invariant ss <= k <= se + 2 && num < k && num <= 64 && AtOrDone(br, at, w, k, block[..], log[..num], zeros)
    {
      var c: Code;
      ok, c, zeros := TakeCode(br, t, d, block[..], at, w, zeros, k, al);
      if !ok {
        return;
      }
      match c {
        case Eob(n) =>
          return true, num, k, n, w, zeros;
        case Place(r, v) =>
          ghost var r';
          ok, k, w, zeros, r' := PassOver(br, block, log[..num], at, w, zeros, v, k, r, al, se);
          if !ok {
            return;
          }
          num := PlaceNew(br, block, log, num, at, w, zeros, v, k, r');
      }
      k := k + 1;
    }
    if k == se + 1 {
      BandEnds(br, at, w, AtCode(k), block[..], zeros);
    }
    ok := true;
  }

  lemma NothingLogged(b: seq<int>)
    requires |b| == 64
    ensures Unzeroed(b, [], b)
  {
  }

  /** One block, in place.  If the source runs dry, new coefficients are taken back. */
  method TryBlock(br: BitReader, t: HuffTable, d: DDerived, block: array<int>, ghost at: Attempt, eobrun: nat,
        ss: nat, se: nat, al: nat)
    returns (ok: bool, run: nat, ghost zeros: nat)
    requires block.Length == 64 && 1 <= ss <= se == at.sc.se <= 63 && al == at.sc.al && ss == at.sc.ss
    requires t == at.t && DMatches(t, d) && at.s0 == Start(at.sc, eobrun)
        && Going(br, at, block[..], at.s0, block[..], 0)
    modifies br, block
    ensures br.Valid() && br.data == old(br.data)
    ensures br.Follows(old(br.pos), old(br.unreadMarker), old(br.insufficient))
    ensures ok ==> Finished(br, at, block[..], run, zeros)
    ensures !ok ==> Dry(br.data, br.pos, br.unreadMarker) && CanRetry(at, block[..])
  {
    hide Going, Finished, Unzeroed, Zeroed, ZigzagOf, Natural, DMatches, Dry, CanRetry, BitReader.Valid;
    NothingLogged(block[..]);
    run := eobrun;
    var k: nat, num: nat := ss, 0;
    var log := new nat[64];
    ghost var w := block[..];
    ok, zeros := true, 0;
    if run == 0 {
      ok, num, k, run, w, zeros := CodeLoop(br, t, d, block, log, at, ss, se, al);
    }
    if ok && run > 0 {
      ok, w, zeros := FinishBand(br, block, log[..num], at, w, zeros, k, run, al, se);
      run := run - 1;
    }
    if !ok {
      UndoneIs(block[..], log[..num], w);
      Undo(block, log, num);
    }
  }

  lemma UndoneIs(b: seq<int>, log: seq<nat>, w: seq<int>)
    requires Unzeroed(b, log, w)
    ensures |b| == 64 && InBlock(log) && Zeroed(b, log) == w
  {
  }

  // ---------------------------------------------------------------- the decoder

  /** Stored blocks on which the scan goes on in the same way, whatever bits are still to come. */
  ghost predicate Interchangeable(t: HuffTable, sc: Scan, b: seq<int>, b': seq<int>, run: nat, bits: BitSeq)
  {
    |b| == 64 && |b'| == 64 && t.Shaped() && t.ValidCounts() && sc.Valid()
        && forall ext :: SameWith(t, sc, b, b', run, bits, ext)
  }

  ghost predicate SameWith(t: HuffTable, sc: Scan, b: seq<int>, b': seq<int>, run: nat, bits: BitSeq, ext: BitSeq)
    requires |b| == 64 && |b'| == 64 && t.Shaped() && t.ValidCounts() && sc.Valid()
  {
    DecodeBlock(t, sc, ZigzagOf(b'), run, bits + ext) == DecodeBlock(t, sc, ZigzagOf(b), run, bits + ext)
  }

  /** The decoder of one AC scan: its table, its bit source, and the end-of-band run. */
  class BandDecoder {
    const br: BitReader
    const t: HuffTable
    const d: DDerived
    const sc: Scan
    var eobrun: nat

    ghost predicate Valid()
      reads this, br
    {
      br.Valid() && DMatches(t, d) && sc.Valid()
    }

    /** start_pass_phuff_decoder, for an AC scan. */
    constructor (br: BitReader, t: HuffTable, d: DDerived, sc: Scan)
      requires br.Valid() && DMatches(t, d) && sc.Valid()
      ensures Valid() && this.br == br && this.t == t && this.d == d && this.sc == sc && eobrun == 0
    {
      this.br, this.t, this.d, this.sc, eobrun := br, t, d, sc, 0;
    }

    /** decode_mcu_AC_refine. */
    method DecodeMcuRefine(block: array<int>) returns (ok: bool, ghost zeros: nat)
      requires Valid() && sc.mode == Refine && block.Length == 64
      modifies this, br, block
      ensures Valid() && br.data == old(br.data)
      ensures br.Follows(old(br.pos), old(br.unreadMarker), old(br.insufficient))
      ensures old(br.insufficient) ==> ok && block[..] == old(block[..]) && eobrun == old(eobrun)
      ensures ok && !old(br.insufficient) ==>
        DecodeBlock(t, sc, ZigzagOf(old(block[..])), old(eobrun), old(br.Avail()) + ToBits(0, zeros))
        == Got((ZigzagOf(block[..]), eobrun), br.Avail())
      ensures ok && zeros == 0 ==> br.insufficient == old(br.insufficient)
      ensures ok && zeros > 0 ==>
          br.insufficient && DecodeBlock(t, sc, ZigzagOf(old(block[..])), old(eobrun), old(br.Avail())) == More
      ensures !ok ==>
          br.Stuck(old(br.data), old(br.pos), old(br.getBuffer), old(br.bitsLeft), old(br.unreadMarker),
              old(br.insufficient))
      ensures !ok ==> br.Avail() == old(br.Avail()) && eobrun == old(eobrun)
      ensures !ok ==> Interchangeable(t, sc, old(block[..]), block[..], eobrun, br.Avail())
    {
      hide Going, Finished, Unzeroed, Zeroed, ZigzagOf, Natural, DMatches, Dry, CanRetry, DecodeBlock, ToBits,
          NewAttempt;
      TableSizes(t, d);
      zeros := 0;
      if br.insufficient {
        return true, 0;
      }
      var pos, getBuffer, bitsLeft := br.pos, br.getBuffer, br.bitsLeft;
      ghost var bits, b0 := br.Avail(), block[..];
      ghost var at := NewAttempt(t, sc, b0, eobrun, bits);
      AttemptStarts(br, t, d, sc, b0, eobrun);
      AttemptParts(t, sc, b0, eobrun, bits);
      var run: nat;
      ok, run, zeros := TryBlock(br, t, d, block, at, eobrun, sc.ss, sc.se, sc.al);
      if !ok {
        br.WasDry(pos, old(br.unreadMarker), old(br.insufficient));
        assert br.unreadMarker == 0 by { DryMarker(br.data, br.pos, br.unreadMarker); }
        br.pos, br.getBuffer, br.bitsLeft := pos, getBuffer, bitsLeft;
        AttemptRetried(t, sc, b0, eobrun, bits, block[..]);
        return;
      }
      AttemptEnds(br, t, sc, b0, eobrun, bits, block[..], run, zeros);
      eobrun := run;
    }
  }

  ghost function NewAttempt(t: HuffTable, sc: Scan, b: seq<int>, run: nat, bits: BitSeq): Attempt
    requires |b| == 64
  {
    Attempt(t, sc, Start(sc, run), ZigzagOf(b), bits, false)
  }

  lemma AttemptParts(t: HuffTable, sc: Scan, b: seq<int>, run: nat, bits: BitSeq)
    requires |b| == 64
    ensures var at := NewAttempt(t, sc, b, run, bits); at.t == t && at.sc == sc && at.s0 == Start(sc, run)
  {
  }

  lemma AttemptStarts(br: BitReader, t: HuffTable, d: DDerived, sc: Scan, b: seq<int>, run: nat)
    requires br.Valid() && DMatches(t, d) && sc.Valid() && |b| == 64 && !br.insufficient
    ensures Going(br, NewAttempt(t, sc, b, run, br.Avail()), b, Start(sc, run), b, 0)
  {
    hide Midway, Resume, ToBits, ZigzagOf, HuffTable.Shaped, HuffTable.ValidCounts;
    NoZeroes(br.Avail());
    TableSizes(t, d);
    MidwayStart(t, sc, Start(sc, run), br.Avail(), ZigzagOf(b));
  }

  lemma AttemptEnds(br: BitReader, t: HuffTable, sc: Scan, b0: seq<int>, run: nat, bits: BitSeq, b: seq<int>,
        run': nat, zeros: nat)
    requires sc.Valid() && sc.mode == Refine && |b0| == 64
        && Finished(br, NewAttempt(t, sc, b0, run, bits), b, run', zeros)
    ensures t.Shaped() && t.ValidCounts() && br.Valid() && |b| == 64
    ensures DecodeBlock(t, sc, ZigzagOf(b0), run, bits + ToBits(0, zeros)) == Got((ZigzagOf(b), run'), br.Avail())
    ensures zeros == 0 ==> !br.insufficient
    ensures zeros > 0 ==> br.insufficient && DecodeBlock(t, sc, ZigzagOf(b0), run, bits) == More
  {
    hide Resume, ToBits, ZigzagOf, DecodeBlock, HuffTable.Shaped, HuffTable.ValidCounts;
    StartIsDecode(t, sc, ZigzagOf(b0), run, bits + ToBits(0, zeros));
    StartIsDecode(t, sc, ZigzagOf(b0), run, bits);
  }

  lemma AttemptRetried(t: HuffTable, sc: Scan, b: seq<int>, run: nat, bits: BitSeq, w: seq<int>)
    requires sc.Valid() && sc.mode == Refine && |b| == 64 && CanRetry(NewAttempt(t, sc, b, run, bits), w)
    ensures Interchangeable(t, sc, b, w, run, bits)
  {
    hide Resume, ZigzagOf, DecodeBlock, HuffTable.Shaped, HuffTable.ValidCounts;
    forall ext: BitSeq
      ensures SameWith(t, sc, b, w, run, bits, ext)
    {
      StartIsDecode(t, sc, ZigzagOf(b), run, bits + ext);
      StartIsDecode(t, sc, ZigzagOf(w), run, bits + ext);
      assert RetrySame(NewAttempt(t, sc, b, run, bits), w, ext);
    }
  }
}
