/** Derived Huffman tables: the encoder's code and size per symbol, and the decoder's per-length
    bounds and 8-bit lookahead. */
module HuffTables {
  import opened Bits
  import opened Reading
  import opened Huffman

  /** The encoder's derived table: code and length by symbol, length 0 for symbols without a code. */
  datatype CDerived = CDerived(ehufco: seq<nat>, ehufsi: seq<nat>)

  datatype Result<T> = Ok(value: T) | BadTable

  ghost predicate CMatches(t: HuffTable, c: CDerived)
  {
    && t.Shaped() && t.ValidCounts() && |c.ehufco| == 256 && |c.ehufsi| == 256
    && forall sym: nat | sym < 256 :: EntryMatches(t, c, sym)
  }

  ghost predicate EntryMatches(t: HuffTable, c: CDerived, sym: nat)
    requires t.Shaped() && t.ValidCounts() && |c.ehufco| == |c.ehufsi| == 256 && sym < 256
  {
    if t.HasCode(sym) then c.ehufsi[sym] == t.Size(t.Index(sym)) && c.ehufco[sym] == t.Code(t.Index(sym))
    else c.ehufsi[sym] == 0
  }

  // ---------------------------------------------------------------- Figures C.1 and C.2

  /** Code lengths in code order, with a zero after the last. */
  method MakeSizes(t: HuffTable) returns (ok: bool, huffsize: array<nat>, lastp: nat)
    requires t.Shaped()
    ensures ok <==> t.Count(16) <= 256
    ensures fresh(huffsize) && huffsize.Length == 257
    ensures ok ==> lastp == t.Count(16) && huffsize[lastp] == 0 && forall p | 0 <= p < lastp :: huffsize[p] == t.Size(p)
  {
    hide HuffTable.First, HuffTable.SizeFrom;
    huffsize := new nat[257](_ => 0);
    var p := 0;
    lastp := 0;
    for l := 1 to 17
      invariant p == t.Count(l - 1) <= 256
      invariant forall q | 0 <= q < p && q < t.Count(16) :: huffsize[q] == t.Size(q)
    {
      var i := t.bits[l];
      if p + i > 256 {
        t.CountMono(l, 16);
        return false, huffsize, 0;
      }
      t.CountMono(l, 16);
      while i > 0
        invariant 0 <= i <= t.bits[l] && p == t.Count(l) - i <= 256
        invariant forall q | 0 <= q < p && q < t.Count(16) :: huffsize[q] == t.Size(q)
      {
        t.SizeUnique(p, l);
        huffsize[p] := l;
        p := p + 1;
        i := i - 1;
      }
    }
    huffsize[p] := 0;
    return true, huffsize, p;
  }

  /** Where the code generator stands before length `si`. */
  ghost predicate AtLength(t: HuffTable, si: nat, p: nat, code: nat)
    requires t.Shaped()
  {
    && 1 <= si <= 17 && p == t.Count(si - 1)
    && (si <= 16 ==> code == t.First(si))
    && forall l | 1 <= l < si :: t.First(l) + t.bits[l] < Pow2(l)
  }

  lemma {:induction false} NoneBefore(t: HuffTable, l: nat)
    requires t.Shaped() && 1 <= l <= 16 && t.Count(l - 1) == 0
    ensures t.First(l) == 0
    decreases l
  {
    if l > 1 {
      NoneBefore(t, l - 1);
    }
  }

  lemma StartsAtFirstSize(t: HuffTable)
    requires t.Shaped() && 0 < t.Count(16)
    ensures AtLength(t, t.Size(0), 0, 0)
  {
    var si := t.Size(0);
    NoneBefore(t, si);
    forall l | 1 <= l < si
      ensures t.First(l) + t.bits[l] < Pow2(l)
    {
      t.CountMono(l, si - 1);
      NoneBefore(t, l);
    }
  }

  lemma ValidWhenDone(t: HuffTable, si: nat, p: nat, code: nat)
    requires t.Shaped() && t.Count(16) <= 256 && 1 < si && AtLength(t, si, p, code) && p == t.Count(16)
    ensures t.ValidCounts()
  {
    hide HuffTable.First, HuffTable.Count;
    forall l | 1 <= l <= 16
      ensures t.First(l) + t.bits[l] < Pow2(l)
    {
      if l >= si {
        SameCount(t, si - 1, l);
        t.ValidTail(si - 1, l);
      }
    }
  }

  lemma SameCount(t: HuffTable, a: nat, b: nat)
    requires t.Shaped() && a <= b <= 16 && t.Count(a) == t.Count(16)
    ensures t.Count(a) == t.Count(b)
  {
    t.CountMono(a, b);
    t.CountMono(b, 16);
  }

  lemma NextLength(t: HuffTable, si: nat, p: nat, code: nat)
    requires t.Shaped() && si <= 16 && AtLength(t, si, p, code)
    requires t.First(si) + t.bits[si] < Pow2(si)
    ensures AtLength(t, si + 1, p + t.bits[si], 2 * (code + t.bits[si]))
  {
  }

  lemma EmptyValid(t: HuffTable)
    requires t.Shaped() && t.Count(16) == 0
    ensures t.ValidCounts()
  {
    forall l | 1 <= l <= 16
      ensures t.First(l) + t.bits[l] < Pow2(l)
    {
      t.CountMono(l, 16);
      t.CountMono(l - 1, l);
      NoneBefore(t, l);
    }
  }

  /** The codes themselves; fails unless the counts describe a proper code tree. */
  method MakeCodes(t: HuffTable, huffsize: array<nat>, lastp: nat) returns (ok: bool, huffcode: array<nat>)
    requires t.Shaped() && lastp == t.Count(16) <= 256 && huffsize.Length == 257
    requires huffsize[lastp] == 0 && forall p | 0 <= p < lastp :: huffsize[p] == t.Size(p)
    ensures ok <==> t.ValidCounts()
    ensures fresh(huffcode) && huffcode.Length == 257
    ensures ok ==> forall p | 0 <= p < lastp :: huffcode[p] == t.Code(p)
  {
    hide HuffTable.First, HuffTable.Count, HuffTable.SizeFrom, HuffTable.Size, Pow2;
    huffcode := new nat[257](_ => 0);
    var code: nat, si: nat, p: nat := 0, huffsize[0], 0;
    if lastp > 0 {
      StartsAtFirstSize(t);
    } else {
      EmptyValid(t);
    }
    while huffsize[p] != 0
      invariant 0 <= p <= lastp && si <= 17
      invariant lastp > 0 ==> AtLength(t, si, p, code) && (p == lastp ==> si > 1)
      invariant forall q | 0 <= q < p :: huffcode[q] == t.Code(q)
      decreases 17 - si
    {
      AtMost16(t, si, p, code);
      ghost var p0, code0 := p, code;
      t.CountMono(si, 16);
      CountStep(t, si);
      while huffsize[p] == si
        invariant p0 <= p <= t.Count(si) && code == code0 + (p - p0)
        invariant forall q | 0 <= q < p :: huffcode[q] == t.Code(q)
        decreases t.Count(si) - p
      {
        SizeInBand(t, p, si);
        huffcode[p] := code;
        p := p + 1;
        code := code + 1;
      }
      SizeEndsBand(t, si, p);
      if code >= Pow2(si) {
        return false, huffcode;
      }
      NextLength(t, si, p0, code0);
      code := 2 * code;
      si := si + 1;
    }
    if lastp > 0 {
      ValidWhenDone(t, si, p, code);
    }
    return true, huffcode;
  }

  lemma CountStep(t: HuffTable, l: nat)
    requires t.Shaped() && 1 <= l <= 16
    ensures t.Count(l) == t.Count(l - 1) + t.bits[l]
  {
  }

  lemma AtMost16(t: HuffTable, si: nat, p: nat, code: nat)
    requires t.Shaped() && AtLength(t, si, p, code) && p < t.Count(16)
    ensures si <= 16
  {
  }

  lemma SizeInBand(t: HuffTable, p: nat, si: nat)
    requires t.Shaped() && 1 <= si <= 16 && p < t.Count(16) && t.Size(p) == si
    ensures t.Count(si - 1) <= p < t.Count(si) && t.Code(p) == t.First(si) + (p - t.Count(si - 1))
  {
  }

  lemma SizeEndsBand(t: HuffTable, si: nat, p: nat)
    requires t.Shaped() && 1 <= si <= 16 && t.Count(si - 1) <= p <= t.Count(si)
    requires p == t.Count(16) || (p < t.Count(16) && t.Size(p) != si)
    ensures p == t.Count(si)
  {
    t.CountMono(si, 16);
    if p < t.Count(si) {
      t.SizeUnique(p, si);
    }
  }

  // ---------------------------------------------------------------- Figure C.3

  ghost predicate Filled(t: HuffTable, co: seq<nat>, si: seq<nat>, n: nat)
    requires t.Shaped() && t.ValidCounts() && n <= t.Count(16) && |co| == |si| == 256
  {
    && (forall p | 0 <= p < n :: si[t.huffval[p]] == t.Size(p) && co[t.huffval[p]] == t.Code(p))
    && (forall p, q | 0 <= p < q < n :: t.huffval[p] != t.huffval[q])
    && (forall s | 0 <= s < 256 && s !in t.huffval[..n] :: si[s] == 0)
  }

  lemma FilledMatches(t: HuffTable, co: seq<nat>, si: seq<nat>)
    requires t.Shaped() && t.ValidCounts() && |co| == |si| == 256 && Filled(t, co, si, t.Count(16))
    ensures t.DistinctSymbols() && CMatches(t, CDerived(co, si))
  {
    hide HuffTable.Size, HuffTable.Code, HuffTable.Count;
    forall sym: nat | sym < 256
      ensures EntryMatches(t, CDerived(co, si), sym)
    {
      if t.HasCode(sym) {
        assert t.huffval[t.Index(sym)] == sym;
      } else {
        assert sym !in t.huffval[..t.Count(16)];
      }
    }
  }

  /** Accepts a table iff its counts form a code tree, its symbols are in range and distinct; then
      every symbol is given the code word and length of its place in the table. */
  method MakeCDerivedTbl(t: HuffTable, isDC: bool) returns (r: Result<CDerived>)
    requires t.Shaped()
    ensures r.Ok? <==> t.ValidCounts() && t.DistinctSymbols() && t.SymbolsAtMost(if isDC then 15 else 255)
    ensures r.Ok? ==> CMatches(t, r.value)
  {
    hide HuffTable.First, HuffTable.SizeFrom, HuffTable.Count, CMatches, HuffTable.Size, HuffTable.Code;
    var ok, huffsize, lastp := MakeSizes(t);
    if !ok {
      return BadTable;
    }
    var ok', huffcode := MakeCodes(t, huffsize, lastp);
    if !ok' {
      return BadTable;
    }
    var ehufco, ehufsi := new nat[256](_ => 0), new nat[256](_ => 0);
    var maxsymbol := if isDC then 15 else 255;
    for p := 0 to lastp
      invariant Filled(t, ehufco[..], ehufsi[..], p)
      invariant forall q | 0 <= q < p :: t.huffval[q] <= maxsymbol
      invariant forall q | 0 <= q < lastp :: huffsize[q] == t.Size(q) && huffcode[q] == t.Code(q)
    {
      var i := t.huffval[p];
      if i > maxsymbol {
        return BadTable;
      }
      if ehufsi[i] != 0 {
        assert i in t.huffval[..p];
        return BadTable;
      }
      FillOne(t, ehufco[..], ehufsi[..], p);
      ehufco[i] := huffcode[p];
      ehufsi[i] := huffsize[p];
    }
    FilledMatches(t, ehufco[..], ehufsi[..]);
    return Ok(CDerived(ehufco[..], ehufsi[..]));
  }

  lemma FillOne(t: HuffTable, co: seq<nat>, si: seq<nat>, p: nat)
    requires t.Shaped() && t.ValidCounts() && p < t.Count(16) && |co| == |si| == 256
    requires Filled(t, co, si, p) && si[t.huffval[p]] == 0
    ensures Filled(t, co[t.huffval[p] := t.Code(p)], si[t.huffval[p] := t.Size(p)], p + 1)
  {
    hide HuffTable.Code, HuffTable.SizeFrom, HuffTable.Count, HuffTable.First;
    assert t.huffval[..p + 1] == t.huffval[..p] + [t.huffval[p]];
  }

  // ---------------------------------------------------------------- Figure F.15 and lookahead

  const HUFF_LOOKAHEAD: nat := 8

  /** The decoder's derived table: largest code of each length (-1 if none), offset from code to
      symbol index, and the length and symbol for every next 8 bits (length 0: more than 8). */
  datatype DDerived = DDerived(maxcode: seq<int>, valoffset: seq<int>, lookNbits: seq<nat>, lookSym: seq<nat>)

  predicate BoundMatches(t: HuffTable, l: nat, maxcode: int, valoffset: int)
    requires t.Shaped() && 1 <= l <= 16
  {
    if t.bits[l] > 0 then maxcode == t.First(l) + t.bits[l] - 1 && valoffset == t.Count(l - 1) - t.First(l)
    else maxcode == -1
  }

  /** A lookahead entry says where the bit-by-bit search in those 8 bits stops. */
  predicate LookMatches(t: HuffTable, w: nat, nbits: nat, sym: nat)
    requires t.Shaped() && t.ValidCounts()
  {
    var b := ToBits(w, HUFF_LOOKAHEAD);
    var l := t.Stop(b, 1);
    if l <= HUFF_LOOKAHEAD then
      t.MissAtLeastFirst(b, l);
      nbits == l && sym == t.SymbolAt(l, Value(b[..l]))
    else nbits == 0
  }

  ghost predicate DMatches(t: HuffTable, d: DDerived)
  {
    && t.Shaped() && t.ValidCounts()
    && |d.maxcode| == 18 && |d.valoffset| == 17 && |d.lookNbits| == 256 && |d.lookSym| == 256
    && (forall l: nat | 1 <= l <= 16 :: BoundMatches(t, l, d.maxcode[l], d.valoffset[l]))
    && d.maxcode[17] == 0xFFFFF
    && (forall w: nat | w < 256 :: LookMatches(t, w, d.lookNbits[w], d.lookSym[w]))
  }

  method MakeBounds(t: HuffTable, huffcode: array<nat>) returns (maxcode: array<int>, valoffset: array<int>)
    requires t.Shaped() && t.ValidCounts() && huffcode.Length == 257
    requires forall p | 0 <= p < t.Count(16) :: huffcode[p] == t.Code(p)
    ensures fresh(maxcode) && fresh(valoffset) && maxcode.Length == 18 && valoffset.Length == 17
    ensures forall l: nat | 1 <= l <= 16 :: BoundMatches(t, l, maxcode[l], valoffset[l])
    ensures maxcode[17] == 0xFFFFF
  {
    hide HuffTable.First, HuffTable.Count, HuffTable.SizeFrom, HuffTable.Code, BoundMatches;
    maxcode, valoffset := new int[18](_ => 0), new int[17](_ => 0);
    CountZero(t);
    var p: nat := 0;
    for l := 1 to 17
      invariant p == t.Count(l - 1)
      invariant forall k: nat | 1 <= k < l :: BoundMatches(t, k, maxcode[k], valoffset[k])
    {
      CountStep(t, l);
      t.CountMono(l, 16);
      if t.bits[l] > 0 {
        BandCode(t, l, p);
        BandCode(t, l, p + t.bits[l] - 1);
        valoffset[l] := p - huffcode[p];
        p := p + t.bits[l];
        maxcode[l] := huffcode[p - 1];
      } else {
        maxcode[l] := -1;
      }
      BoundOfBand(t, l, maxcode[l], valoffset[l]);
    }
    maxcode[17] := 0xFFFFF;
  }

  lemma CountZero(t: HuffTable)
    requires t.Shaped()
    ensures t.Count(0) == 0
  {
  }

  lemma BandCode(t: HuffTable, l: nat, p: nat)
    requires t.Shaped() && 1 <= l <= 16 && t.Count(l - 1) <= p < t.Count(l)
    ensures p < t.Count(16) && t.Size(p) == l && t.Code(p) == t.First(l) + (p - t.Count(l - 1))
  {
    t.SizeUnique(p, l);
  }

  lemma BoundOfBand(t: HuffTable, l: nat, maxcode: int, valoffset: int)
    requires t.Shaped() && 1 <= l <= 16
    requires t.bits[l] > 0 ==> maxcode == t.First(l) + t.bits[l] - 1 && valoffset == t.Count(l - 1) - t.First(l)
    requires t.bits[l] == 0 ==> maxcode == -1
    ensures BoundMatches(t, l, maxcode, valoffset)
  {
  }

  /** All lookahead entries below `cur` are filled in, the others still zero. */
  ghost predicate Looked(t: HuffTable, nbits: seq<nat>, syms: seq<nat>, cur: nat)
    requires t.Shaped() && t.ValidCounts()
  {
    && |nbits| == |syms| == 256 && cur <= 256
    && (forall w: nat | w < cur :: LookMatches(t, w, nbits[w], syms[w]))
    && (forall w: nat | cur <= w < 256 :: nbits[w] == 0)
  }

  lemma LookEntry(t: HuffTable, p: nat, l: nat, ctr: nat)
    requires t.Shaped() && t.ValidCounts() && p < t.Count(16) && t.Size(p) == l <= 8 && ctr < Pow2(8 - l)
    ensures 0 <= t.Code(p) * Pow2(8 - l) && t.Code(p) * Pow2(8 - l) + ctr < 256
    ensures LookMatches(t, t.Code(p) * Pow2(8 - l) + ctr, l, t.huffval[p])
  {
    hide Value, ToBits, HuffTable.First, HuffTable.Count, HuffTable.ValidCounts, HuffTable.SizeFrom, Pow2;
    var w := t.Code(p) * Pow2(8 - l) + ctr;
    LookBound(t, p, l, ctr);
    ToBitsConcat(t.Code(p), ctr, l, 8 - l);
    var b := ToBits(w, 8);
    assert b == t.CodeBits(p) + ToBits(ctr, 8 - l);
    t.StopAtCode(p, ToBits(ctr, 8 - l));
    assert b[..l] == t.CodeBits(p);
    t.CodeValue(p);
  }

  lemma LookBound(t: HuffTable, p: nat, l: nat, ctr: nat)
    requires t.Shaped() && t.ValidCounts() && p < t.Count(16) && t.Size(p) == l <= 8 && ctr < Pow2(8 - l)
    ensures 0 <= t.Code(p) * Pow2(8 - l) && t.Code(p) * Pow2(8 - l) + ctr < 256
  {
    hide HuffTable.First, HuffTable.Count, HuffTable.ValidCounts, HuffTable.SizeFrom, HuffTable.Code, Pow2;
    t.CodeFits(p);
    Pow2Add(l, 8 - l);
    Pow2Values();
    BlockBound(t.Code(p), Pow2(l), Pow2(8 - l), ctr);
  }

  /** Past the codes of up to 8 bits, the search goes on beyond 8 bits. */
  lemma LookLong(t: HuffTable, w: nat)
    requires t.Shaped() && t.ValidCounts() && t.First(8) + t.bits[8] <= w < 256
    ensures LookMatches(t, w, 0, 0)
  {
    hide Value, ToBits, HuffTable.First, HuffTable.Count, HuffTable.ValidCounts, Pow2, HuffTable.SymbolAt;
    var b := ToBits(w, 8);
    forall l | 1 <= l <= 8
      ensures t.Miss(b, l)
    {
      LongMiss(t, w, l);
    }
    t.StopUnique(b, 9);
  }

  lemma LongMiss(t: HuffTable, w: nat, l: nat)
    requires t.Shaped() && t.First(8) + t.bits[8] <= w < 256 && 1 <= l <= 8
    ensures t.Miss(ToBits(w, 8), l)
  {
    hide Value, ToBits, Pow2, HuffTable.First;
    var b := ToBits(w, 8);
    Pow2Values();
    ValueToBits(w, 8);
    if l == 8 {
      assert b[..8] == b;
    } else {
      var hi, lo := b[..l], b[l..];
      assert hi + lo == b;
      ValueConcat(hi, lo);
      ValueBound(lo);
      t.FirstGrows(l, 8);
      QuotientAtLeast(t.First(l) + t.bits[l], Value(hi), Pow2(8 - l), Value(lo));
    }
  }

  /** Left-justified in 8 bits, each code of up to 8 bits begins where the one before it ends. */
  function LeftAt(t: HuffTable, l: nat, i: nat): int
    requires t.Shaped() && 1 <= l <= 8
  {
    Shl(t.First(l) + i, 8 - l)
  }

  lemma LeftNext(t: HuffTable, l: nat)
    requires t.Shaped() && 1 <= l < 8
    ensures LeftAt(t, l + 1, 0) == LeftAt(t, l, t.bits[l])
  {
    MulDouble(t.First(l) + t.bits[l], Pow2(8 - l - 1));
    MulAssoc2(t.First(l) + t.bits[l], Pow2(8 - l - 1));
  }

  lemma MulAssoc2(x: int, y: int)
    ensures (2 * x) * y == 2 * (x * y)
  {
  }

  lemma LeftStep(t: HuffTable, l: nat, i: nat)
    requires t.Shaped() && 1 <= l <= 8
    ensures LeftAt(t, l, i + 1) == LeftAt(t, l, i) + Pow2(8 - l)
  {
    hide Pow2;
    assert (t.First(l) + i + 1) * Pow2(8 - l) == (t.First(l) + i) * Pow2(8 - l) + Pow2(8 - l);
  }

  lemma LeftEnds(t: HuffTable)
    requires t.Shaped()
    ensures LeftAt(t, 1, 0) == 0 && LeftAt(t, 8, t.bits[8]) == t.First(8) + t.bits[8]
  {
  }

  function Shl(v: int, k: nat): int { v * Pow2(k) }

  lemma LookRun(t: HuffTable, p: nat, l: nat, start: nat, n: nat)
    requires t.Shaped() && t.ValidCounts() && p < t.Count(16) && t.Size(p) == l <= 8
    requires start == Shl(t.Code(p), 8 - l) && n == Pow2(8 - l)
    ensures start + n <= 256 && p < 256
    ensures forall w: nat | start <= w < start + n :: LookMatches(t, w, l, t.huffval[p])
  {
    hide HuffTable.First, HuffTable.Count, HuffTable.SizeFrom, HuffTable.Code, Pow2, LookMatches;
    LookEntry(t, p, l, n - 1);
    forall w: nat | start <= w < start + n
      ensures LookMatches(t, w, l, t.huffval[p])
    {
      LookEntry(t, p, l, w - start);
    }
  }

  /** Fill in the entries for one code: all `n` 8-bit strings that start with it. */
  method LookupCode(t: HuffTable, p: nat, l: nat, start: nat, n: nat, lookNbits: array<nat>, lookSym: array<nat>)
    requires t.Shaped() && t.ValidCounts() && p < t.Count(16) && t.Size(p) == l <= 8
    requires start == Shl(t.Code(p), 8 - l) && n == Pow2(8 - l)
    requires lookNbits.Length == lookSym.Length == 256 && lookNbits != lookSym
    requires Looked(t, lookNbits[..], lookSym[..], start)
    modifies lookNbits, lookSym
    ensures start + n <= 256 && Looked(t, lookNbits[..], lookSym[..], start + n)
  {
    LookRun(t, p, l, start, n);
    hide HuffTable.First, HuffTable.Count, HuffTable.ValidCounts, HuffTable.SizeFrom, HuffTable.Size, HuffTable.Code,
        Pow2, LookMatches, Looked;
    var lookbits := start;
    var ctr := n;
    while ctr > 0
      invariant 0 <= ctr <= n && lookbits == start + (n - ctr)
      invariant Looked(t, lookNbits[..], lookSym[..], lookbits)
    {
      LookedStep(t, lookNbits[..], lookSym[..], lookbits, l, t.huffval[p]);
      lookNbits[lookbits] := l;
      lookSym[lookbits] := t.huffval[p];
      lookbits := lookbits + 1;
      ctr := ctr - 1;
    }
  }

  lemma LookedStep(t: HuffTable, nbits: seq<nat>, syms: seq<nat>, cur: nat, l: nat, sym: nat)
    requires t.Shaped() && t.ValidCounts() && Looked(t, nbits, syms, cur) && cur < 256
    requires LookMatches(t, cur, l, sym)
    ensures Looked(t, nbits[cur := l], syms[cur := sym], cur + 1)
  {
    hide LookMatches, HuffTable.Shaped, HuffTable.ValidCounts;
  }

  /** All codes of one length, from the `p`-th on. */
  method LookupLength(t: HuffTable, l: nat, huffcode: seq<nat>, lookNbits: array<nat>, lookSym: array<nat>)
    requires t.Shaped() && t.ValidCounts() && 1 <= l <= 8 && |huffcode| == 257
    requires forall p | 0 <= p < t.Count(16) :: huffcode[p] == t.Code(p)
    requires lookNbits.Length == lookSym.Length == 256 && lookNbits != lookSym
    requires LeftAt(t, l, 0) >= 0 && Looked(t, lookNbits[..], lookSym[..], LeftAt(t, l, 0))
    modifies lookNbits, lookSym
    ensures LeftAt(t, l, t.bits[l]) >= 0 && Looked(t, lookNbits[..], lookSym[..], LeftAt(t, l, t.bits[l]))
  {
    assert t.Count(16) <= 256;
    hide HuffTable.First, HuffTable.Count, HuffTable.ValidCounts, HuffTable.SizeFrom, HuffTable.Size, HuffTable.Code,
        Pow2, LookMatches, Looked, LeftAt, Shl;
    CountStep(t, l);
    t.CountMono(l, 16);
    var p := t.Count(l - 1);
    for i := 0 to t.bits[l]
      invariant LeftAt(t, l, i) >= 0 && Looked(t, lookNbits[..], lookSym[..], LeftAt(t, l, i))
      invariant p == t.Count(l - 1) + i
    {
      LookupNth(t, l, i, p, huffcode[p], lookNbits, lookSym);
      p := p + 1;
    }
  }

  method LookupNth(t: HuffTable, l: nat, i: nat, p: nat, code: nat, lookNbits: array<nat>, lookSym: array<nat>)
    requires t.Shaped() && t.ValidCounts() && 1 <= l <= 8 && i < t.bits[l] && p == t.Count(l - 1) + i < t.Count(16)
    requires code == t.Code(p)
    requires lookNbits.Length == lookSym.Length == 256 && lookNbits != lookSym
    requires LeftAt(t, l, i) >= 0 && Looked(t, lookNbits[..], lookSym[..], LeftAt(t, l, i))
    modifies lookNbits, lookSym
    ensures LeftAt(t, l, i + 1) >= 0 && Looked(t, lookNbits[..], lookSym[..], LeftAt(t, l, i + 1))
  {
    hide HuffTable.First, HuffTable.Count, HuffTable.ValidCounts, HuffTable.SizeFrom, HuffTable.Size, HuffTable.Code,
        Pow2, LookMatches, Looked, LeftAt, Shl;
    CountStep(t, l);
    BandCode(t, l, p);
    LeftOfCode(t, l, p);
    LookupCode(t, p, l, Shl(code, 8 - l), Pow2(8 - l), lookNbits, lookSym);
    LeftStep(t, l, i);
  }

  method MakeLookahead(t: HuffTable, huffcode: seq<nat>) returns (lookNbits: array<nat>, lookSym: array<nat>)
    requires t.Shaped() && t.ValidCounts() && |huffcode| == 257
    requires forall p | 0 <= p < t.Count(16) :: huffcode[p] == t.Code(p)
    ensures fresh(lookNbits) && fresh(lookSym) && lookNbits.Length == lookSym.Length == 256
    ensures forall w: nat | w < 256 :: LookMatches(t, w, lookNbits[w], lookSym[w])
  {
    hide HuffTable.First, HuffTable.Count, HuffTable.ValidCounts, HuffTable.SizeFrom, HuffTable.Code, Pow2,
        LookMatches, LeftAt;
    lookNbits, lookSym := new nat[256](_ => 0), new nat[256](_ => 0);
    LeftEnds(t);
    for l := 1 to HUFF_LOOKAHEAD + 1
      invariant l <= 8 ==> LeftAt(t, l, 0) >= 0 && Looked(t, lookNbits[..], lookSym[..], LeftAt(t, l, 0))
      invariant l == 9 ==>
          LeftAt(t, 8, t.bits[8]) >= 0 && Looked(t, lookNbits[..], lookSym[..], LeftAt(t, 8, t.bits[8]))
    {
      LookupLength(t, l, huffcode, lookNbits, lookSym);
      if l < 8 {
        LeftNext(t, l);
      }
    }
    LookedAll(t, lookNbits[..], lookSym[..]);
    assert forall w: nat | w < 256 :: lookNbits[..][w] == lookNbits[w] && lookSym[..][w] == lookSym[w];
  }

  lemma LookedAll(t: HuffTable, nbits: seq<nat>, syms: seq<nat>)
    requires t.Shaped() && t.ValidCounts() && LeftAt(t, 8, t.bits[8]) >= 0
        && Looked(t, nbits, syms, LeftAt(t, 8, t.bits[8]))
    ensures forall w: nat | w < 256 :: LookMatches(t, w, nbits[w], syms[w])
  {
    hide HuffTable.First, HuffTable.ValidCounts, LookMatches, LeftAt;
    LeftEnds(t);
    forall w: nat | w < 256
      ensures LookMatches(t, w, nbits[w], syms[w])
    {
      if w >= LeftAt(t, 8, t.bits[8]) {
        LookLong(t, w);
        LookIgnoresSym(t, w, syms[w]);
      }
    }
  }

  lemma LeftOfCode(t: HuffTable, l: nat, p: nat)
    requires t.Shaped() && 1 <= l <= 8 && t.Count(l - 1) <= p < t.Count(16)
    requires t.Code(p) == t.First(l) + (p - t.Count(l - 1))
    ensures Shl(t.Code(p), 8 - l) == LeftAt(t, l, p - t.Count(l - 1))
  {
    hide HuffTable.First, HuffTable.Count, HuffTable.Code, Pow2;
  }

  lemma LookIgnoresSym(t: HuffTable, w: nat, sym: nat)
    requires t.Shaped() && t.ValidCounts() && LookMatches(t, w, 0, 0)
    ensures LookMatches(t, w, 0, sym)
  {
  }

  /** The decoder accepts any code tree, whatever the symbols of an AC table; DC symbols must be
      at most 15. */
  method MakeDDerivedTbl(t: HuffTable, isDC: bool) returns (r: Result<DDerived>)
    requires t.Shaped()
    ensures r.Ok? <==> t.ValidCounts() && (isDC ==> t.SymbolsAtMost(15))
    ensures r.Ok? ==> DMatches(t, r.value)
  {
    hide HuffTable.First, HuffTable.SizeFrom, HuffTable.Count, HuffTable.Size, HuffTable.Code, BoundMatches,
        LookMatches;
    var ok, huffsize, lastp := MakeSizes(t);
    if !ok {
      return BadTable;
    }
    var ok', huffcode := MakeCodes(t, huffsize, lastp);
    if !ok' {
      return BadTable;
    }
    var maxcode, valoffset := MakeBounds(t, huffcode);
    var lookNbits, lookSym := MakeLookahead(t, huffcode[..]);
    if isDC {
      for i := 0 to lastp
        invariant forall q | 0 <= q < i :: t.huffval[q] <= 15
      {
        if t.huffval[i] > 15 {
          return BadTable;
        }
      }
    }
    return Ok(DDerived(maxcode[..], valoffset[..], lookNbits[..], lookSym[..]));
  }

  // ---------------------------------------------------------------- where the two differ

  /** Two code words, 0 and 10, for the same symbol. */
  function Twofold(): HuffTable {
    HuffTable(seq(17, l => if l == 1 || l == 2 then 1 else 0), seq(256, _ => 0))
  }

  lemma {:induction false} TwofoldCodes(l: nat)
    requires 3 <= l <= 16
    ensures Twofold().Shaped() && Twofold().Count(l) == 2 && Twofold().First(l) == 3 * Pow2(l - 2)
  {
    if l == 3 {
      TwofoldFirst();
    } else {
      TwofoldCodes(l - 1);
    }
  }

  lemma TwofoldFits(l: nat)
    requires 1 <= l <= 16
    ensures Twofold().Shaped() && Twofold().First(l) + Twofold().bits[l] < Pow2(l)
  {
    hide HuffTable.Count, HuffTable.First;
    TwofoldFirst();
    if l > 2 {
      TwofoldCodes(l);
      assert Pow2(l) == 2 * Pow2(l - 1) && Pow2(l - 1) == 2 * Pow2(l - 2);
    } else {
      assert Pow2(1) == 2 && Pow2(2) == 4;
    }
  }

  lemma TwofoldValid()
    ensures Twofold().Shaped() && Twofold().Count(16) == 2 && Twofold().ValidCounts()
  {
    hide HuffTable.Count, HuffTable.First, Twofold;
    TwofoldCodes(16);
    forall l: nat | 1 <= l <= 16
      ensures Twofold().First(l) + Twofold().bits[l] < Pow2(l)
    {
      TwofoldFits(l);
    }
  }

  /** The decoder accepts it for DC and AC coefficients, the encoder for neither. */
  lemma TwofoldAccepted()
    ensures Twofold().Shaped() && Twofold().ValidCounts() && Twofold().SymbolsAtMost(15)
    ensures !Twofold().DistinctSymbols()
  {
    hide HuffTable.Count, HuffTable.First, HuffTable.ValidCounts, HuffTable.Shaped;
    TwofoldValid();
    assert Twofold().huffval[0] == Twofold().huffval[1];
  }

  lemma TwofoldFirst()
    ensures Twofold().First(1) == 0 && Twofold().First(2) == 2 && Twofold().First(3) == 6
    ensures Twofold().Count(1) == 1 && Twofold().Count(2) == Twofold().Count(3) == 2
  {
  }
}
