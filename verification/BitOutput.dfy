/** The bit output buffer shared by the Huffman encoders: bits gather in a 24-bit buffer and leave
    it as bytes, each 0xFF byte followed by a stuffed zero (T.81 section F.1.2.3). */
module BitOutput {
  import opened Bits

  type Byte = b: nat | b < 256

  // ---------------------------------------------------------------- bytes of bits

  function Pack(bits: BitSeq): (bytes: seq<Byte>)
    requires |bits| % 8 == 0
    ensures |bytes| * 8 == |bits|
  {
    if bits == [] then [] else ByteBound(bits[..8]); [Value(bits[..8])] + Pack(bits[8..])
  }

  function Unpack(bytes: seq<Byte>): (bits: BitSeq)
    ensures |bits| == 8 * |bytes|
  {
    if bytes == [] then [] else ToBits(bytes[0], 8) + Unpack(bytes[1..])
  }

  lemma ByteBound(b: BitSeq)
    requires |b| == 8
    ensures Value(b) < 256
  {
    ValueBound(b);
    Pow2Values();
  }

  lemma {:induction false} UnpackPack(bits: BitSeq)
    requires |bits| % 8 == 0
    ensures Unpack(Pack(bits)) == bits
    decreases |bits|
  {
    hide Value, ToBits;
    if bits != [] {
      ByteBound(bits[..8]);
      ToBitsOfValue(bits[..8]);
      UnpackPack(bits[8..]);
    }
  }

  lemma {:induction false} PackSnoc(bits: BitSeq, last: BitSeq)
    requires |bits| % 8 == 0 && |last| == 8
    ensures Value(last) < 256
    ensures Pack(bits + last) == Pack(bits) + [Value(last)]
    decreases |bits|
  {
    hide Value;
    ByteBound(last);
    if bits == [] {
      assert bits + last == last;
      assert last[..8] == last && last[8..] == [];
    } else {
      assert (bits + last)[..8] == bits[..8];
      assert (bits + last)[8..] == bits[8..] + last;
      PackSnoc(bits[8..], last);
    }
  }

  function Stuffed(b: Byte): seq<Byte> { if b == 0xFF then [0xFF, 0] else [b] }

  function Stuff(bytes: seq<Byte>): seq<Byte>
  {
    if bytes == [] then [] else Stuffed(bytes[0]) + Stuff(bytes[1..])
  }

  lemma {:induction false} StuffSnoc(bytes: seq<Byte>, b: Byte)
    ensures Stuff(bytes + [b]) == Stuff(bytes) + Stuffed(b)
    decreases |bytes|
  {
    if bytes == [] {
      assert bytes + [b] == [b] && [b][1..] == [];
    } else {
      assert (bytes + [b])[1..] == bytes[1..] + [b];
      StuffSnoc(bytes[1..], b);
      assert Stuffed(bytes[0]) + (Stuff(bytes[1..]) + Stuffed(b))
          == (Stuffed(bytes[0]) + Stuff(bytes[1..])) + Stuffed(b);
    }
  }

  /** One-bits up to the next byte boundary. */
  function Padding(n: nat): (p: BitSeq)
    ensures (n + |p|) % 8 == 0 && |p| < 8
    ensures forall i | 0 <= i < |p| :: p[i]
  {
    if n % 8 == 0 then [] else seq(8 - n % 8, _ => true)
  }

  /** An entropy-coded segment as it appears in the file. */
  function SegmentBytes(bits: BitSeq): seq<Byte>
  {
    Stuff(Pack(bits + Padding(|bits|)))
  }

  // ---------------------------------------------------------------- the buffer as a number

  lemma {:induction false} ValueOfLowBits(v: int, n: nat)
    ensures Value(ToBits(v, n)) == v % Pow2(n)
    decreases n
  {
    hide Value, ToBits;
    if n == 0 {
      assert ToBits(v, 0) == [] && Value([]) == 0 by { EmptyBits(v); }
    } else {
      ValueOfLowBits(v / 2, n - 1);
      ToBitsSnoc(v, n);
      ValueSnoc(ToBits(v / 2, n - 1), v % 2 == 1);
      ModDouble(v, Pow2(n - 1));
    }
  }

  lemma EmptyBits(v: int)
    ensures ToBits(v, 0) == [] && Value([]) == 0
  {
  }

  lemma ToBitsSnoc(v: int, n: nat)
    requires n > 0
    ensures ToBits(v, n) == ToBits(v / 2, n - 1) + [v % 2 == 1]
  {
  }

  lemma ModDouble(v: int, p: int)
    requires p > 0
    ensures v % (2 * p) == 2 * (v / 2 % p) + v % 2
  {
    var q, r := v / 2 / p, v / 2 % p;
    var s := q * p;
    assert v / 2 == s + r;
    assert v == 2 * s + 2 * r + v % 2;
    assert q * (2 * p) == 2 * s by { MulDouble(q, p); }
    DivUnique(v, 2 * p, q, 2 * r + v % 2);
  }

  /** `pending` left-justified in the 24-bit buffer, zeroes after it. */
  predicate Holds(buffer: int, pending: BitSeq)
  {
    |pending| <= 24 && buffer == Value(pending) * Pow2(24 - |pending|)
  }

  /** Aligning and merging new bits: they fall on zeroes, so the bitwise or is a sum. */
  lemma MergeHolds(buffer: int, pending: BitSeq, code: int, size: nat)
    requires Holds(buffer, pending) && |pending| + size <= 24
    ensures Holds(buffer + code % Pow2(size) * Pow2(24 - (|pending| + size)), pending + ToBits(code, size))
  {
    hide Value, ToBits, Pow2;
    var rest := 24 - (|pending| + size);
    ValueConcat(pending, ToBits(code, size));
    ValueOfLowBits(code, size);
    Pow2Add(size, rest);
    MulDistribute(Value(pending), Pow2(size), code % Pow2(size), Pow2(rest));
  }

  lemma MulDistribute(a: int, b: int, c: int, d: int)
    ensures (a * b + c) * d == a * (b * d) + c * d
  {
    assert (a * b) * d == a * (b * d);
    assert (a * b + c) * d == (a * b) * d + c * d;
  }

  /** The top byte of the buffer is the first 8 pending bits ... */
  lemma TopByte(buffer: int, pending: BitSeq)
    requires Holds(buffer, pending) && |pending| >= 8
    ensures 0 <= Value(pending[8..]) * Pow2(24 - |pending|) < 0x1_0000
    ensures buffer == Value(pending[..8]) * 0x1_0000 + Value(pending[8..]) * Pow2(24 - |pending|)
    ensures buffer / 0x1_0000 == Value(pending[..8]) < 256
  {
    hide Value, Pow2;
    var n := |pending|;
    var hi, lo := pending[..8], pending[8..];
    assert hi + lo == pending;
    ValueConcat(hi, lo);
    ValueBound(lo);
    ByteBound(hi);
    Pow2Values();
    Pow2Add(n - 8, 24 - n);
    MulDistribute(Value(hi), Pow2(n - 8), Value(lo), Pow2(24 - n));
    ScaledBound(Value(lo), Pow2(n - 8), Pow2(24 - n));
  }

  /** ... and shifting by 8 drops them. */
  lemma ShiftByte(buffer: int, pending: BitSeq)
    requires Holds(buffer, pending) && |pending| >= 8
    ensures Holds(buffer * 256 % 0x100_0000, pending[8..])
  {
    hide Value, Pow2;
    var n := |pending|;
    var w := Value(pending[8..]) * Pow2(24 - n);
    TopByte(buffer, pending);
    Pow2Values();
    Pow2Add(24 - n, 8);
    MulAssoc(Value(pending[8..]), Pow2(24 - n), 256);
    DivUnique(buffer * 256, 0x100_0000, Value(pending[..8]), w * 256);
  }

  lemma MulAssoc(a: int, b: int, c: int)
    ensures a * (b * c) == (a * b) * c
  {
  }

  lemma ScaledBound(x: int, p: int, q: int)
    requires 0 <= x < p && q > 0
    ensures 0 <= x * q < p * q
  {
    MulAtLeast(p - x, q);
    assert (p - x) * q == p * q - x * q;
    if x > 0 {
      MulAtLeast(x, q);
    }
  }

  // ---------------------------------------------------------------- the writer

  /** All of `segment` but its last `n` bits has been written after `done` ... */
  ghost predicate Written(out: seq<Byte>, done: seq<Byte>, segment: BitSeq, n: nat)
  {
    n <= |segment| && (|segment| - n) % 8 == 0 && out == done + Stuff(Pack(segment[..|segment| - n]))
  }

  /** ... and those `n` bits are in the buffer. */
  ghost predicate State(out: seq<Byte>, done: seq<Byte>, segment: BitSeq, buffer: int, n: nat)
  {
    Written(out, done, segment, n) && Holds(buffer, segment[|segment| - n..])
  }

  lemma StateEmpty(out: seq<Byte>)
    ensures State(out, out, [], 0, 0)
  {
    assert Stuff(Pack([])) == [] && out + [] == out;
  }

  lemma StateMerge(out: seq<Byte>, done: seq<Byte>, segment: BitSeq, buffer: int, n: nat, code: int, size: nat)
    requires State(out, done, segment, buffer, n) && n + size <= 24
    ensures State(out, done, segment + ToBits(code, size),
                  buffer + code % Pow2(size) * Pow2(24 - (n + size)), n + size)
  {
    hide ToBits, Value, Pow2, Holds, Pack, Stuff;
    MergeHolds(buffer, segment[|segment| - n..], code, size);
    var s' := segment + ToBits(code, size);
    assert s'[..|s'| - (n + size)] == segment[..|segment| - n];
    assert s'[|s'| - (n + size)..] == segment[|segment| - n..] + ToBits(code, size);
  }

  lemma StateByte(out: seq<Byte>, done: seq<Byte>, segment: BitSeq, buffer: int, n: nat)
    requires State(out, done, segment, buffer, n) && n >= 8
    ensures 0 <= buffer / 0x1_0000 < 256
    ensures State(out + Stuffed(buffer / 0x1_0000), done, segment, buffer * 256 % 0x100_0000, n - 8)
  {
    hide Value, Holds, Pack, Stuff, Stuffed;
    var m := |segment| - n;
    var pending := segment[m..];
    TopByte(buffer, pending);
    ShiftByte(buffer, pending);
    var c: Byte := buffer / 0x1_0000;
    SplitByte(segment, m);
    PackSnoc(segment[..m], pending[..8]);
    StuffSnoc(Pack(segment[..m]), c);
    assert (done + Stuff(Pack(segment[..m]))) + Stuffed(c) == done + (Stuff(Pack(segment[..m])) + Stuffed(c));
  }

  lemma SplitByte(s: BitSeq, m: nat)
    requires m + 8 <= |s|
    ensures s[..m + 8] == s[..m] + s[m..][..8] && s[m + 8..] == s[m..][8..]
  {
  }

  lemma SevenOnes(i: nat)
    requires i < 7
    ensures ToBits(0x7F, 7)[i]
  {
    ToBitsOfValue([true, true, true, true, true, true, true]);
  }

  lemma Flushed(out: seq<Byte>, done: seq<Byte>, before: BitSeq, buffer: int, n: nat)
    requires State(out, done, before + ToBits(0x7F, 7), buffer, n) && n < 8
    ensures out == done + SegmentBytes(before)
  {
    hide ToBits, Pack, Stuff, Holds;
    forall i: nat | i < 7
      ensures ToBits(0x7F, 7)[i]
    {
      SevenOnes(i);
    }
    var segment := before + ToBits(0x7F, 7);
    assert segment[..|segment| - n] == before + Padding(|before|);
  }

  /** `out` is the file so far, `putBuffer` and `putBits` the fields of the encoder.  The ghost
      `segment` is the bits put since the last marker, which starts after the bytes in `done`. */
  class BitWriter {
    var out: seq<Byte>
    var putBuffer: int
    var putBits: nat
    ghost var done: seq<Byte>
    ghost var segment: BitSeq

    ghost predicate Valid()
      reads this
    {
      putBits < 8 && State(out, done, segment, putBuffer, putBits)
    }

    constructor (out: seq<Byte>)
      ensures Valid() && done == out && segment == [] && this.out == out
    {
      this.out, putBuffer, putBits, done, segment := out, 0, 0, out, [];
      new;
      StateEmpty(out);
    }

    /** Append `size` bits of `code`; a size of 0 means the symbol has no code. */
    method EmitBits(code: int, size: nat) returns (ok: bool)
      requires Valid() && size <= 16
      modifies this
      ensures Valid() && done == old(done)
      ensures ok <==> size != 0
      ensures segment == old(segment) + ToBits(code, size)
    {
      hide State, Pow2, Stuff;
      if size == 0 {
        EmptyBits(code);
        assert segment + ToBits(code, size) == segment;
        return false;
      }
      StateMerge(out, done, segment, putBuffer, putBits, code, size);
      var buffer := putBuffer + code % Pow2(size) * Pow2(24 - (putBits + size));
      var bits: nat := putBits + size;
      segment := segment + ToBits(code, size);
      while bits >= 8
        invariant State(out, done, segment, buffer, bits)
        invariant done == old(done) && segment == old(segment) + ToBits(code, size)
      {
        StateByte(out, done, segment, buffer, bits);
        var c := buffer / 0x1_0000;
        ghost var before := out;
        out := out + [c];
        if c == 0xFF {
          out := out + [0];
          assert before + [c, 0] == (before + [c]) + [0];
        }
        buffer := buffer * 256 % 0x100_0000;
        bits := bits - 8;
      }
      putBuffer, putBits := buffer, bits;
      return true;
    }

    /** Fill the last byte with ones and start afresh: the segment is complete. */
    method FlushBits()
      requires Valid()
      modifies this
      ensures Valid() && segment == []
      ensures out == done == old(done) + SegmentBytes(old(segment))
    {
      hide State, SegmentBytes, ToBits;
      var ok := EmitBits(0x7F, 7);
      Flushed(out, done, old(segment), putBuffer, putBits);
      putBuffer, putBits := 0, 0;
      done, segment := out, [];
      StateEmpty(out);
    }

    /** Marker bytes go straight to the output, between segments, when the buffer is empty. */
    method EmitMarker(mark: Byte)
      requires Valid() && segment == []
      modifies this
      ensures Valid() && segment == [] && out == done == old(done) + [0xFF, mark]
    {
      hide Pack, Stuff, Holds;
      AllWritten(out, done, putBits);
      ghost var before := out;
      out := out + [0xFF];
      out := out + [mark];
      assert before + [0xFF, mark] == (before + [0xFF]) + [mark];
      done := out;
      StateMoves(before, out, putBuffer, putBits);
    }
  }

  lemma AllWritten(out: seq<Byte>, done: seq<Byte>, n: nat)
    requires Written(out, done, [], n)
    ensures out == done
  {
    assert Stuff(Pack([])) == [];
  }

  lemma StateMoves(before: seq<Byte>, out: seq<Byte>, buffer: int, n: nat)
    requires State(before, before, [], buffer, n)
    ensures State(out, out, [], buffer, n)
  {
    assert Stuff(Pack([])) == [] && out + [] == out;
  }
}
