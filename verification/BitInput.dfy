/** The bit input buffer of the Huffman decoders: bytes are loaded ahead of need, stuffed zeroes
    removed, and loading stops at a marker.  What is left to read is always the bits in the buffer
    followed by those of the bytes before the next marker. */
module BitInput {
  import opened Bits
  import opened Reading
  import opened BitOutput

  // ---------------------------------------------------------------- entropy-coded bytes

  /** The next thing in a byte stream, and where it ends: a data byte, a marker, or nothing more for
      now, in which case reading goes on at the same place. */
  datatype Next = Data(b: Byte, pos: nat) | Marker(m: Byte, pos: nat) | Empty(pos: nat)

  function SkipFF(data: seq<Byte>, pos: nat): (q: nat)
    requires pos <= |data|
    ensures pos <= q <= |data| && (q < |data| ==> data[q] != 0xFF)
    decreases |data| - pos
  {
    if pos < |data| && data[pos] == 0xFF then SkipFF(data, pos + 1) else pos
  }

  function NextByte(data: seq<Byte>, pos: nat): (n: Next)
    requires pos <= |data|
    ensures pos <= n.pos <= |data|
    ensures if n.Empty? then n.pos == pos else pos < n.pos
  {
    if pos == |data| then Empty(pos)
    else if data[pos] != 0xFF then Data(data[pos], pos + 1)
    else
      var q := SkipFF(data, pos + 1);
      if q == |data| then Empty(pos)
      else if data[q] == 0 then Data(0xFF, q + 1)
      else Marker(data[q], q + 1)
  }

  /** The data bytes up to the next marker, or to the end of what is available. */
  function RestBytes(data: seq<Byte>, pos: nat): seq<Byte>
    requires pos <= |data|
    decreases |data| - pos
  {
    match NextByte(data, pos)
    case Data(b, p) => [b] + RestBytes(data, p)
    case Marker(_, _) => []
    case Empty(_) => []
  }

  /** What ends them. */
  function RestEnd(data: seq<Byte>, pos: nat): (n: Next)
    requires pos <= |data|
    ensures !n.Data?
    ensures pos <= n.pos <= |data|
    decreases |data| - pos
  {
    var n := NextByte(data, pos);
    if n.Data? then RestEnd(data, n.pos) else n
  }

  // ---------------------------------------------------------------- the buffer as a number

  lemma {:induction false} ToBitsWrapMany(v: int, n: nat, k: int)
    ensures ToBits(v + k * Pow2(n), n) == ToBits(v, n)
    decreases n
  {
    if n > 0 {
      MulDouble(k, Pow2(n - 1));
      assert (v + k * Pow2(n)) / 2 == v / 2 + k * Pow2(n - 1);
      assert (v + k * Pow2(n)) % 2 == v % 2;
      ToBitsWrapMany(v / 2, n - 1, k);
    }
  }

  const TWO32: int := 0x1_0000_0000

  /** Bits shifted out of a 32-bit register are not among its low `n`. */
  lemma LowBitsOfRegister(v: int, n: nat)
    requires n <= 32
    ensures ToBits(v % TWO32, n) == ToBits(v, n)
  {
    hide ToBits, Pow2;
    Pow2Is32();
    Pow2Add(32 - n, n);
    var k := v / TWO32;
    assert v == v % TWO32 + k * TWO32;
    MulAssoc(k, Pow2(32 - n), Pow2(n));
    ToBitsWrapMany(v % TWO32, n, k * Pow2(32 - n));
  }

  lemma Pow2Is32()
    ensures Pow2(32) == TWO32
  {
    Pow2Values();
    Pow2Add(16, 16);
  }

  /** Loading one more byte. */
  lemma LoadByte(buffer: int, bits: nat, c: Byte)
    requires bits + 8 <= 32
    ensures ToBits((buffer * 256 + c) % TWO32, bits + 8) == ToBits(buffer, bits) + ToBits(c, 8)
  {
    hide ToBits;
    Pow2Values();
    LowBitsOfRegister(buffer * 256 + c, bits + 8);
    ToBitsConcat(buffer, c, bits, 8);
  }

  /** Shifting in zeroes. */
  lemma LoadZeroes(buffer: int, bits: nat, n: nat)
    requires bits + n <= 32
    ensures ToBits(buffer * Pow2(n) % TWO32, bits + n) == ToBits(buffer, bits) + ToBits(0, n)
  {
    hide ToBits;
    LowBitsOfRegister(buffer * Pow2(n), bits + n);
    ToBitsConcat(buffer, 0, bits, n);
  }

  lemma {:induction false} ToBitsSuffix(v: int, m: nat, n: nat)
    requires m <= n
    ensures ToBits(v, n)[n - m..] == ToBits(v, m)
    decreases m
  {
    if m == 0 {
    } else {
      ToBitsSuffix(v / 2, m - 1, n - 1);
    }
  }

  /** Fetching the next `n` bits out of the buffer. */
  lemma TopBits(buffer: int, bits: nat, n: nat)
    requires n <= bits
    ensures buffer / Pow2(bits - n) % Pow2(n) == Value(ToBits(buffer, bits)[..n])
    ensures ToBits(buffer, bits)[n..] == ToBits(buffer, bits - n)
  {
    hide ToBits, Value, Pow2;
    ToBitsPrefix(buffer, bits, n);
    ValueOfLowBits(buffer / Pow2(bits - n), n);
    ToBitsSuffix(buffer, bits - n, bits);
  }

  // ---------------------------------------------------------------- the reader

  const MIN_GET_BITS: nat := 25

  /** The source (`data` is all that has arrived so far, `pos` the next byte), the bit buffer, and
      the two fields of the decompressor that reading may set. */
  class BitReader {
    var data: seq<Byte>
    var pos: nat
    var getBuffer: int
    var bitsLeft: nat
    var unreadMarker: Byte
    var insufficient: bool

    ghost predicate Valid()
      reads this
    {
      pos <= |data| && bitsLeft <= 32
    }

    /** The bits that can still be read before the next marker. */
    ghost function Avail(): BitSeq
      requires Valid()
      reads this
    {
      ToRead(data, pos, getBuffer, bitsLeft, unreadMarker)
    }

    /** ... and with `more` data behind what has arrived. */
    ghost function AvailWith(more: seq<Byte>): BitSeq
      requires Valid()
      reads this
    {
      ToRead(data + more, pos, getBuffer, bitsLeft, unreadMarker)
    }

    /** Reading has only moved on towards the same end; as long as it has not got there, no data has
        been made up. */
    ghost predicate Follows(pos0: nat, marker0: Byte, insufficient0: bool)
      reads this
    {
      && pos <= |data| && pos0 <= |data| && Ahead(data, pos, unreadMarker) == Ahead(data, pos0, marker0)
      && (unreadMarker == 0 ==> marker0 == 0 && insufficient == insufficient0)
    }

    /** A source that has run dry was no better where reading started. */
    lemma WasDry(pos0: nat, marker0: Byte, insufficient0: bool)
      requires Follows(pos0, marker0, insufficient0) && Dry(data, pos, unreadMarker)
      ensures marker0 == 0 && Dry(data, pos0, marker0) && insufficient == insufficient0
    {
      hide RestEnd;
    }

    constructor (data: seq<Byte>, pos: nat)
      requires pos <= |data|
      ensures Valid() && this.data == data && this.pos == pos && !insufficient && unreadMarker == 0 && bitsLeft == 0
    {
      this.data, this.pos, getBuffer, bitsLeft, unreadMarker, insufficient := data, pos, 0, 0, 0, false;
    }

    /** jpeg_fill_bit_buffer.  Fails, changing nothing, if the source has to be waited for. */
    method FillBitBuffer(nbits: nat) returns (ok: bool)
      requires Valid() && nbits <= MIN_GET_BITS
      modifies this
      ensures Valid() && data == old(data) && Follows(old(pos), old(unreadMarker), old(insufficient))
      ensures ok ==> bitsLeft >= nbits && bitsLeft >= old(bitsLeft) && (bitsLeft >= MIN_GET_BITS || unreadMarker != 0)
      ensures ok && nbits <= |old(Avail())| ==> insufficient == old(insufficient) && Avail() == old(Avail())
      ensures ok && nbits > |old(Avail())| ==> insufficient && unreadMarker != 0
      ensures ok && nbits > |old(Avail())| ==> Avail() == old(Avail()) + ToBits(0, bitsLeft - |old(Avail())|)
      ensures !ok ==> |Avail()| < MIN_GET_BITS
      ensures !ok ==> Stuck(old(data), old(pos), old(getBuffer), old(bitsLeft), old(unreadMarker), old(insufficient))
    {
      hide ToBits, Unpack, RestBytes, RestEnd, Pow2;
      var p: nat, buffer: int, bits: nat, marker := pos, getBuffer, bitsLeft, unreadMarker;
      while marker == 0 && bits < MIN_GET_BITS
        invariant p <= |data| && bits <= 32
        invariant bits >= bitsLeft
        invariant ToRead(data, p, buffer, bits, marker) == old(Avail())
        invariant pos == old(pos) && data == old(data) && getBuffer == old(getBuffer) && bitsLeft == old(bitsLeft)
        invariant unreadMarker == old(unreadMarker) && insufficient == old(insufficient)
        invariant Ahead(data, p, marker) == Ahead(data, pos, unreadMarker) && (marker == 0 ==> unreadMarker == 0)
        decreases marker == 0, |data| - p
      {
        LoadStep(data, p, buffer, bits);
        match NextByte(data, p) {
          case Empty(_) =>
            return false;
          case Marker(m, q) =>
            marker := m;
            p := q;
          case Data(b, q) =>
            buffer := (buffer * 256 + b) % TWO32;
            bits := bits + 8;
            p := q;
        }
      }
      PendingLength(data, p, buffer, bits, marker);
      if nbits > bits {
        LoadZeroes(buffer, bits, MIN_GET_BITS - bits);
        insufficient := true;
        buffer := buffer * Pow2(MIN_GET_BITS - bits) % TWO32;
        bits := MIN_GET_BITS;
      }
      pos, getBuffer, bitsLeft, unreadMarker := p, buffer, bits, marker;
      return true;
    }

    /** CHECK_BIT_BUFFER.  Zeroes are supplied only when a marker leaves fewer than `n` bits. */
    method CheckBits(n: nat) returns (ok: bool, ghost zeros: nat)
      requires Valid() && n <= MIN_GET_BITS
      modifies this
      ensures Valid() && data == old(data) && Follows(old(pos), old(unreadMarker), old(insufficient))
      ensures ok ==> bitsLeft >= n && Avail() == old(Avail()) + ToBits(0, zeros)
      ensures ok && zeros == 0 ==> insufficient == old(insufficient)
      ensures ok && zeros > 0 ==> insufficient && unreadMarker != 0 && |old(Avail())| < n
      ensures !ok ==> Stuck(old(data), old(pos), old(getBuffer), old(bitsLeft), old(unreadMarker), old(insufficient))
    {
      hide ToBits, RestBytes, RestEnd, ToRead;
      zeros := 0;
      assert ToBits(0, 0) == [];
      assert Avail() == Avail() + [];
      if bitsLeft < n {
        ghost var before := Avail();
        ok := FillBitBuffer(n);
        if ok && n > |before| {
          zeros := bitsLeft - |before|;
        }
      } else {
        ok := true;
      }
    }

    /** GET_BITS. */
    method GetBits(n: nat) returns (v: nat)
      requires Valid() && n <= bitsLeft
      modifies this`bitsLeft
      ensures Valid() && n <= |old(Avail())| && v == Value(old(Avail())[..n]) && Avail() == old(Avail())[n..]
    {
      hide ToBits, RestBytes, Value, Pow2;
      TopBits(getBuffer, bitsLeft, n);
      assert Avail()[..n] == ToBits(getBuffer, bitsLeft)[..n];
      bitsLeft := bitsLeft - n;
      v := getBuffer / Pow2(bitsLeft) % Pow2(n);
    }

    /** PEEK_BITS. */
    method PeekBits(n: nat) returns (v: nat)
      requires Valid() && n <= bitsLeft
      ensures Take(n, Avail()).Got? && v == Take(n, Avail()).value
    {
      hide ToBits, RestBytes, Value, Pow2;
      TopBits(getBuffer, bitsLeft, n);
      assert Avail()[..n] == ToBits(getBuffer, bitsLeft)[..n];
      v := getBuffer / Pow2(bitsLeft - n) % Pow2(n);
    }

    /** DROP_BITS. */
    method DropBits(n: nat)
      requires Valid() && n <= bitsLeft
      modifies this`bitsLeft
      ensures Valid() && n <= |old(Avail())| && Avail() == old(Avail())[n..]
    {
      hide ToBits, RestBytes, Value, Pow2;
      TopBits(getBuffer, bitsLeft, n);
      bitsLeft := bitsLeft - n;
    }

    /** CHECK_BIT_BUFFER and GET_BITS. */
    method Fetch(n: nat) returns (ok: bool, v: nat, ghost zeros: nat)
      requires Valid() && n <= MIN_GET_BITS
      modifies this
      ensures Valid() && data == old(data) && Follows(old(pos), old(unreadMarker), old(insufficient))
      ensures ok ==> Take(n, old(Avail()) + ToBits(0, zeros)) == Got(v, Avail())
      ensures ok && zeros == 0 ==> insufficient == old(insufficient)
      ensures ok && zeros > 0 ==> insufficient && unreadMarker != 0 && |old(Avail())| < n
      ensures !ok ==> Stuck(old(data), old(pos), old(getBuffer), old(bitsLeft), old(unreadMarker), old(insufficient))
    {
      hide ToBits, RestBytes, RestEnd, ToRead, Value;
      v := 0;
      ok, zeros := CheckBits(n);
      if ok {
        v := GetBits(n);
      }
    }

    /** Nothing was taken, and the source must deliver more before the next marker is known. */
    ghost predicate Stuck(data: seq<Byte>, pos: nat, getBuffer: int, bitsLeft: nat, marker: Byte, insufficient: bool)
      reads this
    {
      && Valid() && Dry(data, pos, marker)
      && this.data == data && this.pos == pos && this.getBuffer == getBuffer && this.bitsLeft == bitsLeft
      && unreadMarker == marker && this.insufficient == insufficient
    }
  }

  ghost function ToRead(data: seq<Byte>, pos: nat, buffer: int, bits: nat, marker: Byte): BitSeq
    requires pos <= |data|
  {
    ToBits(buffer, bits) + (if marker == 0 then Unpack(RestBytes(data, pos)) else [])
  }

  /** What the data ends with: the marker that has been reached, or else what comes after the bytes
      before the next one. */
  ghost function Ahead(data: seq<Byte>, pos: nat, marker: Byte): Next
    requires pos <= |data|
  {
    if marker == 0 then RestEnd(data, pos) else Marker(marker, pos)
  }

  /** The source has ended without a marker: more of it must arrive first. */
  ghost predicate Dry(data: seq<Byte>, pos: nat, marker: Byte)
  {
    pos <= |data| && marker == 0 && RestEnd(data, pos).Empty?
  }

  lemma PendingLength(data: seq<Byte>, p: nat, buffer: int, bits: nat, marker: Byte)
    requires p <= |data|
    ensures |ToRead(data, p, buffer, bits, marker)| >= bits
    ensures marker != 0 ==> ToRead(data, p, buffer, bits, marker) == ToBits(buffer, bits)
  {
  }

  /** Moving a byte from the source into the buffer leaves what is to be read the same. */
  lemma LoadStep(data: seq<Byte>, p: nat, buffer: int, bits: nat)
    requires p <= |data| && bits + 8 <= 32
    ensures var n := NextByte(data, p);
      && (n.Data? ==>
         ToRead(data, n.pos, (buffer * 256 + n.b) % TWO32, bits + 8, 0) == ToRead(data, p, buffer, bits, 0))
      && (n.Data? ==> RestEnd(data, n.pos) == RestEnd(data, p))
      && (n.Marker? ==> n.m != 0 && forall q: nat | q <= |data| ::
                        ToRead(data, q, buffer, bits, n.m) == ToRead(data, p, buffer, bits, 0))
      && (n.Marker? ==> RestEnd(data, p) == n)
      && (n.Empty? ==> RestEnd(data, p) == n && ToRead(data, p, buffer, bits, 0) == ToBits(buffer, bits))
  {
    hide ToBits, SkipFF;
    var n := NextByte(data, p);
    if n.Data? {
      LoadByte(buffer, bits, n.b);
      assert ([n.b] + RestBytes(data, n.pos))[1..] == RestBytes(data, n.pos);
      assert Unpack(RestBytes(data, p)) == ToBits(n.b, 8) + Unpack(RestBytes(data, n.pos));
      assert (ToBits(buffer, bits) + ToBits(n.b, 8)) + Unpack(RestBytes(data, n.pos))
          == ToBits(buffer, bits) + (ToBits(n.b, 8) + Unpack(RestBytes(data, n.pos)));
    }
  }
}
