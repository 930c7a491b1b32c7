/** Results of functions that consume bits: either the available bits are too few, or a value
    and the bits that remain after it. */
module Reading {
  import opened Bits

  datatype Read<+T> = More | Got(value: T, rest: BitSeq) {
    predicate IsFailure() {
      More?
    }

    function PropagateFailure<U>(): Read<U>
      requires More?
    {
      More
    }

    function Extract(): (T, BitSeq)
      requires Got?
    {
      (value, rest)
    }
  }

  function Take(n: nat, bits: BitSeq): (r: Read<nat>)
    ensures r.Got? <==> n <= |bits|
  {
    if n <= |bits| then Got(Value(bits[..n]), bits[n..]) else More
  }

  function TakeBit(bits: BitSeq): (r: Read<bool>)
    ensures r.Got? <==> bits != []
  {
    if bits == [] then More else Got(bits[0], bits[1..])
  }

  /** Reading back `n` bits of a number that fits in them. */
  lemma TakeToBits(v: int, n: nat, rest: BitSeq)
    requires 0 <= v < Pow2(n)
    ensures Take(n, ToBits(v, n) + rest) == Got(v, rest)
  {
    ValueToBits(v, n);
    assert (ToBits(v, n) + rest)[..n] == ToBits(v, n);
    assert (ToBits(v, n) + rest)[n..] == rest;
  }
}
