/** The bytes of `requiredBitSet` and the two functions of Go's math/bits that the
    missing-field loop uses. */
module Bits {
  /** The byte `1 << i`. */
  function Shl1(i: nat): bv8
    requires i < 8
  {
    if i == 0 then 1 else if i == 1 then 2 else if i == 2 then 4 else if i == 3 then 8
    else if i == 4 then 16 else if i == 5 then 32 else if i == 6 then 64 else 128
  }

  predicate Bit(b: bv8, i: nat)
    requires i < 8
  {
    if i == 0 then b & 1 != 0 else if i == 1 then b & 2 != 0
    else if i == 2 then b & 4 != 0 else if i == 3 then b & 8 != 0
    else if i == 4 then b & 16 != 0 else if i == 5 then b & 32 != 0
    else if i == 6 then b & 64 != 0 else b & 128 != 0
  }

  /** The bits of a byte, lowest first. */
  function BitsOf(b: bv8): (r: seq<bool>)
    ensures |r| == 8
  {
    seq(8, i requires 0 <= i < 8 => Bit(b, i))
  }

  /** Index of the first set bit from `i` on. */
  function Lowest(bits: seq<bool>, i: nat): (r: nat)
    requires i <= |bits|
    ensures i <= r <= |bits|
    ensures forall j :: i <= j < r ==> !bits[j]
    ensures r < |bits| ==> bits[r]
    decreases |bits| - i
  {
    if i == |bits| || bits[i] then i else Lowest(bits, i + 1)
  }

  /** Indices below `n` of the bits that are set, in increasing order. */
  function Select(bits: seq<bool>, n: nat): seq<nat>
    requires n <= |bits|
  {
    if n == 0 then []
    else if bits[n - 1] then Select(bits, n - 1) + [n - 1]
    else Select(bits, n - 1)
  }

  /** Indices of all bits that are set, in increasing order. */
  function Indices(bits: seq<bool>): seq<nat> { Select(bits, |bits|) }

  function TrailingZeros8(b: bv8): nat { Lowest(BitsOf(b), 0) }

  function OnesCount8(b: bv8): nat { |Indices(BitsOf(b))| }

  lemma {:induction false} SelectExact(bits: seq<bool>, n: nat)
    requires n <= |bits|
    ensures forall p, q :: 0 <= p < q < |Select(bits, n)| ==> Select(bits, n)[p] < Select(bits, n)[q]
    ensures forall i: nat :: i in Select(bits, n) <==> i < n && bits[i]
  {
    if n > 0 {
      SelectExact(bits, n - 1);
      var before := Select(bits, n - 1);
      assert forall p :: 0 <= p < |before| ==> before[p] in before;
    }
  }

  lemma {:induction false} NoBits(bits: seq<bool>, n: nat)
    requires n <= |bits| && forall i :: 0 <= i < |bits| ==> !bits[i]
    ensures Select(bits, n) == []
  {
    if n > 0 {
      NoBits(bits, n - 1);
    }
  }

  lemma {:induction false} LowestFirst(bits: seq<bool>, m: nat, n: nat)
    requires m < |bits| && n <= |bits| && bits[m]
    requires forall i :: 0 <= i < m ==> !bits[i]
    ensures Select(bits, n) == if m < n then [m] + Select(bits[m := false], n) else []
    ensures n <= m ==> Select(bits[m := false], n) == []
  {
    if n > 0 {
      LowestFirst(bits, m, n - 1);
    }
  }

  lemma SetBit(b: bv8, m: nat, i: nat)
    requires m < 8 && i < 8
    ensures Bit(b | Shl1(m), i) <==> Bit(b, i) || i == m
  {
  }

  lemma ClearBit(b: bv8, m: nat, i: nat)
    requires m < 8 && i < 8
    ensures Bit(b & !Shl1(m), i) <==> Bit(b, i) && i != m
  {
  }

  lemma LackingBit(b: bv8, mask: bv8, i: nat)
    requires i < 8
    ensures Bit((b & mask) ^ mask, i) <==> Bit(mask, i) && !Bit(b, i)
  {
    var one := Shl1(i);
    assert ((b & mask) ^ mask) & one == (mask & one) & !(b & one);
  }

  lemma SomeBit(b: bv8) returns (i: nat)
    requires b != 0
    ensures i < 8 && Bit(b, i)
  {
    i := if b & 1 != 0 then 0 else if b & 2 != 0 then 1 else if b & 4 != 0 then 2
    else if b & 8 != 0 then 3 else if b & 16 != 0 then 4 else if b & 32 != 0 then 5
    else if b & 64 != 0 then 6 else 7;
  }

  lemma ClearBitsOf(b: bv8, m: nat)
    requires m < 8
    ensures BitsOf(b & !Shl1(m)) == BitsOf(b)[m := false]
  {
    var before, after := BitsOf(b), BitsOf(b & !Shl1(m));
    forall i | 0 <= i < 8 ensures after[i] == before[m := false][i] {
      ClearBit(b, m, i);
    }
  }

  /** A byte is zero when no bit is set. */
  lemma ZeroByte(b: bv8)
    ensures b == 0 <==> TrailingZeros8(b) == 8
    ensures b == 0 <==> Indices(BitsOf(b)) == []
  {
    if b == 0 {
      NoBits(BitsOf(b), 8);
    } else {
      var i := SomeBit(b);
      assert BitsOf(b)[i];
      SelectExact(BitsOf(b), 8);
    }
  }

  /** The lowest set bit of a non-zero byte, and the byte with that bit reset. */
  method TakeLowest(b: bv8) returns (bitIdx: nat, rest: bv8)
    requires b != 0
    ensures Indices(BitsOf(b)) == [bitIdx] + Indices(BitsOf(rest))
  {
    ZeroByte(b);
    bitIdx := TrailingZeros8(b);
    rest := b & !Shl1(bitIdx);
    ClearBitsOf(b, bitIdx);
    LowestFirst(BitsOf(b), bitIdx, 8);
  }
}
