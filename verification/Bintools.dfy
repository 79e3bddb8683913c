/** Single-bit access to a byte, and the array of bits that a byte bitmap stands for.
    Both allocators keep their bitmaps through these three operations. */
module Bintools {

  function Mask(bit: nat): bv8
    requires bit < 8
  {
    (1 as bv8) << bit
  }

  predicate TestBit(b: bv8, bit: nat)
    requires bit < 8
  {
    b & Mask(bit) != 0
  }

  lemma Masks()
    ensures Mask(0) == 1 && Mask(1) == 2 && Mask(2) == 4 && Mask(3) == 8
    ensures Mask(4) == 16 && Mask(5) == 32 && Mask(6) == 64 && Mask(7) == 128
  {
  }

  lemma SetTest(b: bv8, i: nat, j: nat)
    requires i < 8 && j < 8
    ensures TestBit(b | Mask(i), j) == (i == j || TestBit(b, j))
  {
    Masks();
  }

  lemma ClearTest(b: bv8, i: nat, j: nat)
    requires i < 8 && j < 8
    ensures TestBit(b & !Mask(i), j) == (i != j && TestBit(b, j))
  {
    Masks();
  }

  /** The bits of a byte string, lowest bit of each byte first. */
  ghost function Bits(s: seq<bv8>): (r: seq<bool>)
    ensures |r| == 8 * |s|
    ensures forall k :: 0 <= k < |r| ==> r[k] == TestBit(s[k / 8], k % 8)
  {
    seq(8 * |s|, k requires 0 <= k < 8 * |s| => TestBit(s[k / 8], k % 8))
  }

  /** `bits` with positions [start, start+count) set to `v`. */
  ghost function Fill(bits: seq<bool>, start: nat, count: nat, v: bool): (r: seq<bool>)
    ensures |r| == |bits|
    ensures forall k :: 0 <= k < |r| ==> r[k] == if start <= k < start + count then v else bits[k]
  {
    seq(|bits|, k requires 0 <= k < |bits| => if start <= k < start + count then v else bits[k])
  }

  /** Replacing one byte by one that differs from it in a single bit changes that bit alone. */
  lemma OneByte(before: seq<bv8>, at: nat, b: bv8, bit: nat, v: bool)
    requires at < |before| && bit < 8
    requires forall j | 0 <= j < 8 :: TestBit(b, j) == if j == bit then v else TestBit(before[at], j)
    ensures Bits(before[at := b]) == Bits(before)[8 * at + bit := v]
  {
    var after := before[at := b];
    forall k | 0 <= k < 8 * |before|
      ensures Bits(after)[k] == Bits(before)[8 * at + bit := v][k]
    {
      assert Bits(after)[k] == TestBit(after[k / 8], k % 8);
    }
  }

  /** The same for a byte array kept by value inside a larger object. */
  method SetBitOf(bit: nat, bytes: seq<bv8>, at: nat) returns (r: seq<bv8>)
    requires bit < 8 && at < |bytes|
    ensures Bits(r) == Bits(bytes)[8 * at + bit := true]
  {
    forall j | 0 <= j < 8 { SetTest(bytes[at], bit, j); }
    OneByte(bytes, at, bytes[at] | Mask(bit), bit, true);
    r := bytes[at := bytes[at] | Mask(bit)];
  }

  method SetBit(bit: nat, bytes: array<bv8>, at: nat)
    requires bit < 8 && at < bytes.Length
    modifies bytes
    ensures Bits(bytes[..]) == old(Bits(bytes[..]))[8 * at + bit := true]
  {
    forall j | 0 <= j < 8 { SetTest(bytes[at], bit, j); }
    OneByte(bytes[..], at, bytes[at] | Mask(bit), bit, true);
    bytes[at] := bytes[at] | Mask(bit);
    assert bytes[..] == old(bytes[..])[at := bytes[at]];
  }

  method ClearBit(bit: nat, bytes: array<bv8>, at: nat)
    requires bit < 8 && at < bytes.Length
    modifies bytes
    ensures Bits(bytes[..]) == old(Bits(bytes[..]))[8 * at + bit := false]
  {
    forall j | 0 <= j < 8 { ClearTest(bytes[at], bit, j); }
    OneByte(bytes[..], at, bytes[at] & !Mask(bit), bit, false);
    bytes[at] := bytes[at] & !Mask(bit);
    assert bytes[..] == old(bytes[..])[at := bytes[at]];
  }
}
