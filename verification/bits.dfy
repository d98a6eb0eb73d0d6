/**
 * Bits inside a byte, as numpy.packbits and numpy.unpackbits see them: a
 * group of up to eight booleans becomes one byte, element j of the group
 * going to bit 7-j under the "big" bit order and to bit j under "little".
 */
module Bits {

  /** An unsigned 8-bit value, the element type of every packed array. */
  type Byte = b: nat | b < 256

  datatype BitOrder = Big | Little

  function Pow2(n: nat): (r: nat)
    ensures r >= 1
  {
    if n == 0 then 1 else 2 * Pow2(n - 1)
  }

  lemma {:induction false} Pow2Monotone(m: nat, n: nat)
    requires m <= n
    ensures Pow2(m) <= Pow2(n)
  {
    if m < n {
      Pow2Monotone(m, n - 1);
    }
  }

  /** Bit i of v, counting the least significant bit as bit 0. */
  function BitOf(v: nat, i: nat): bool
  {
    if i == 0 then v % 2 == 1 else BitOf(v / 2, i - 1)
  }

  lemma {:induction false} ZeroHasNoBits(i: nat)
    ensures !BitOf(0, i)
  {
    if i > 0 {
      ZeroHasNoBits(i - 1);
    }
  }

  /** The value whose bit i is bits[i]: the first element is the least significant. */
  function LittleValue(bits: seq<bool>): (v: nat)
    ensures v < Pow2(|bits|)
  {
    if |bits| == 0 then 0
    else (if bits[0] then 1 else 0) + 2 * LittleValue(bits[1..])
  }

  /** Reading the bits of LittleValue gives the string back, and zero beyond its end. */
  lemma {:induction false} BitsOfLittleValue(bits: seq<bool>, i: nat)
    ensures BitOf(LittleValue(bits), i) == (i < |bits| && bits[i])
  {
    if |bits| == 0 {
      ZeroHasNoBits(i);
    } else {
      var v := LittleValue(bits);
      assert v % 2 == (if bits[0] then 1 else 0);
      assert v / 2 == LittleValue(bits[1..]);
      if i > 0 {
        BitsOfLittleValue(bits[1..], i - 1);
      }
    }
  }

  function Reverse<T>(s: seq<T>): (r: seq<T>)
    ensures |r| == |s|
    ensures forall i :: 0 <= i < |s| ==> r[i] == s[|s| - 1 - i]
  {
    if |s| == 0 then [] else Reverse(s[1..]) + [s[0]]
  }

  /** The group completed with zeros up to eight elements. */
  function Pad8(group: seq<bool>): (p: seq<bool>)
    requires |group| <= 8
    ensures |p| == 8
    ensures forall j :: 0 <= j < 8 ==> p[j] == (j < |group| && group[j])
  {
    group + seq(8 - |group|, _ => false)
  }

  /** The bit that receives element j of a group under the given order. */
  function Pos(j: nat, order: BitOrder): (p: nat)
    requires j < 8
    ensures p < 8
  {
    if order == Big then 7 - j else j
  }

  /** One byte of numpy.packbits: up to eight elements, missing ones padded with zero. */
  function PackGroup(group: seq<bool>, order: BitOrder): Byte
    requires |group| <= 8
  {
    var p := Pad8(group);
    assert Pow2(8) == 256;
    if order == Little then LittleValue(p) else LittleValue(Reverse(p))
  }

  /** Bit layout of a packed byte: element j sits at Pos(j, order); padding bits are 0. */
  lemma PackGroupBits(group: seq<bool>, order: BitOrder, j: nat)
    requires |group| <= 8 && j < 8
    ensures BitOf(PackGroup(group, order), Pos(j, order)) == (j < |group| && group[j])
  {
    var p := Pad8(group);
    if order == Little {
      BitsOfLittleValue(p, j);
    } else {
      BitsOfLittleValue(Reverse(p), 7 - j);
    }
  }

  /** One byte of numpy.unpackbits: its first n elements in the given order. */
  function UnpackGroup(b: Byte, n: nat, order: BitOrder): (g: seq<bool>)
    requires n <= 8
    ensures |g| == n
  {
    seq(n, j requires 0 <= j < n => BitOf(b, Pos(j, order)))
  }

  lemma GroupRoundTrip(group: seq<bool>, order: BitOrder)
    requires |group| <= 8
    ensures UnpackGroup(PackGroup(group, order), |group|, order) == group
  {
    forall j | 0 <= j < |group|
      ensures UnpackGroup(PackGroup(group, order), |group|, order)[j] == group[j]
    {
      PackGroupBits(group, order, j);
    }
  }

  /** A single set element packs to 0x01 under little and to 0x80 under big. */
  lemma OneElementGroup()
    ensures PackGroup([true], Little) == 0x01
    ensures PackGroup([true], Big) == 0x80
  {
    var p := Pad8([true]);
    assert p == [true, false, false, false, false, false, false, false];
    assert Reverse(p) == [false, false, false, false, false, false, false, true];
  }
}
