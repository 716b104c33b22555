/** The bit view of a byte shared by the 1-bit framebuffer and the LED wire
    encoding: bit 0 is the most significant bit, bit 7 the least. */
module Bits {

  /** The single-bit mask of bit `j`, most significant first. */
  function Mask(j: nat): bv8
    requires j < 8
  {
    if j == 0 then 0x80 else if j == 1 then 0x40 else if j == 2 then 0x20
    else if j == 3 then 0x10 else if j == 4 then 0x08 else if j == 5 then 0x04
    else if j == 6 then 0x02 else 0x01
  }

  /** Bit `j` of `b`, most significant first. */
  function BitOf(b: bv8, j: nat): bool
    requires j < 8
  {
    b & Mask(j) != 0
  }

  /** The eight bits of `b`, most significant first. */
  function BitsOf(b: bv8): (bits: seq<bool>)
    ensures |bits| == 8
    ensures forall j :: 0 <= j < 8 ==> bits[j] == BitOf(b, j)
  {
    seq(8, j requires 0 <= j < 8 => BitOf(b, j))
  }

  /** The byte whose bits, most significant first, are `bits`. */
  function ByteOf(bits: seq<bool>): (b: bv8)
    requires |bits| == 8
    ensures forall j :: 0 <= j < 8 ==> BitOf(b, j) == bits[j]
  {
    (if bits[0] then 0x80 else 0) | (if bits[1] then 0x40 else 0)
    | (if bits[2] then 0x20 else 0) | (if bits[3] then 0x10 else 0)
    | (if bits[4] then 0x08 else 0) | (if bits[5] then 0x04 else 0)
    | (if bits[6] then 0x02 else 0) | (if bits[7] then 0x01 else 0)
  }

  /** Reading a byte's bits and packing them again gives the byte back. */
  lemma ByteOfBitsOf(b: bv8)
    ensures ByteOf(BitsOf(b)) == b
  {
  }

  /** Two bytes that agree on every bit are equal. */
  lemma BitsDetermineByte(a: bv8, b: bv8)
    requires forall j :: 0 <= j < 8 ==> BitOf(a, j) == BitOf(b, j)
    ensures a == b
  {
    assert BitsOf(a) == BitsOf(b);
    ByteOfBitsOf(a);
    ByteOfBitsOf(b);
  }

  /** No mask is empty, and distinct bits have disjoint masks. */
  lemma MasksDisjoint(j: nat, i: nat)
    requires j < 8 && i < 8
    ensures Mask(i) != 0
    ensures i != j ==> Mask(j) & Mask(i) == 0
  {
    if i == 0 {} else if i == 1 {} else if i == 2 {} else if i == 3 {}
    else if i == 4 {} else if i == 5 {} else if i == 6 {} else {}
  }

  /** Setting or clearing a nonempty mask sets or clears what it covers. */
  lemma OwnMask(b: bv8, m: bv8)
    requires m != 0
    ensures (b | m) & m != 0
    ensures (b & !m) & m == 0
  {
  }

  /** Setting a mask leaves the bits of a disjoint mask alone. */
  lemma OrOtherMask(b: bv8, m: bv8, n: bv8)
    requires m & n == 0
    ensures ((b | m) & n != 0) == (b & n != 0)
  {
  }

  /** Clearing a mask leaves the bits of a disjoint mask alone. */
  lemma AndNotOtherMask(b: bv8, m: bv8, n: bv8)
    requires m & n == 0
    ensures ((b & !m) & n != 0) == (b & n != 0)
  {
  }

  /** Setting or clearing bit `j` sets or clears it. */
  lemma MaskHit(b: bv8, j: nat)
    requires j < 8
    ensures BitOf(b | Mask(j), j) && !BitOf(b & !Mask(j), j)
  {
    MasksDisjoint(j, j);
    OwnMask(b, Mask(j));
  }

  /** Setting bit `j` leaves every other bit as it was. */
  lemma SetMiss(b: bv8, j: nat, i: nat)
    requires j < 8 && i < 8 && i != j
    ensures BitOf(b | Mask(j), i) == BitOf(b, i)
  {
    MasksDisjoint(j, i);
    OrOtherMask(b, Mask(j), Mask(i));
  }

  /** Clearing bit `j` leaves every other bit as it was. */
  lemma ClearMiss(b: bv8, j: nat, i: nat)
    requires j < 8 && i < 8 && i != j
    ensures BitOf(b & !Mask(j), i) == BitOf(b, i)
  {
    MasksDisjoint(j, i);
    AndNotOtherMask(b, Mask(j), Mask(i));
  }

  /** `b` with bit `j` forced to `v` and every other bit kept. */
  function SetBit(b: bv8, j: nat, v: bool): (r: bv8)
    requires j < 8
    ensures BitOf(r, j) == v
    ensures forall i :: 0 <= i < 8 && i != j ==> BitOf(r, i) == BitOf(b, i)
  {
    var r := if v then b | Mask(j) else b & !Mask(j);
    MaskHit(b, j);
    forall i | 0 <= i < 8 && i != j
      ensures BitOf(r, i) == BitOf(b, i)
    {
      SetMiss(b, j, i);
      ClearMiss(b, j, i);
    }
    r
  }

  /** The firmware's shifted masks `1 << (7 - j)` are the masks above. */
  lemma ShiftedOneIsMask(j: nat)
    requires j < 8
    ensures (1 as bv8) << (7 - j) == Mask(j)
  {
    if j == 0 {} else if j == 1 {} else if j == 2 {} else if j == 3 {}
    else if j == 4 {} else if j == 5 {} else if j == 6 {} else {}
  }

  /** The firmware's bit test `(b >> (7 - j)) & 1 != 0` reads bit `j`. */
  lemma ShiftedTestIsBit(b: bv8, j: nat)
    requires j < 8
    ensures ((b >> (7 - j)) & 1 != 0) == BitOf(b, j)
  {
    if j == 0 {} else if j == 1 {} else if j == 2 {} else if j == 3 {}
    else if j == 4 {} else if j == 5 {} else if j == 6 {} else {}
  }

  /** The firmware's copy of one pixel: test bit `sj` of `src` with a shift, then
      set or clear bit `dj` of `dest` with a shifted mask. */
  method CopyBit(src: bv8, sj: nat, dest: bv8, dj: nat) returns (r: bv8)
    requires sj < 8 && dj < 8
    ensures r == SetBit(dest, dj, BitOf(src, sj))
  {
    var on := (src >> (7 - sj)) & 1 != 0;
    var mask := (1 as bv8) << (7 - dj);
    ShiftedTestIsBit(src, sj);
    ShiftedOneIsMask(dj);
    if on {
      r := dest | mask;
    } else {
      r := dest & !mask;
    }
  }
}
