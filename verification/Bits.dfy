// The bits of an octet, numbered from the top as addresses and bitmaps count them.
module Bits {
  import opened Bytes

  /** `bitmap_bits`: the blocks of an octet from the `j`th on, the first being the top bit. */
  function From(j: nat): Byte
    requires j < 8
  {
    match j
    case 0 => 0xff case 1 => 0x7f case 2 => 0x3f case 3 => 0x1f
    case 4 => 0x0f case 5 => 0x07 case 6 => 0x03 case _ => 0x01
  }

  function Mask(j: nat): Byte
    requires j < 8
  {
    match j
    case 0 => 0x80 case 1 => 0x40 case 2 => 0x20 case 3 => 0x10
    case 4 => 0x08 case 5 => 0x04 case 6 => 0x02 case _ => 0x01
  }

  predicate BitOf(x: Byte, j: nat)
    requires j < 8
  {
    x & Mask(j) != 0
  }

  lemma BitOr(x: Byte, y: Byte, j: nat)
    requires j < 8
    ensures BitOf(x | y, j) <==> BitOf(x, j) || BitOf(y, j)
  {}

  lemma BitAnd(x: Byte, y: Byte, j: nat)
    requires j < 8
    ensures BitOf(x & y, j) <==> BitOf(x, j) && BitOf(y, j)
  {}

  lemma BitNot(x: Byte, j: nat)
    requires j < 8
    ensures BitOf(!x, j) <==> !BitOf(x, j)
  {}

  lemma BitFrom(i: nat, j: nat)
    requires i < 8 && j < 8
    ensures BitOf(From(i), j) <==> i <= j
  {}

  lemma BitConst(j: nat)
    requires j < 8
    ensures BitOf(0xff, j) && !BitOf(0, j)
  {}

  /** An octet is known by its bits. */
  lemma SameBits(x: Byte, y: Byte)
    requires forall j :: 0 <= j < 8 ==> (BitOf(x, j) <==> BitOf(y, j))
    ensures x == y
  {
    assert BitOf(x, 0) <==> BitOf(y, 0);
    assert BitOf(x, 1) <==> BitOf(y, 1);
    assert BitOf(x, 2) <==> BitOf(y, 2);
    assert BitOf(x, 3) <==> BitOf(y, 3);
    assert BitOf(x, 4) <==> BitOf(y, 4);
    assert BitOf(x, 5) <==> BitOf(y, 5);
    assert BitOf(x, 6) <==> BitOf(y, 6);
    assert BitOf(x, 7) <==> BitOf(y, 7);
    BitsDecide(x, y);
  }

  lemma BitsDecide(x: Byte, y: Byte)
    requires x & 0x80 == y & 0x80 && x & 0x40 == y & 0x40 && x & 0x20 == y & 0x20 && x & 0x10 == y & 0x10
    requires x & 0x08 == y & 0x08 && x & 0x04 == y & 0x04 && x & 0x02 == y & 0x02 && x & 0x01 == y & 0x01
    ensures x == y
  {}
}
