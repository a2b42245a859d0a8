/** Masks and packed words of libx52. A uint32_t that is only ever touched through set_bit, clr_bit
    and tst_bit (libx52/x52_common.h) is the set of its one-bits. A word is a number, and its fields
    are put together by a bitwise or. */
module Bits {
  /** A bit position of a uint32_t. */
  type Bit = b: nat | b < 32
  type Mask = set<Bit>

  /** The operator |. */
  function Or(x: nat, y: nat): nat {
    if x == 0 then y
    else if y == 0 then x
    else 2 * Or(x / 2, y / 2) + if x % 2 == 1 || y % 2 == 1 then 1 else 0
  }

  predicate BitOf(x: nat, i: nat) {
    if i == 0 then x % 2 == 1 else BitOf(x / 2, i - 1)
  }

  lemma {:induction false} ZeroHasNoBits(i: nat)
    ensures !BitOf(0, i)
  {
    if i > 0 {
      ZeroHasNoBits(i - 1);
    }
  }

  /** A bit of the or is set exactly when it is set on one of the sides. */
  lemma {:induction false} OrIsBitwise(x: nat, y: nat, i: nat)
    ensures BitOf(Or(x, y), i) <==> BitOf(x, i) || BitOf(y, i)
    decreases i
  {
    ZeroHasNoBits(i);
    if x != 0 && y != 0 && i > 0 {
      OrIsBitwise(x / 2, y / 2, i - 1);
      assert Or(x, y) / 2 == Or(x / 2, y / 2);
    }
  }

  /** The operator <<. */
  function Shl(a: nat, k: nat): nat {
    if k == 0 then a else 2 * Shl(a, k - 1)
  }

  lemma OrHalves(x: nat, y: nat)
    requires x % 2 == 0
    ensures Or(x, y) == 2 * Or(x / 2, y / 2) + y % 2
    ensures Or(y, x) == 2 * Or(y / 2, x / 2) + y % 2
  {
    OrZero(y / 2);
  }

  lemma OrZero(y: nat)
    ensures Or(0, y) == Or(y, 0) == y
  {
  }

  /** Oring a shifted field and one below it adds them. */
  lemma {:induction false} OrShifted(a: nat, k: nat, y: nat)
    requires y < Shl(1, k)
    ensures Or(Shl(a, k), y) == Or(y, Shl(a, k)) == Shl(a, k) + y
    decreases k
  {
    hide Or;
    if k == 0 {
      OrZero(a);
    } else {
      OrHalves(Shl(a, k), y);
      OrShifted(a, k - 1, y / 2);
    }
  }

  /** The shifts that the words are made of. */
  lemma Shifts(a: nat)
    ensures Shl(a, 8) == a * 0x100 && Shl(a, 10) == a * 0x400 && Shl(a, 15) == a * 0x8000
  {
    assert Shl(a, 1) == 2 * a;
    assert Shl(a, 2) == 4 * a;
    assert Shl(a, 3) == 8 * a;
    assert Shl(a, 4) == 16 * a;
    assert Shl(a, 5) == 32 * a;
    assert Shl(a, 6) == 64 * a;
    assert Shl(a, 7) == 128 * a;
    assert Shl(a, 8) == 256 * a;
    assert Shl(a, 9) == 512 * a;
    assert Shl(a, 10) == 1024 * a;
    assert Shl(a, 11) == 2048 * a;
    assert Shl(a, 12) == 4096 * a;
    assert Shl(a, 13) == 8192 * a;
    assert Shl(a, 14) == 16384 * a;
    assert Shl(a, 15) == 32768 * a;
  }

  lemma OrAt8(a: nat, y: nat)
    requires y < 0x100
    ensures Or(a * 0x100, y) == Or(y, a * 0x100) == a * 0x100 + y
  {
    hide Or, Shl;
    Shifts(1);
    Shifts(a);
    OrShifted(a, 8, y);
  }

  lemma OrAt10(a: nat, y: nat)
    requires y < 0x400
    ensures Or(a * 0x400, y) == a * 0x400 + y
  {
    hide Or, Shl;
    Shifts(1);
    Shifts(a);
    OrShifted(a, 10, y);
  }

  lemma OrAt15(a: nat, y: nat)
    requires y < 0x8000
    ensures Or(a * 0x8000, y) == a * 0x8000 + y
  {
    hide Or, Shl;
    Shifts(1);
    Shifts(a);
    OrShifted(a, 15, y);
  }

  /** The fields of an offset word put together are their sum. */
  lemma OffsetFieldsAreDisjoint(h24: nat, negative: nat, offset: nat)
    requires h24 <= 1 && negative <= 1
    ensures Or(Or(h24 * 0x8000, negative * 0x400), offset % 0x400)
         == h24 * 0x8000 + negative * 0x400 + offset % 0x400
  {
    hide Or;
    OrAt15(h24, negative * 0x400);
    OrAt10(h24 * 0x20 + negative, offset % 0x400);
    assert (h24 * 0x20 + negative) * 0x400 == h24 * 0x8000 + negative * 0x400;
  }

  /** The fields of a clock word put together are their sum. */
  lemma TimeFieldsAreDisjoint(h24: nat, hour: nat, minute: nat)
    requires h24 <= 1
    ensures Or(Or(h24 * 0x8000, hour % 0x80 * 0x100), minute % 0x100)
         == h24 * 0x8000 + hour % 0x80 * 0x100 + minute % 0x100
  {
    hide Or;
    OrAt15(h24, hour % 0x80 * 0x100);
    OrAt8(h24 * 0x80 + hour % 0x80, minute % 0x100);
    assert (h24 * 0x80 + hour % 0x80) * 0x100 == h24 * 0x8000 + hour % 0x80 * 0x100;
  }
}
