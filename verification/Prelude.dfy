/** Types shared by every component: C integer widths, and the usual option type. */
module Prelude {
  type byte = x: int | 0 <= x < 0x100
  type uint16 = x: int | 0 <= x < 0x1_0000

  datatype Option<+T> = None | Some(value: T)

  /** Conversion of a C int to uint8_t: reduction modulo 256, also for negative values. */
  function U8(x: int): byte {
    x % 0x100
  }

  /** Conversion of a C int to uint16_t. */
  function U16(x: int): uint16 {
    x % 0x1_0000
  }

  /** The C division operator, which truncates toward zero. */
  function CDiv(x: int, y: int): int
    requires y > 0
  {
    if x >= 0 then x / y else -((-x) / y)
  }

  /** The C remainder operator, whose sign follows the dividend. */
  function CRem(x: int, y: int): int
    requires y > 0
  {
    if x >= 0 then x % y else -((-x) % y)
  }

  /** U16 keeps what fits and is a reduction modulo 65536 otherwise. */
  lemma U16Keeps(x: int)
    ensures (U16(x) - x) % 0x1_0000 == 0
    ensures 0 <= x < 0x1_0000 ==> U16(x) == x
  {
  }

  /** Division and remainder belong together: the remainder is smaller than the divisor, and neither has the
      sign opposite to that of the dividend. */
  lemma CDivTruncates(x: int, y: int)
    requires y > 0
    ensures x == y * CDiv(x, y) + CRem(x, y) && -y < CRem(x, y) < y
    ensures x >= 0 ==> CDiv(x, y) >= 0 && CRem(x, y) >= 0
    ensures x <= 0 ==> CDiv(x, y) <= 0 && CRem(x, y) <= 0
  {
  }

  function Min(x: int, y: int): (r: int)
    ensures r <= x && r <= y && (r == x || r == y)
  {
    if x < y then x else y
  }

  /** The position of the first occurrence, or the length. */
  function IndexOf<T(==)>(s: seq<T>, x: T): (i: nat)
    ensures i <= |s| && (i < |s| ==> s[i] == x) && x !in s[..i]
    ensures i < |s| <==> x in s
    ensures forall k :: 0 <= k < i ==> s[k] != x
  {
    if s == [] || s[0] == x then 0 else
      assert s == [s[0]] + s[1..];
      1 + IndexOf(s[1..], x)
  }
}
