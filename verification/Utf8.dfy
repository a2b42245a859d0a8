/** UTF-8 as RFC 3629 defines it: section 3 for the encoding, section 4 for the byte ranges. */
module Utf8 {
  import opened Prelude

  /** A Unicode scalar value: no surrogates, at most U+10FFFF. */
  type Scalar = c: nat | c <= 0x10FFFF && !(0xD800 <= c <= 0xDFFF)

  predicate IsScalar(c: int) {
    0 <= c <= 0x10FFFF && !(0xD800 <= c <= 0xDFFF)
  }

  predicate Continuation(b: byte) {
    0x80 <= b < 0xC0
  }

  function Encode(c: Scalar): (s: seq<byte>)
    ensures 1 <= |s| <= 4
  {
    if c < 0x80 then [c]
    else if c < 0x800 then [0xC0 + c / 0x40, 0x80 + c % 0x40]
    else if c < 0x10000 then [0xE0 + c / 0x1000, 0x80 + c / 0x40 % 0x40, 0x80 + c % 0x40]
    else [0xF0 + c / 0x40000, 0x80 + c / 0x1000 % 0x40, 0x80 + c / 0x40 % 0x40, 0x80 + c % 0x40]
  }

  /** The number of bytes a lead byte announces. */
  function Announced(lead: byte): nat {
    if lead < 0x80 then 1 else if lead < 0xE0 then 2 else if lead < 0xF0 then 3 else 4
  }

  /** The payload of a byte above the marker bits that start at `base`. */
  function Payload(b: int, base: int): int {
    b - base
  }

  function Decode(s: seq<byte>): int
    requires 1 <= |s| <= 4
  {
    if |s| == 1 then s[0]
    else if |s| == 2 then Payload(s[0], 0xC0) * 0x40 + Payload(s[1], 0x80)
    else if |s| == 3 then Payload(s[0], 0xE0) * 0x1000 + Payload(s[1], 0x80) * 0x40 + Payload(s[2], 0x80)
    else Payload(s[0], 0xF0) * 0x40000 + Payload(s[1], 0x80) * 0x1000 + Payload(s[2], 0x80) * 0x40 + Payload(s[3], 0x80)
  }

  /** The shape of an encoding: a lead byte that is no continuation byte and announces the length,
      then continuation bytes. */
  lemma EncodeShape(c: Scalar)
    ensures !Continuation(Encode(c)[0]) && |Encode(c)| == Announced(Encode(c)[0])
    ensures forall i :: 1 <= i < |Encode(c)| ==> Continuation(Encode(c)[i])
    ensures Encode(c)[0] == 0 <==> c == 0
    ensures |Encode(c)| > 1 ==> Encode(c)[0] >= 0xC0
  {
  }

  lemma DecodeEncode(c: Scalar)
    ensures Decode(Encode(c)) == c
  {
    assert c == c / 0x40 * 0x40 + c % 0x40;
    assert c / 0x40 == c / 0x1000 * 0x40 + c / 0x40 % 0x40;
    assert c / 0x1000 == c / 0x40000 * 0x40 + c / 0x1000 % 0x40;
  }

  /** No encoding is a prefix of another one. */
  lemma PrefixFree(c: Scalar, d: Scalar)
    requires Encode(c) <= Encode(d)
    ensures c == d
  {
    EncodeShape(c);
    EncodeShape(d);
    assert Encode(c)[0] == Encode(d)[0];
    assert Encode(c) == Encode(d);
    DecodeEncode(c);
    DecodeEncode(d);
  }

  /** Bytewise lexicographic order. */
  predicate Before(s: seq<byte>, t: seq<byte>) {
    if s == [] || t == [] then s == [] && t != []
    else s[0] < t[0] || (s[0] == t[0] && Before(s[1..], t[1..]))
  }

  lemma BeforeAt(s: seq<byte>, t: seq<byte>, k: nat)
    requires k < |s| && k < |t| && s[..k] == t[..k] && s[k] < t[k]
    ensures Before(s, t)
  {
    if k > 0 {
      assert s[0] == s[..k][0] == t[0];
      assert s[1..][..k - 1] == s[..k][1..] && t[1..][..k - 1] == t[..k][1..];
      BeforeAt(s[1..], t[1..], k - 1);
    }
  }

  /** Encodings sort like the characters they encode (section 1 of RFC 3629). */
  lemma EncodePreservesOrder(c: Scalar, d: Scalar)
    requires c < d
    ensures Before(Encode(c), Encode(d))
  {
    hide Before;
    var s, t := Encode(c), Encode(d);
    if s[0] < t[0] {
      BeforeAt(s, t, 0);
    } else {
      LeadsAgree(c, d);
      if s[1] < t[1] {
        assert s[..1] == [s[0]] && t[..1] == [t[0]];
        BeforeAt(s, t, 1);
      } else if s[2] < t[2] {
        assert s[..2] == [s[0], s[1]] && t[..2] == [t[0], t[1]];
        BeforeAt(s, t, 2);
      } else {
        assert s[..3] == [s[0], s[1], s[2]] && t[..3] == [t[0], t[1], t[2]];
        BeforeAt(s, t, 3);
      }
    }
  }

  lemma QuotientsGrow(c: nat, d: nat)
    requires c <= d
    ensures c / 0x40 <= d / 0x40
    ensures c / 0x40 == d / 0x40 ==> c % 0x40 <= d % 0x40 && (c % 0x40 == d % 0x40 ==> c == d)
  {
  }

  lemma Quotients(c: nat)
    ensures c / 0x1000 == c / 0x40 / 0x40 && c / 0x40000 == c / 0x1000 / 0x40
  {
  }

  /** A smaller character without a smaller lead byte has an encoding of the same length, in which the first
      difference is a smaller byte. */
  lemma LeadsAgree(c: Scalar, d: Scalar)
    requires c < d && Encode(c)[0] >= Encode(d)[0]
    ensures var s, t := Encode(c), Encode(d);
            && |s| == |t| > 1 && s[0] == t[0] && s[1] <= t[1]
            && (s[1] == t[1] ==> |s| > 2 && s[2] <= t[2] && (s[2] == t[2] ==> |s| > 3 && s[3] < t[3]))
  {
    SameLength(c, d);
    Quotients(c);
    Quotients(d);
    QuotientsGrow(c, d);
    QuotientsGrow(c / 0x40, d / 0x40);
    if 0x800 <= c {
      QuotientsGrow(c / 0x1000, d / 0x1000);
    }
  }

  lemma SameLength(c: Scalar, d: Scalar)
    requires c < d && Encode(c)[0] >= Encode(d)[0]
    ensures |Encode(c)| == |Encode(d)| > 1
  {
    EncodeShape(c);
    EncodeShape(d);
  }

  /** A text, byte for byte. */
  function EncodeAll(cs: seq<Scalar>): seq<byte> {
    if cs == [] then [] else Encode(cs[0]) + EncodeAll(cs[1..])
  }

  /** A text without U+0000 has no zero byte. */
  lemma {:induction false} NoZeroByte(cs: seq<Scalar>)
    requires forall k :: 0 <= k < |cs| ==> cs[k] != 0
    ensures forall i :: 0 <= i < |EncodeAll(cs)| ==> EncodeAll(cs)[i] != 0
  {
    if cs != [] {
      EncodeShape(cs[0]);
      NoZeroByte(cs[1..]);
    }
  }
}
