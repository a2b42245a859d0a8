/** Printing an int with "%d" and reading it back with strtol in base 0, as the configuration does
    (daemon/x52d_config_dump.c, daemon/x52d_config_parser.c). */
module Numbers {
  import opened Prelude
  import opened IniText

  const LONG_MAX := 0x7FFF_FFFF_FFFF_FFFF
  const INT_MAX := 0x7FFF_FFFF

  predicate IsInt(n: int) {
    -INT_MAX - 1 <= n <= INT_MAX
  }

  /** Conversion of a long to a 32-bit int. */
  function ToInt(n: int): (r: int)
    ensures IsInt(r)
    ensures IsInt(n) ==> r == n
  {
    var m := n % 0x1_0000_0000;
    if m > INT_MAX then m - 0x1_0000_0000 else m
  }

  lemma ToIntWraps(n: int)
    ensures (ToInt(n) - n) % 0x1_0000_0000 == 0
  {
  }

  /** The value of a digit in bases up to 16. */
  function DigitValue(c: char): Option<nat> {
    if '0' <= c <= '9' then Some(c as int - '0' as int)
    else if 'a' <= c <= 'f' then Some(c as int - 'a' as int + 10)
    else if 'A' <= c <= 'F' then Some(c as int - 'A' as int + 10)
    else None
  }

  predicate IsDigit(c: char, base: nat) {
    DigitValue(c).Some? && DigitValue(c).value < base
  }

  /** Where the digits from position i end. */
  function DigitsEnd(s: string, i: nat, base: nat): (j: nat)
    requires i <= |s|
    ensures i <= j <= |s|
    decreases |s| - i
  {
    if i < |s| && IsDigit(s[i], base) then DigitsEnd(s, i + 1, base) else i
  }

  /** The number the digits of a string spell. */
  function Magnitude(digits: string, base: nat): nat {
    if digits == "" then 0
    else
      var d := DigitValue(digits[|digits| - 1]);
      Magnitude(digits[..|digits| - 1], base) * base + if d.Some? then d.value else 0
  }

  /** The length of a hexadecimal prefix. */
  function PrefixLength(u: string): (n: nat)
    ensures n <= |u|
  {
    if |u| >= 3 && u[0] == '0' && (u[1] == 'x' || u[1] == 'X') && IsDigit(u[2], 16) then 2 else 0
  }

  /** The base that the digits behind a prefix are in. */
  function BaseOf(prefix: string, digits: string): nat {
    if prefix != "" then 16 else if digits != "" && digits[0] == '0' then 8 else 10
  }

  /** The part of strtol behind the sign, on a whole string: None without a digit or with a character left over. */
  function ParseNat(u: string): Option<nat> {
    var k := PrefixLength(u);
    var base := BaseOf(u[..k], u[k..]);
    if u[k..] == "" || DigitsEnd(u[k..], 0, base) < |u[k..]| then None else Some(Magnitude(u[k..], base))
  }

  predicate Signed(t: string) {
    t != "" && (t[0] == '-' || t[0] == '+')
  }

  /** strtol in base 0 on a whole string, as int_parser uses it: None when a character is left over or
      the number is out of range for a long. Without any digit nothing is consumed, so only the empty
      string passes, as zero. */
  function ParseInt(s: string): (r: Option<int>)
    ensures r.Some? ==> IsInt(r.value)
  {
    if s == "" then Some(0) else
      var t := LSkip(s);
      var m := ParseNat(if Signed(t) then t[1..] else t);
      if m.None? then None else
        var magnitude: int := m.value;
        var n := if t[0] == '-' then -magnitude else magnitude;
        if n > LONG_MAX || n < -LONG_MAX - 1 then None else Some(ToInt(n))
  }

  function Digit(d: nat): (c: char)
    requires d < 10
    ensures DigitValue(c) == Some(d) && '0' <= c <= '9'
  {
    '0' + d as char
  }

  function PrintNat(n: nat): (s: string)
    ensures s != "" && (n > 0 ==> s[0] != '0') && (n == 0 ==> s == "0")
    ensures forall i :: 0 <= i < |s| ==> '0' <= s[i] <= '9'
  {
    if n < 10 then [Digit(n)] else PrintNat(n / 10) + [Digit(n % 10)]
  }

  function PrintInt(n: int): string {
    if n < 0 then "-" + PrintNat(-n) else PrintNat(n)
  }

  lemma {:induction false} PrintNatMagnitude(n: nat)
    ensures Magnitude(PrintNat(n), 10) == n
  {
    if n < 10 {
      assert PrintNat(n)[..0] == "";
    } else {
      PrintNatMagnitude(n / 10);
      var s := PrintNat(n / 10) + [Digit(n % 10)];
      assert s[..|s| - 1] == PrintNat(n / 10);
    }
  }

  lemma {:induction false} AllDigits(s: string, i: nat, base: nat)
    requires i <= |s| && forall k :: 0 <= k < |s| ==> IsDigit(s[k], base)
    ensures DigitsEnd(s, i, base) == |s|
    decreases |s| - i
  {
    hide IsDigit;
    if i < |s| {
      AllDigits(s, i + 1, base);
    }
  }

  lemma ParsePrintNat(n: nat, s: string)
    requires s == PrintNat(n) && n <= LONG_MAX + 1
    ensures var base := if s[0] == '0' then 8 else 10;
            DigitsEnd(s, 0, base) == |s| && Magnitude(s, base) == n
    ensures !(|s| >= 3 && s[0] == '0')
    ensures ParseNat(s) == Some(n)
  {
    assert s[0..] == s;
    if n == 0 {
      assert s == "0" && s[..0] == "";
      assert DigitsEnd(s, 1, 8) == 1;
    } else {
      AllDigits(s, 0, 10);
      PrintNatMagnitude(n);
    }
  }

  /** The sign and the digits of a printed number, as strtol tells them apart. */
  lemma PrintIntShape(n: int)
    ensures var s, m: nat := PrintInt(n), if n < 0 then -n else n;
            && LSkip(s) == s && s != "" && s[0] != '+' && (s[0] == '-' <==> n < 0)
            && PrintNat(m) == (if n < 0 then s[1..] else s)
  {
    LSkipKeeps(PrintInt(n));
  }

  /** Every int survives printing and parsing. */
  lemma ParsePrintInt(n: int)
    requires IsInt(n)
    ensures ParseInt(PrintInt(n)) == Some(n)
  {
    hide PrintInt, PrintNat, LSkip, Magnitude, DigitsEnd, ToInt, DigitValue, ParseNat;
    var m: nat := if n < 0 then -n else n;
    ParsePrintNat(m, PrintNat(m));
    PrintIntShape(n);
  }
}
