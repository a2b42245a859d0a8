/** Which texts the configuration parsers accept and what they mean, by tables of words and by the parts of
    a number (daemon/x52d_config_parser.c). */
module Spellings {
  import opened Prelude
  import opened IniText
  import opened IniLines
  import opened Numbers
  import opened Config

  // ----- words -------------------------------------------------------------------------------

  /** The text is the word, some of its small letters written as capitals. */
  ghost predicate UpToCase(text: string, word: string) {
    && |text| == |word|
    && forall i :: 0 <= i < |word| ==>
         text[i] == word[i] || ('a' <= word[i] <= 'z' && text[i] as int == word[i] as int - 32)
  }

  ghost predicate Small(word: string) {
    forall i :: 0 <= i < |word| ==> !('A' <= word[i] <= 'Z')
  }

  lemma SameNameIsUpToCase(text: string, word: string)
    requires Small(word)
    ensures SameName(text, word) <==> UpToCase(text, word)
  {
  }

  /** The accepted words of a kind and their values. */
  function Words(kind: Kind): seq<(string, Value)> {
    match kind
    case BoolKind => [("yes", Flag(true)), ("true", Flag(true)), ("no", Flag(false)), ("false", Flag(false))]
    case LedKind =>
      [("off", Number(0)), ("on", Number(1)), ("red", Number(2)), ("amber", Number(3)), ("green", Number(4))]
    case ClockFormatKind => [("12hr", Number(0)), ("12", Number(0)), ("24hr", Number(1)), ("24", Number(1))]
    case DateFormatKind =>
      [("ddmmyy", Number(0)), ("dd-mm-yy", Number(0)), ("mmddyy", Number(1)), ("mm-dd-yy", Number(1)),
       ("yymmdd", Number(2)), ("yy-mm-dd", Number(2))]
    case _ => []
  }

  predicate Worded(kind: Kind) {
    kind != StringKind && kind != IntKind
  }

  ghost predicate Spells(kind: Kind, text: string, v: Value) {
    exists k :: 0 <= k < |Words(kind)| && UpToCase(text, Words(kind)[k].0) && v == Words(kind)[k].1
  }

  lemma WordsAreSmall(kind: Kind)
    ensures forall k :: 0 <= k < |Words(kind)| ==> Small(Words(kind)[k].0)
  {
  }

  /** The words of a kind differ in length or in their first letter. */
  lemma WordsDiffer(kind: Kind, j: nat, k: nat)
    requires j < k < |Words(kind)|
    ensures var a, b := Words(kind)[j].0, Words(kind)[k].0;
            a != "" && b != "" && (|a| != |b| || Lower(a[0]) != Lower(b[0]))
  {
  }

  lemma OneWord(kind: Kind, text: string, j: nat, k: nat)
    requires j < |Words(kind)| && k < |Words(kind)|
    requires SameName(text, Words(kind)[j].0) && SameName(text, Words(kind)[k].0)
    ensures j == k
  {
    hide Words;
    if j < k {
      WordsDiffer(kind, j, k);
    } else if k < j {
      WordsDiffer(kind, k, j);
    }
  }

  /** The position of a text among the words of its kind, or the number of words. */
  ghost function WordIndex(kind: Kind, text: string, from: nat): (k: nat)
    requires from <= |Words(kind)|
    ensures from <= k <= |Words(kind)| && (k < |Words(kind)| ==> SameName(text, Words(kind)[k].0))
    ensures forall j :: from <= j < k ==> !SameName(text, Words(kind)[j].0)
    decreases |Words(kind)| - from
  {
    if from == |Words(kind)| || SameName(text, Words(kind)[from].0) then from else WordIndex(kind, text, from + 1)
  }

  lemma SameSpelling(text: string, a: string, b: string)
    requires SameName(a, b)
    ensures SameName(text, a) <==> SameName(text, b)
  {
  }

  lemma CapitalLedWords(text: string)
    ensures SameName(text, "OFF") <==> SameName(text, "off")
    ensures SameName(text, "ON") <==> SameName(text, "on")
    ensures SameName(text, "RED") <==> SameName(text, "red")
    ensures SameName(text, "AMBER") <==> SameName(text, "amber")
    ensures SameName(text, "GREEN") <==> SameName(text, "green")
  {
    CapitalsAreTheSame();
    hide SameName;
    SameSpelling(text, "OFF", "off");
    SameSpelling(text, "ON", "on");
    SameSpelling(text, "RED", "red");
    SameSpelling(text, "AMBER", "amber");
    SameSpelling(text, "GREEN", "green");
  }

  lemma CapitalsAreTheSame()
    ensures SameName("OFF", "off") && SameName("ON", "on") && SameName("RED", "red")
    ensures SameName("AMBER", "amber") && SameName("GREEN", "green")
  {
  }

  lemma ParseIsLookup(kind: Kind, text: string)
    requires Worded(kind)
    ensures var k := WordIndex(kind, text, 0);
            Parse(kind, text) == if k < |Words(kind)| then Some(Words(kind)[k].1) else None
  {
    hide SameName;
    CapitalLedWords(text);
    var k := WordIndex(kind, text, 0);
    match kind
    case BoolKind => assert |Words(kind)| == 4;
    case LedKind => assert |Words(kind)| == 5;
    case ClockFormatKind => assert |Words(kind)| == 4;
    case DateFormatKind => assert |Words(kind)| == 6;
  }

  /** A text is accepted for a kind exactly when it is one of the words up to case, and with its value. */
  lemma ParseWords(kind: Kind, text: string, v: Value)
    requires Worded(kind)
    ensures Parse(kind, text) == Some(v) <==> Spells(kind, text, v)
  {
    hide Parse, Words, SameName, UpToCase, Small;
    ParseIsLookup(kind, text);
    WordsAreSmall(kind);
    forall k | 0 <= k < |Words(kind)|
      ensures SameName(text, Words(kind)[k].0) <==> UpToCase(text, Words(kind)[k].0)
    {
      SameNameIsUpToCase(text, Words(kind)[k].0);
    }
    var i := WordIndex(kind, text, 0);
    forall k | 0 <= k < |Words(kind)| && UpToCase(text, Words(kind)[k].0)
      ensures i == k
    {
      OneWord(kind, text, i, k);
    }
  }

  /** A string is taken as it is, up to 254 characters. */
  lemma ParseString(text: string)
    ensures Parse(StringKind, text).Some?
    ensures var v := Parse(StringKind, text).value;
            v.Chars? && v.text <= text && |v.text| == if |text| < 255 then |text| else 254
  {
  }

  // ----- numbers -----------------------------------------------------------------------------

  /** The digits, in their order. */
  lemma DigitValues(c: char, d: nat)
    ensures DigitValue(c) == Some(d) <==> d < 16 && ("0123456789abcdef"[d] == c || "0123456789ABCDEF"[d] == c)
  {
  }

  /** Digits of the base that the prefix stands for: 16 behind "0x", else 8 with a leading zero, else 10. */
  ghost predicate Digits(prefix: string, digits: string) {
    && (prefix == "" || prefix == "0x" || prefix == "0X")
    && digits != ""
    && forall i :: 0 <= i < |digits| ==> IsDigit(digits[i], BaseOf(prefix, digits))
  }

  /** A number is blanks, possibly a sign, a prefix and digits. */
  ghost predicate Numeral(s: string, blanks: string, sign: Option<char>, prefix: string, digits: string) {
    && s == blanks + WithSign(sign, prefix + digits)
    && Blank(blanks)
    && (sign == None || sign == Some('-') || sign == Some('+'))
    && Digits(prefix, digits)
  }

  function WithSign(sign: Option<char>, u: string): string {
    if sign.Some? then [sign.value] + u else u
  }

  function NumeralValue(sign: Option<char>, prefix: string, digits: string): int {
    var m: int := Magnitude(digits, BaseOf(prefix, digits));
    if sign == Some('-') then -m else m
  }

  /** A number without its last digit in base 8 or 16, and that digit. */
  function Divided(n: nat, base: nat): (r: (nat, nat))
    requires base == 8 || base == 16
    ensures n == r.0 * base + r.1 && r.1 < base && (n >= base ==> 0 < r.0 < n)
  {
    if base == 8 then (n / 8, n % 8) else (n / 16, n % 16)
  }

  function DigitOf(d: nat): (c: char)
    requires d < 16
    ensures DigitValue(c) == Some(d) && (d > 0 ==> c != '0')
  {
    "0123456789abcdef"[d]
  }

  /** The digits of a number in base 8 or 16, without leading zeros. */
  function PrintIn(n: nat, base: nat): (s: string)
    requires base == 8 || base == 16
    ensures s != "" && (n > 0 ==> s[0] != '0')
    ensures forall i :: 0 <= i < |s| ==> IsDigit(s[i], base)
    decreases n
  {
    if n < base then [DigitOf(n)] else PrintIn(Divided(n, base).0, base) + [DigitOf(Divided(n, base).1)]
  }

  lemma {:induction false} PrintInMagnitude(n: nat, base: nat)
    requires base == 8 || base == 16
    ensures Magnitude(PrintIn(n, base), base) == n
    decreases n
  {
    hide DigitOf, Divided, DigitValue;
    var s := PrintIn(n, base);
    if n < base {
      assert s[..0] == "";
    } else {
      PrintInMagnitude(Divided(n, base).0, base);
      assert s[..|s| - 1] == PrintIn(Divided(n, base).0, base);
    }
  }

  lemma {:induction false} DigitsBefore(s: string, i: nat, base: nat)
    requires i <= |s|
    ensures forall k :: i <= k < DigitsEnd(s, i, base) ==> IsDigit(s[k], base)
    decreases |s| - i
  {
    hide IsDigit;
    if i < |s| && IsDigit(s[i], base) {
      DigitsBefore(s, i + 1, base);
    }
  }

  lemma DigitIsNoSpace(c: char, base: nat)
    requires IsDigit(c, base)
    ensures !IsSpace(c) && c != '-' && c != '+' && c != 'x' && c != 'X'
  {
  }

  lemma DigitsParse(prefix: string, digits: string)
    requires Digits(prefix, digits)
    ensures ParseNat(prefix + digits) == Some(Magnitude(digits, BaseOf(prefix, digits)))
    ensures !IsSpace((prefix + digits)[0]) && !Signed(prefix + digits)
  {
    hide DigitsEnd, Magnitude, DigitValue, IsDigit;
    var u, base := prefix + digits, BaseOf(prefix, digits);
    DigitIsNoSpace(digits[0], base);
    AllDigits(digits, 0, base);
    if prefix == "" {
      assert u == digits;
      if |u| >= 2 {
        DigitIsNoSpace(u[1], base);
      }
      assert u[..0] == "" && u[0..] == digits;
    } else {
      assert u[2] == digits[0] && u[2..] == digits && u[..2] == prefix;
    }
  }

  lemma OnlyDigitsParse(u: string)
    requires ParseNat(u).Some?
    ensures Digits(u[..PrefixLength(u)], u[PrefixLength(u)..])
  {
    hide DigitsEnd, Magnitude, DigitValue, IsDigit;
    var k := PrefixLength(u);
    DigitsBefore(u[k..], 0, BaseOf(u[..k], u[k..]));
    if k == 2 {
      assert u[..2] == [u[0], u[1]];
    }
  }

  lemma SignIsRead(sign: Option<char>, u: string)
    requires u != "" && !IsSpace(u[0]) && !Signed(u)
    requires sign == None || sign == Some('-') || sign == Some('+')
    ensures var t := WithSign(sign, u);
            && t != "" && !IsSpace(t[0]) && (t[0] == '-' <==> sign == Some('-'))
            && (if Signed(t) then t[1..] else t) == u
  {
  }

  /** A numeral is accepted unless its value is out of range for a long. Ints are taken as they are, and other
      values modulo 2^32. */
  lemma NumeralParses(s: string, blanks: string, sign: Option<char>, prefix: string, digits: string)
    requires Numeral(s, blanks, sign, prefix, digits)
    ensures var n := NumeralValue(sign, prefix, digits);
            && (ParseInt(s).Some? <==> -LONG_MAX - 1 <= n <= LONG_MAX)
            && (IsInt(n) ==> ParseInt(s) == Some(n))
            && (ParseInt(s).Some? ==> (ParseInt(s).value - n) % 0x1_0000_0000 == 0)
  {
    hide Magnitude, ParseNat, BaseOf, WithSign, LSkip, IsDigit, ToInt;
    var u := prefix + digits;
    DigitsParse(prefix, digits);
    SignIsRead(sign, u);
    LSkipDrops(blanks, WithSign(sign, u));
    ToIntWraps(NumeralValue(sign, prefix, digits));
  }

  /** Nothing else is accepted but the empty string, as zero. */
  lemma OnlyNumeralsParse(s: string)
    requires ParseInt(s).Some? && s != ""
    ensures exists blanks, sign, prefix, digits :: Numeral(s, blanks, sign, prefix, digits)
  {
    hide Magnitude, ParseNat, Digits, LSkip, PrefixLength, ToInt;
    var t := LSkip(s);
    var sign := if Signed(t) then Some(t[0]) else None;
    var u := if Signed(t) then t[1..] else t;
    OnlyDigitsParse(u);
    assert t == WithSign(sign, u);
    hide WithSign, Signed;
    NumeralFound(s, s[..|s| - |t|], sign, u);
  }

  lemma NumeralFound(s: string, blanks: string, sign: Option<char>, u: string)
    requires s == blanks + WithSign(sign, u) && Blank(blanks)
    requires sign == None || sign == Some('-') || sign == Some('+')
    requires Digits(u[..PrefixLength(u)], u[PrefixLength(u)..])
    ensures exists blanks, sign, prefix, digits :: Numeral(s, blanks, sign, prefix, digits)
  {
    hide WithSign, Digits, PrefixLength;
    var k := PrefixLength(u);
    assert u == u[..k] + u[k..];
    assert Numeral(s, blanks, sign, u[..k], u[k..]);
  }

  /** Ints survive being printed in hexadecimal or octal, or with a plus sign. */
  lemma OtherNotationsParse(n: nat)
    requires n <= INT_MAX
    ensures ParseInt("0x" + PrintIn(n, 16)) == Some(n)
    ensures ParseInt("0" + PrintIn(n, 8)) == Some(n)
    ensures ParseInt("+" + PrintNat(n)) == Some(n)
  {
    hide PrintIn, PrintNat, ParseInt, Magnitude, Digits;
    HexDigits(n);
    PlainNumeral("0x", PrintIn(n, 16));
    OctalDigits(n);
    PlainNumeral("", "0" + PrintIn(n, 8));
    DecimalDigits(n);
    assert "" + ("+" + PrintNat(n)) == "+" + PrintNat(n) && "" + PrintNat(n) == PrintNat(n);
    NumeralParses("+" + PrintNat(n), "", Some('+'), "", PrintNat(n));
  }

  lemma PlainNumeral(prefix: string, digits: string)
    requires Digits(prefix, digits) && IsInt(NumeralValue(None, prefix, digits))
    ensures ParseInt(prefix + digits) == Some(NumeralValue(None, prefix, digits))
    ensures prefix == "" ==> prefix + digits == digits
  {
    hide ParseInt, Magnitude, Digits;
    assert "" + (prefix + digits) == prefix + digits;
    NumeralParses(prefix + digits, "", None, prefix, digits);
  }

  lemma HexDigits(n: nat)
    ensures Digits("0x", PrintIn(n, 16)) && NumeralValue(None, "0x", PrintIn(n, 16)) == n
  {
    hide PrintIn, IsDigit, Magnitude;
    PrintInMagnitude(n, 16);
  }

  lemma OctalDigits(n: nat)
    ensures Digits("", "0" + PrintIn(n, 8)) && NumeralValue(None, "", "0" + PrintIn(n, 8)) == n
  {
    hide PrintIn, Magnitude;
    PrintInMagnitude(n, 8);
    LeadingZero(PrintIn(n, 8));
  }

  lemma {:induction false} LeadingZero(digits: string)
    ensures Magnitude("0" + digits, 8) == Magnitude(digits, 8)
    decreases |digits|
  {
    if digits == "" {
      assert "0"[..0] == "";
    } else {
      assert ("0" + digits)[..|digits|] == "0" + digits[..|digits| - 1];
      LeadingZero(digits[..|digits| - 1]);
    }
  }

  lemma DecimalDigits(n: nat)
    requires n <= INT_MAX
    ensures Digits("", PrintNat(n)) && NumeralValue(Some('+'), "", PrintNat(n)) == n
  {
    ParsePrintNat(n, PrintNat(n));
  }
}
