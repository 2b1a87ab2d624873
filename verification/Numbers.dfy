/** Decimal and hexadecimal number formats, as Rust prints and parses them. */
module Numbers {
  import opened Basics

  const U32_MAX: nat := 0xFFFF_FFFF
  const USIZE_MAX: nat := 0xFFFF_FFFF
  const I32_MIN: int := -0x8000_0000
  const I32_MAX: int := 0x7FFF_FFFF

  // ---- decimal

  predicate IsDigit(c: char) {
    '0' <= c <= '9'
  }

  function DigitChar(d: nat): (c: char)
    requires d < 10
    ensures IsDigit(c) && DigitValue(c) == d
  {
    (0x30 + d) as char
  }

  function DigitValue(c: char): (d: nat)
    requires IsDigit(c)
    ensures d < 10
  {
    c as int - 0x30
  }

  predicate AllDigits(s: string) {
    forall i :: 0 <= i < |s| ==> IsDigit(s[i])
  }

  function DigitsValue(s: string): nat
    requires AllDigits(s)
  {
    if s == [] then 0 else 10 * DigitsValue(s[..|s| - 1]) + DigitValue(s[|s| - 1])
  }

  /** `{}` of an unsigned number. */
  function Decimal(n: nat): (s: string)
    ensures |s| >= 1
  {
    if n < 10 then [DigitChar(n)] else Decimal(n / 10) + [DigitChar(n % 10)]
  }

  lemma {:induction false} DecimalFacts(n: nat)
    ensures AllDigits(Decimal(n)) && DigitsValue(Decimal(n)) == n
  {
    var s := Decimal(n);
    if n < 10 {
      assert s[..0] == [];
    } else {
      DecimalFacts(n / 10);
      assert s[..|s| - 1] == Decimal(n / 10);
    }
  }

  /** `{}` of a signed number. */
  function SignedDecimal(n: int): string {
    if n < 0 then "-" + Decimal(-n) else Decimal(n)
  }

  /** `parse` into an unsigned type whose largest value is `max`: a plus sign is allowed. */
  function ParseUnsigned(s: string, max: nat): (r: Option<nat>)
    ensures r.Some? ==> r.value <= max
  {
    var digits := if s != [] && s[0] == '+' then s[1..] else s;
    if digits == [] || !AllDigits(digits) then None
    else if DigitsValue(digits) > max then None
    else Some(DigitsValue(digits))
  }

  /** `parse::<i32>`. */
  function ParseI32(s: string): (r: Option<int>)
    ensures r.Some? ==> I32_MIN <= r.value <= I32_MAX
  {
    if s != [] && s[0] == '-' then
      var digits := s[1..];
      if digits == [] || !AllDigits(digits) then None
      else
        var magnitude: int := DigitsValue(digits);
        if -magnitude < I32_MIN then None else Some(-magnitude)
    else
      var r := ParseUnsigned(s, I32_MAX);
      if r.None? then None else Some(r.value)
  }

  /** The digits are the ten characters that they look like. */
  lemma DigitsByName(d: nat)
    requires d < 10
    ensures DigitChar(d) == "0123456789"[d] && DigitValue("0123456789"[d]) == d
  {
  }

  /** `s` consists of the digits of `n`, perhaps behind zeros. */
  predicate IsNumeral(s: string, n: int) {
    s != [] && AllDigits(s) && DigitsValue(s) == n
  }

  /** `s` is a number as `parse` reads it: digits, perhaps behind a sign. */
  predicate Denotes(s: string, n: int) {
    IsNumeral(s, n) || (s != [] && s[0] == '+' && IsNumeral(s[1..], n)) || (s != [] && s[0] == '-' && IsNumeral(s[1..], -n))
  }

  /** An unsigned type takes exactly the numbers without a minus sign that it can hold. */
  lemma ParseUnsignedIff(s: string, max: nat, n: nat)
    ensures ParseUnsigned(s, max) == Some(n) <==>
            n <= max && (IsNumeral(s, n) || (s != [] && s[0] == '+' && IsNumeral(s[1..], n)))
  {
    if s != [] && s[0] == '+' {
      assert !IsDigit(s[0]);
    }
  }

  /** And `i32` exactly the numbers that it can hold. */
  lemma ParseI32Iff(s: string, n: int)
    ensures ParseI32(s) == Some(n) <==> -0x8000_0000 <= n <= 0x7FFF_FFFF && Denotes(s, n)
  {
    if s != [] && s[0] == '-' {
      assert !IsDigit(s[0]);
    } else if n >= 0 {
      ParseUnsignedIff(s, I32_MAX, n);
    }
  }

  /** A number is printed without a plus sign and without zeros in front. */
  lemma {:induction false} PrintedPlainly(n: nat)
    ensures IsNumeral(Decimal(n), n) && (Decimal(n)[0] == '0' ==> n == 0 && Decimal(n) == "0")
  {
    DecimalFacts(n);
    if n >= 10 {
      PrintedPlainly(n / 10);
      assert Decimal(n)[0] == Decimal(n / 10)[0];
    } else {
      DigitsByName(n);
    }
  }

  /** A printed number reads back as itself, exactly when the type can hold it. */
  lemma ParseOfDecimal(n: nat, max: nat)
    ensures ParseUnsigned(Decimal(n), max) == if n <= max then Some(n) else None
  {
    DecimalFacts(n);
    assert IsDigit(Decimal(n)[0]);
  }

  lemma ParseOfSignedDecimal(n: int)
    requires I32_MIN <= n <= I32_MAX
    ensures ParseI32(SignedDecimal(n)) == Some(n)
  {
    if n < 0 {
      DecimalFacts(-n);
      assert SignedDecimal(n)[1..] == Decimal(-n);
    } else {
      ParseOfDecimal(n, I32_MAX);
      DecimalFacts(n);
      assert IsDigit(Decimal(n)[0]);
    }
  }

  /** The characters a printed number is made of. */
  lemma SignedDecimalChars(n: int)
    ensures |SignedDecimal(n)| >= 1
    ensures forall i :: 0 <= i < |SignedDecimal(n)| ==> SignedDecimal(n)[i] == '-' || IsDigit(SignedDecimal(n)[i])
  {
    DecimalFacts(if n < 0 then -n else n);
  }

  // ---- hexadecimal

  function HexChar(d: nat): (c: char)
    requires d < 16
    ensures IsLowerHex(c)
  {
    if d < 10 then (0x30 + d) as char else (0x57 + d) as char
  }

  /** The value of a hex digit of either case. */
  function HexNibble(c: int): (r: Option<nat>)
    ensures r.Some? ==> r.value < 16
  {
    if 0x30 <= c <= 0x39 then Some(c - 0x30)
    else if 0x61 <= c <= 0x66 then Some(c - 0x61 + 10)
    else if 0x41 <= c <= 0x46 then Some(c - 0x41 + 10)
    else None
  }

  predicate IsLowerHex(c: char) {
    '0' <= c <= '9' || 'a' <= c <= 'f'
  }

  /** `{:02x}` of every byte in turn. */
  function HexString(b: seq<byte>): (s: string)
    ensures |s| == 2 * |b|
  {
    if b == [] then [] else [HexChar(b[0] / 16), HexChar(b[0] % 16)] + HexString(b[1..])
  }

  lemma {:induction false} HexStringAt(b: seq<byte>, i: nat)
    requires i < |b|
    ensures HexString(b)[2 * i] == HexChar(b[i] / 16) && HexString(b)[2 * i + 1] == HexChar(b[i] % 16)
  {
    if i > 0 {
      HexStringAt(b[1..], i - 1);
      assert HexString(b)[2 * i] == HexString(b[1..])[2 * (i - 1)];
      assert HexString(b)[2 * i + 1] == HexString(b[1..])[2 * (i - 1) + 1];
    }
  }

  lemma {:induction false} HexStringChars(b: seq<byte>)
    ensures forall i :: 0 <= i < |HexString(b)| ==> IsLowerHex(HexString(b)[i])
  {
    if b != [] {
      HexStringChars(b[1..]);
    }
  }

  /** `c` is the hex digit of value `d`, in either case. */
  predicate IsHexDigit(c: char, d: nat)
    requires d < 16
  {
    c == "0123456789abcdef"[d] || c == "0123456789ABCDEF"[d]
  }

  /** Digits are printed in lower case and read in either; nothing else is a digit. */
  lemma HexDigitsByName(c: char, d: nat)
    requires d < 16
    ensures HexChar(d) == "0123456789abcdef"[d]
    ensures HexNibble(c as int) == Some(d) <==> IsHexDigit(c, d)
  {
  }

  lemma NibbleOfHexChar(d: nat)
    requires d < 16
    ensures HexNibble(HexChar(d) as int) == Some(d)
  {
  }
}
