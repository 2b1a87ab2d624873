/** Which texts Python's `int(text, 16)` takes for which numbers, said without reading them. */
module HexSyntax {
  import opened Basics
  import Division
  import opened Numbers
  import opened PythonHex

  // ---- digits

  /** The digits of a text, without the underscores between them. */
  function Digits(s: seq<byte>): (d: seq<byte>)
    ensures |d| <= |s|
  {
    if s == [] then []
    else Digits(s[..|s| - 1]) + if s[|s| - 1] == 0x5F then [] else [s[|s| - 1]]
  }

  predicate IsNibble(b: byte) {
    0x30 <= b <= 0x39 || 0x41 <= b <= 0x46 || 0x61 <= b <= 0x66
  }

  /** Digits, with single underscores between them. */
  predicate Placed(s: seq<byte>) {
    && s != [] && s[0] != 0x5F && s[|s| - 1] != 0x5F
    && forall i :: 0 <= i < |s| ==> PlacedAt(s, i)
  }

  /** A digit, or an underscore behind something else. */
  predicate PlacedAt(s: seq<byte>, i: nat)
    requires i < |s|
  {
    IsNibble(s[i]) || (s[i] == 0x5F && (i == 0 || s[i - 1] != 0x5F))
  }

  /** Character `i` is the digit of `n` at its place, the highest first. */
  predicate DigitAt(d: seq<byte>, i: nat, n: nat)
    requires i < |d|
  {
    IsHexDigit(d[i] as char, n / Pow16(|d| - 1 - i) % 16)
  }

  /** These digits are those of `n`. */
  predicate AreDigits(d: seq<byte>, n: nat) {
    n < Pow16(|d|) && forall i :: 0 <= i < |d| ==> DigitAt(d, i, n)
  }

  /** Digits that denote `n`. */
  predicate Denote(s: seq<byte>, n: nat) {
    Placed(s) && AreDigits(Digits(s), n)
  }

  lemma NibbleIff(b: byte)
    ensures IsNibble(b) <==> HexNibble(b).Some?
    ensures b == 0x5F ==> HexNibble(b) == None
  {
  }

  /** Whether a text is placed right can be seen from its end. */
  lemma PlacedFromEnd(s: seq<byte>, front: seq<byte>)
    requires |s| >= 2 && front == s[..if s[|s| - 2] == 0x5F then |s| - 2 else |s| - 1]
    ensures Placed(s) <==> IsNibble(s[|s| - 1]) && Placed(front)
  {
    forall i | 0 <= i < |front|
      ensures PlacedAt(front, i) <==> PlacedAt(s, i)
    {
    }
    if Placed(s) {
      assert PlacedAt(s, |s| - 1);
      assert PlacedAt(s, |s| - 2);
      assert |s| >= 3 ==> PlacedAt(s, |s| - 3);
    } else if IsNibble(s[|s| - 1]) && Placed(front) {
      assert forall i :: |front| <= i < |s| ==> PlacedAt(s, i);
    }
  }

  lemma DigitsFromEnd(s: seq<byte>, front: seq<byte>)
    requires |s| >= 2 && s[|s| - 1] != 0x5F && front == s[..if s[|s| - 2] == 0x5F then |s| - 2 else |s| - 1]
    ensures Digits(s) == Digits(front) + [s[|s| - 1]]
  {
    var most := s[..|s| - 1];
    if s[|s| - 2] == 0x5F {
      assert most[..|most| - 1] == front && most[|most| - 1] == 0x5F;
      assert Digits(most) == Digits(front) + [];
    }
  }

  lemma OneDigitMore(d: seq<byte>, c: byte, n: nat)
    ensures AreDigits(d + [c], n) <==> IsHexDigit(c as char, n % 16) && AreDigits(d, n / 16)
  {
    var all := d + [c];
    assert Pow16(|all|) == 16 * Pow16(|d|);
    BelowIff(n, Pow16(|d|));
    LastPlace(d, c, n, all);
    forall i | 0 <= i < |d|
      ensures DigitAt(all, i, n) <==> DigitAt(d, i, n / 16)
    {
      OtherPlace(d, c, n, all, i);
    }
  }

  lemma LastPlace(d: seq<byte>, c: byte, n: nat, all: seq<byte>)
    requires all == d + [c]
    ensures DigitAt(all, |d|, n) <==> IsHexDigit(c as char, n % 16)
  {
    assert all[|d|] == c && Pow16(0) == 1;
  }

  lemma OtherPlace(d: seq<byte>, c: byte, n: nat, all: seq<byte>, i: nat)
    requires all == d + [c] && i < |d|
    ensures DigitAt(all, i, n) <==> DigitAt(d, i, n / 16)
  {
    var k := |d| - 1 - i;
    assert all[i] == d[i] && Pow16(k + 1) == 16 * Pow16(k);
    Division.DivideTwice(n, 16, Pow16(k));
  }

  lemma BelowIff(n: nat, p: nat)
    ensures n < 16 * p <==> n / 16 < p
  {
  }

  lemma OneCharacter(b: byte, n: nat)
    ensures HexValue([b]) == Some(n) <==> Denote([b], n)
  {
    NibbleIff(b);
    PlacedOne(b, [b]);
    if b != 0x5F {
      assert [b][..0] == [] && Digits([b]) == [] + [b];
      OneDigitMore([], b, n);
      NoDigits(n / 16);
      HexDigitsByName(b as char, n % 16);
      Whole(n, 0, n % 16);
    }
  }

  lemma PlacedOne(b: byte, s: seq<byte>)
    requires s == [b]
    ensures Placed(s) <==> IsNibble(b)
  {
    assert PlacedAt(s, 0) <==> IsNibble(b) || b == 0x5F;
  }

  lemma NoDigits(n: nat)
    ensures AreDigits([], n) <==> n == 0
  {
    assert Pow16(0) == 1;
  }

  lemma {:induction false} HexValueIff(s: seq<byte>, n: nat)
    ensures HexValue(s) == Some(n) <==> Denote(s, n)
    decreases |s|
  {
    if |s| == 1 {
      assert s == [s[0]];
      OneCharacter(s[0], n);
    } else if |s| >= 2 {
      var front := s[..if s[|s| - 2] == 0x5F then |s| - 2 else |s| - 1];
      HexValueIff(front, n / 16);
      LastDigit(s, front, n);
    }
  }

  lemma LastDigit(s: seq<byte>, front: seq<byte>, n: nat)
    requires |s| >= 2 && front == s[..if s[|s| - 2] == 0x5F then |s| - 2 else |s| - 1]
    requires HexValue(front) == Some(n / 16) <==> Denote(front, n / 16)
    ensures HexValue(s) == Some(n) <==> Denote(s, n)
  {
    var c := s[|s| - 1];
    NibbleIff(c);
    PlacedFromEnd(s, front);
    ValueOfMore(s, front, n);
    if c != 0x5F {
      DigitsFromEnd(s, front);
      OneDigitMore(Digits(front), c, n);
      HexDigitsByName(c as char, n % 16);
    }
  }

  lemma ValueOfMore(s: seq<byte>, front: seq<byte>, n: nat)
    requires |s| >= 2 && front == s[..if s[|s| - 2] == 0x5F then |s| - 2 else |s| - 1]
    ensures HexValue(s) == Some(n) <==> HexNibble(s[|s| - 1]) == Some(n % 16) && HexValue(front) == Some(n / 16)
  {
    var d, more := HexNibble(s[|s| - 1]), HexValue(front);
    if d.Some? && more.Some? {
      Whole(n, more.value, d.value);
    }
  }

  lemma Whole(n: nat, q: nat, r: nat)
    requires r < 16
    ensures n == 16 * q + r <==> n / 16 == q && n % 16 == r
  {
  }

  // ---- whole texts

  predicate AllBlank(s: seq<byte>) {
    forall i :: 0 <= i < |s| ==> s[i] in {9, 10, 11, 12, 13, 32}
  }

  /** Nothing, or "0x" in either case, with or without an underscore behind it. */
  predicate IsPrefix(p: seq<byte>) {
    p in {[], [0x30, 0x78], [0x30, 0x58], [0x30, 0x78, 0x5F], [0x30, 0x58, 0x5F]}
  }

  /** Blanks, a sign, a prefix, digits and blanks again; all but the digits may be missing. */
  ghost predicate Says(text: seq<byte>, n: int, left: seq<byte>, sign: seq<byte>, prefix: seq<byte>, digits: seq<byte>, right: seq<byte>) {
    && text == left + (sign + (prefix + digits)) + right && AllBlank(left) && AllBlank(right) && IsPrefix(prefix)
    && (((sign == [] || sign == [0x2B]) && n >= 0 && Denote(digits, n)) || (sign == [0x2D] && n <= 0 && Denote(digits, -n)))
  }

  lemma {:induction false} StripLeftOf(blank: seq<byte>, s: seq<byte>)
    requires AllBlank(blank) && s != [] && !IsBlank(s[0])
    ensures StripLeft(blank + s) == s
  {
    if blank == [] {
      assert [] + s == s;
    } else {
      assert (blank + s)[0] == blank[0] && (blank + s)[1..] == blank[1..] + s;
      StripLeftOf(blank[1..], s);
    }
  }

  lemma {:induction false} StripRightOf(s: seq<byte>, blank: seq<byte>)
    requires AllBlank(blank) && s != [] && !IsBlank(s[|s| - 1])
    ensures StripRight(s + blank) == s
    decreases |blank|
  {
    if blank == [] {
      assert s + [] == s;
    } else {
      var all, less := s + blank, blank[..|blank| - 1];
      assert all[|all| - 1] == blank[|blank| - 1] && all[..|all| - 1] == s + less;
      StripRightOf(s, less);
    }
  }

  lemma {:induction false} LeftBlanks(s: seq<byte>) returns (blank: seq<byte>)
    ensures AllBlank(blank) && s == blank + StripLeft(s)
  {
    if s != [] && IsBlank(s[0]) {
      var more := LeftBlanks(s[1..]);
      blank := [s[0]] + more;
    } else {
      blank := [];
    }
  }

  lemma {:induction false} RightBlanks(s: seq<byte>) returns (blank: seq<byte>)
    ensures AllBlank(blank) && s == StripRight(s) + blank
  {
    if s != [] && IsBlank(s[|s| - 1]) {
      var more := RightBlanks(s[..|s| - 1]);
      blank := more + [s[|s| - 1]];
    } else {
      blank := [];
    }
  }

  /** Digits begin and end with a digit, which is neither blank nor a sign, and not with a prefix. */
  lemma DigitsAreBare(s: seq<byte>)
    requires Placed(s)
    ensures !IsBlank(s[0]) && !IsBlank(s[|s| - 1]) && s[0] != 0x2B && s[0] != 0x2D && s[0] != 0x5F && !HasPrefix(s)
  {
    assert PlacedAt(s, 0) && PlacedAt(s, |s| - 1);
    assert |s| >= 2 ==> PlacedAt(s, 1);
  }

  lemma UnprefixedIs(prefix: seq<byte>, digits: seq<byte>)
    requires IsPrefix(prefix) && Placed(digits)
    ensures Unprefixed(prefix + digits) == digits
  {
    DigitsAreBare(digits);
    var s := prefix + digits;
    assert prefix == [] ==> s == digits;
    assert |prefix| >= 2 ==> s[0] == prefix[0] && s[1] == prefix[1];
    assert |prefix| == 2 ==> s[2] == digits[0] && s[2..] == digits;
    assert |prefix| == 3 ==> s[2] == prefix[2] && s[3..] == digits;
  }

  lemma PrefixOf(s: seq<byte>) returns (prefix: seq<byte>)
    ensures IsPrefix(prefix) && s == prefix + Unprefixed(s)
  {
    prefix := s[..|s| - |Unprefixed(s)|];
    assert |prefix| == 2 ==> prefix == [s[0], s[1]];
    assert |prefix| == 3 ==> prefix == [s[0], s[1], s[2]];
  }

  lemma UnsignedEnds(prefix: seq<byte>, digits: seq<byte>, u: seq<byte>)
    requires IsPrefix(prefix) && Placed(digits) && u == prefix + digits
    ensures u != [] && !IsBlank(u[0]) && !IsBlank(u[|u| - 1]) && u[0] != 0x2B && u[0] != 0x2D
  {
    DigitsAreBare(digits);
    assert u[|u| - 1] == digits[|digits| - 1];
    assert u[0] == if prefix == [] then digits[0] else prefix[0];
  }

  lemma StrippedIs(left: seq<byte>, m: seq<byte>, right: seq<byte>)
    requires AllBlank(left) && AllBlank(right) && m != [] && !IsBlank(m[0]) && !IsBlank(m[|m| - 1])
    ensures StripRight(StripLeft(left + m + right)) == m
  {
    Associative(left, m, right);
    StripLeftOf(left, m + right);
    StripRightOf(m, right);
  }

  /** What is read behind the blanks. */
  lemma MiddleIsRead(m: seq<byte>, n: int, sign: seq<byte>, u: seq<byte>, digits: seq<byte>)
    requires m == sign + u && u != [] && u[0] != 0x2B && u[0] != 0x2D && Unprefixed(u) == digits
    requires ((sign == [] || sign == [0x2B]) && n >= 0 && HexValue(digits) == Some(n))
          || (sign == [0x2D] && n <= 0 && HexValue(digits) == Some(-n))
    ensures Unblanked(m) == Some(n)
  {
    assert sign == [] ==> m == u;
    assert sign != [] ==> m[1..] == u && m[0] == sign[0];
  }

  /** `ParseHex` of a text without blanks at its ends. */
  function Unblanked(m: seq<byte>): Option<int> {
    if m != [] && (m[0] == PLUS || m[0] == MINUS) then
      var v := HexValue(Unprefixed(m[1..]));
      if v.None? then None
      else
        var n: int := v.value;
        Some(if m[0] == MINUS then -n else n)
    else
      HexValue(Unprefixed(m))
  }

  lemma ParsedIsUnblanked(text: seq<byte>)
    ensures ParseHex(text) == Unblanked(StripRight(StripLeft(text)))
  {
  }

  lemma SaidIsRead(text: seq<byte>, n: int, left: seq<byte>, sign: seq<byte>, prefix: seq<byte>, digits: seq<byte>, right: seq<byte>)
    requires Says(text, n, left, sign, prefix, digits, right)
    ensures ParseHex(text) == Some(n)
  {
    var u, m := prefix + digits, sign + (prefix + digits);
    UnsignedEnds(prefix, digits, u);
    UnprefixedIs(prefix, digits);
    HexValueIff(digits, if sign == [0x2D] then -n else n);
    MiddleIsRead(m, n, sign, u, digits);
    SignedEnds(sign, u, m);
    StrippedIs(left, m, right);
    ParsedIsUnblanked(text);
  }

  lemma SignedEnds(sign: seq<byte>, u: seq<byte>, m: seq<byte>)
    requires sign in {[], [0x2B], [0x2D]} && m == sign + u && u != [] && !IsBlank(u[0]) && !IsBlank(u[|u| - 1])
    ensures m != [] && !IsBlank(m[0]) && !IsBlank(m[|m| - 1])
  {
    assert m[|m| - 1] == u[|u| - 1] && m[0] == if sign == [] then u[0] else sign[0];
  }

  lemma MiddleIsSaid(m: seq<byte>, n: int) returns (sign: seq<byte>, u: seq<byte>)
    requires Unblanked(m) == Some(n)
    ensures m == sign + u
    ensures ((sign == [] || sign == [0x2B]) && n >= 0 && HexValue(Unprefixed(u)) == Some(n))
         || (sign == [0x2D] && n <= 0 && HexValue(Unprefixed(u)) == Some(-n))
  {
    if m != [] && (m[0] == PLUS || m[0] == MINUS) {
      sign, u := [m[0]], m[1..];
    } else {
      sign, u := [], m;
    }
  }

  lemma ReadIsSaid(text: seq<byte>, n: int)
    requires ParseHex(text) == Some(n)
    ensures exists left, sign, prefix, digits, right :: Says(text, n, left, sign, prefix, digits, right)
  {
    ParsedIsUnblanked(text);
    var left := LeftBlanks(text);
    var right := RightBlanks(StripLeft(text));
    var m := StripRight(StripLeft(text));
    Associative(left, m, right);
    var sign, u := MiddleIsSaid(m, n);
    var prefix := PrefixOf(u);
    var digits := Unprefixed(u);
    HexValueIff(digits, if sign == [0x2D] then -n else n);
    assert Says(text, n, left, sign, prefix, digits, right);
  }

  /**
   What is read as which number, for every text: digits of either case, with single underscores
   between them, behind an optional sign and an optional prefix, and with blanks around it all.
   */
  lemma ParseHexIff(text: seq<byte>, n: int)
    ensures ParseHex(text) == Some(n) <==>
            exists left, sign, prefix, digits, right :: Says(text, n, left, sign, prefix, digits, right)
  {
    if ParseHex(text) == Some(n) {
      ReadIsSaid(text, n);
    }
    if left, sign, prefix, digits, right :| Says(text, n, left, sign, prefix, digits, right) {
      SaidIsRead(text, n, left, sign, prefix, digits, right);
    }
  }
}
