/** Python's `int(text, 16)` on bytes, and its `08X` format. */
module PythonHex {
  import opened Basics
  import Division
  import opened Numbers

  const UNDERSCORE: byte := 0x5F
  const PLUS: byte := 0x2B
  const MINUS: byte := 0x2D
  const ZERO: byte := 0x30

  function Pow16(n: nat): (p: nat)
    ensures p >= 1
  {
    if n == 0 then 1 else 16 * Pow16(n - 1)
  }

  predicate IsBlank(b: byte) {
    9 <= b <= 13 || b == 0x20
  }

  function StripLeft(s: seq<byte>): (t: seq<byte>)
    ensures |t| <= |s|
  {
    if s != [] && IsBlank(s[0]) then StripLeft(s[1..]) else s
  }

  function StripRight(s: seq<byte>): (t: seq<byte>)
    ensures |t| <= |s|
  {
    if s != [] && IsBlank(s[|s| - 1]) then StripRight(s[..|s| - 1]) else s
  }

  /** Hex digits of either case, with single underscores allowed between them. */
  function HexValue(s: seq<byte>): Option<nat>
    decreases |s|
  {
    var n := |s|;
    if n == 0 then None
    else
      var d := HexNibble(s[n - 1]);
      if d.None? then None
      else if n == 1 then d
      else
        var more := HexValue(if s[n - 2] == UNDERSCORE then s[..n - 2] else s[..n - 1]);
        if more.None? then None else Some(16 * more.value + d.value)
  }

  predicate HasPrefix(s: seq<byte>) {
    |s| >= 2 && s[0] == ZERO && (s[1] == 0x78 || s[1] == 0x58)
  }

  function Unprefixed(s: seq<byte>): (t: seq<byte>)
    ensures |t| <= |s|
  {
    if !HasPrefix(s) then s
    else if |s| >= 3 && s[2] == UNDERSCORE then s[3..]
    else s[2..]
  }

  function ParseHex(text: seq<byte>): Option<int> {
    var s := StripRight(StripLeft(text));
    if s != [] && (s[0] == PLUS || s[0] == MINUS) then
      var v := HexValue(Unprefixed(s[1..]));
      if v.None? then None
      else
        var n: int := v.value;
        Some(if s[0] == MINUS then -n else n)
    else
      HexValue(Unprefixed(s))
  }

  function UpperHexChar(d: nat): byte
    requires d < 16
  {
    if d < 10 then ZERO + d else 0x37 + d
  }

  /** The digits of `v`, at least `width` of them. */
  function Hex(v: nat, width: nat): (s: seq<byte>)
    ensures |s| >= width
  {
    if v == 0 && width == 0 then []
    else Hex(v / 16, if width == 0 then 0 else width - 1) + [UpperHexChar(v % 16)]
  }

  function FormatHex8(v: int): seq<byte> {
    if v >= 0 then Hex(v, 8) else [MINUS] + Hex(-v, 7)
  }

  /** The numbers that fit into eight characters. */
  predicate FitsField(v: int) {
    -0x1000_0000 < v < TWO_32
  }

  lemma {:induction false} HexWidth(v: nat, width: nat)
    requires v < Pow16(width)
    ensures |Hex(v, width)| == width
  {
    if width > 0 {
      HexWidth(v / 16, width - 1);
    }
  }

  predicate UpperHex(b: byte) {
    ZERO <= b <= 0x39 || 0x41 <= b <= 0x46
  }

  lemma {:induction false} HexDigitsOnly(v: nat, width: nat)
    ensures forall i :: 0 <= i < |Hex(v, width)| ==> UpperHex(Hex(v, width)[i])
  {
    if !(v == 0 && width == 0) {
      HexDigitsOnly(v / 16, if width == 0 then 0 else width - 1);
    }
  }

  lemma {:induction false} HexValueOfHex(v: nat, width: nat)
    requires width >= 1
    ensures HexValue(Hex(v, width)) == Some(v)
  {
    var s, w := Hex(v, width), width - 1;
    HexDigitsOnly(v, width);
    assert s[..|s| - 1] == Hex(v / 16, w);
    if w >= 1 {
      HexValueOfHex(v / 16, w);
    } else if v / 16 > 0 {
      assert Hex(v / 16, 0) == Hex(v / 16, 1);
      HexValueOfHex(v / 16, 1);
    }
  }

  lemma NoBlanksToStrip(s: seq<byte>)
    requires s != [] && !IsBlank(s[0]) && !IsBlank(s[|s| - 1])
    ensures StripRight(StripLeft(s)) == s
  {
  }

  lemma FormatWidth(v: int)
    requires FitsField(v)
    ensures |FormatHex8(v)| == 8
  {
    Pow16Of8();
    if v >= 0 {
      HexWidth(v, 8);
    } else {
      HexWidth(-v, 7);
    }
  }

  lemma Pow16Of8()
    ensures Pow16(7) == 0x1000_0000 && Pow16(8) == TWO_32
  {
    assert Pow16(2) == 256;
    assert Pow16(4) == 0x1_0000;
    assert Pow16(6) == 0x100_0000;
  }

  lemma UnprefixedHex(s: seq<byte>)
    requires forall i :: 0 <= i < |s| ==> UpperHex(s[i])
    ensures Unprefixed(s) == s
  {
  }

  lemma DigitsReadBack(m: nat, width: nat, s: seq<byte>)
    requires width >= 1 && s == Hex(m, width)
    ensures HexValue(Unprefixed(s)) == Some(m)
    ensures s != [] && UpperHex(s[0]) && UpperHex(s[|s| - 1])
  {
    HexDigitsOnly(m, width);
    HexValueOfHex(m, width);
    UnprefixedHex(s);
  }

  /** Every number reads back as it was printed. */
  lemma ParseOfFormat(v: int)
    ensures ParseHex(FormatHex8(v)) == Some(v)
  {
    if v >= 0 {
      DigitsReadBack(v, 8, FormatHex8(v));
      NoBlanksToStrip(FormatHex8(v));
    } else {
      var digits := FormatHex8(v)[1..];
      DigitsReadBack(-v, 7, digits);
      NoBlanksToStrip(FormatHex8(v));
    }
  }

  lemma {:induction false} HexValueBound(s: seq<byte>)
    requires HexValue(s).Some?
    ensures HexValue(s).value < Pow16(|s|)
    decreases |s|
  {
    var n := |s|;
    if n > 1 {
      if s[n - 2] == UNDERSCORE {
        HexValueBound(s[..n - 2]);
        assert Pow16(n - 1) == 16 * Pow16(n - 2);
      } else {
        HexValueBound(s[..n - 1]);
      }
    }
  }

  lemma {:induction false} Pow16Grows(a: nat, b: nat)
    requires a <= b
    ensures Pow16(a) <= Pow16(b)
  {
    if a < b {
      Pow16Grows(a, b - 1);
    }
  }

  /** What eight characters can say fits into eight characters. */
  lemma ParsedFits(text: seq<byte>)
    requires |text| <= 8 && ParseHex(text).Some?
    ensures FitsField(ParseHex(text).value)
  {
    var s := StripRight(StripLeft(text));
    var signed := s != [] && (s[0] == PLUS || s[0] == MINUS);
    var u := Unprefixed(if signed then s[1..] else s);
    HexValueBound(u);
    Pow16Grows(|u|, if signed then 7 else 8);
    Pow16Of8();
  }

  predicate AllFit(fields: seq<int>) {
    fields == [] || (FitsField(fields[0]) && AllFit(fields[1..]))
  }

  lemma {:induction false} AllFitAt(fields: seq<int>, i: nat)
    requires AllFit(fields) && i < |fields|
    ensures FitsField(fields[i])
  {
    if i > 0 {
      AllFitAt(fields[1..], i - 1);
    }
  }

  lemma {:induction false} AllFitUpdate(fields: seq<int>, i: nat, v: int)
    requires AllFit(fields) && i < |fields| && FitsField(v)
    ensures AllFit(fields[i := v])
  {
    if i > 0 {
      AllFitUpdate(fields[1..], i - 1, v);
      assert fields[i := v][1..] == fields[1..][i - 1 := v];
    } else {
      assert fields[i := v][1..] == fields[1..];
    }
  }

  /** Character `i` of a printed number is its hex digit at that place, the highest first. */
  lemma {:induction false} HexAt(v: nat, width: nat, i: nat)
    requires v < Pow16(width) && i < width
    ensures |Hex(v, width)| == width && Hex(v, width)[i] == UpperHexChar(v / Pow16(width - 1 - i) % 16)
    decreases width
  {
    if width == 1 {
      assert Hex(v / 16, 0) == [];
    } else if i == width - 1 {
      HexAt(v / 16, width - 1, 0);
    } else {
      HexAt(v / 16, width - 1, i);
      Division.DivideTwice(v, 16, Pow16(width - 2 - i));
    }
  }

  lemma UpperDigitsByName(d: nat)
    requires d < 16
    ensures UpperHexChar(d) == "0123456789ABCDEF"[d] as int
  {
  }

  /** A number below 2^32 is printed as its eight digits in upper case, the highest first. */
  lemma EightDigits(v: nat, i: nat)
    requires v < TWO_32 && i < 8
    ensures |FormatHex8(v)| == 8 && FormatHex8(v)[i] == "0123456789ABCDEF"[v / Pow16(7 - i) % 16] as int
  {
    Pow16Of8();
    HexAt(v, 8, i);
    UpperDigitsByName(v / Pow16(7 - i) % 16);
  }
}
