/** MD5 digests as 32 hexadecimal digits. The hash function itself is a parameter of the model. */
module Md5 {
  import opened Basics
  import opened Numbers
  import opened Utf8

  type Digest = d: seq<byte> | |d| == 16 witness seq(16, _ => 0)

  /** A hash function; the streaming interface hashes the concatenation of what it was given. */
  type Hash = seq<byte> -> Digest

  /** The value of 32 hex digits of either case; anything else is not a digest. */
  function HexDigest(s: string): Option<Digest> {
    var b := Encode(s);
    if |b| != 32 || exists i :: 0 <= i < 32 && HexNibble(b[i]).None? then None
    else Some(DigestOf(b))
  }

  function DigestOf(b: seq<byte>): Digest
    requires |b| == 32 && forall i :: 0 <= i < 32 ==> HexNibble(b[i]).Some?
  {
    seq(16, i requires 0 <= i < 16 => 16 * HexNibble(b[2 * i]).value + HexNibble(b[2 * i + 1]).value)
  }

  /** Characters `2 * i` and `2 * i + 1` are the two digits of byte `i`. */
  predicate SpellsByte(s: string, d: Digest, i: nat)
    requires |s| == 32 && i < 16
  {
    IsHexDigit(s[2 * i], d[i] / 16) && IsHexDigit(s[2 * i + 1], d[i] % 16)
  }

  lemma TwoDigits(x: char, y: char, b: byte, hi: nat, lo: nat)
    requires hi < 16 && lo < 16 && hi == b / 16 && lo == b % 16
    ensures IsHexDigit(x, hi) && IsHexDigit(y, lo) <==>
            HexNibble(x as int).Some? && HexNibble(y as int).Some?
            && b == 16 * HexNibble(x as int).value + HexNibble(y as int).value
    ensures IsHexDigit(x, hi) && IsHexDigit(y, lo) ==> x as int < 0x80 && y as int < 0x80
  {
    OneDigit(x, hi);
    OneDigit(y, lo);
    if HexNibble(x as int).Some? && HexNibble(y as int).Some? {
      TwoNibbles(b, hi, lo, HexNibble(x as int).value, HexNibble(y as int).value);
    }
  }

  lemma OneDigit(c: char, d: nat)
    requires d < 16
    ensures IsHexDigit(c, d) <==> HexNibble(c as int) == Some(d)
    ensures IsHexDigit(c, d) ==> c as int < 0x80
  {
    HexDigitsByName(c, d);
  }

  lemma TwoNibbles(b: nat, hi: nat, lo: nat, x: nat, y: nat)
    requires hi == b / 16 && lo == b % 16 && x < 16 && y < 16
    ensures b == 16 * x + y <==> hi == x && lo == y
  {
  }

  /** A text of 32 hex digits of either case, two for each byte, is a digest, and no other text is. */
  lemma HexDigestIff(s: string, d: Digest)
    ensures HexDigest(s) == Some(d) <==> |s| == 32 && forall i :: 0 <= i < 16 ==> SpellsByte(s, d, i)
  {
    if HexDigest(s) == Some(d) {
      DigestIsSpelled(s, d);
    } else if |s| == 32 && forall i :: 0 <= i < 16 ==> SpellsByte(s, d, i) {
      SpelledIsDigest(s, d);
    }
  }

  lemma NibblesAreAscii(b: seq<byte>)
    requires forall i :: 0 <= i < |b| ==> HexNibble(b[i]).Some?
    ensures forall i :: 0 <= i < |b| ==> b[i] < 0x80
  {
  }

  lemma DigestIsSpelled(s: string, d: Digest)
    requires HexDigest(s) == Some(d)
    ensures |s| == 32 && forall i :: 0 <= i < 16 ==> SpellsByte(s, d, i)
  {
    var b := Encode(s);
    NibblesAreAscii(b);
    AsciiOfBytes(s);
    forall i | 0 <= i < 16
      ensures SpellsByte(s, d, i)
    {
      assert DigestOf(b)[i] == d[i];
      TwoDigits(s[2 * i], s[2 * i + 1], d[i], d[i] / 16, d[i] % 16);
    }
  }

  lemma SpelledIsDigest(s: string, d: Digest)
    requires |s| == 32 && forall i :: 0 <= i < 16 ==> SpellsByte(s, d, i)
    ensures HexDigest(s) == Some(d)
  {
    forall j | 0 <= j < 32
      ensures HexNibble(s[j] as int).Some? && s[j] as int < 0x80
    {
      var i := j / 2;
      assert SpellsByte(s, d, i);
      TwoDigits(s[2 * i], s[2 * i + 1], d[i], d[i] / 16, d[i] % 16);
      assert j == 2 * i || j == 2 * i + 1;
    }
    EncodeAscii(s);
    forall i | 0 <= i < 16
      ensures DigestOf(Encode(s))[i] == d[i]
    {
      assert SpellsByte(s, d, i);
      TwoDigits(s[2 * i], s[2 * i + 1], d[i], d[i] / 16, d[i] % 16);
    }
    assert DigestOf(Encode(s)) == d;
  }

  method ParseMd5Hex(s: string) returns (r: Option<Digest>)
    ensures r == HexDigest(s)
  {
    var bytes := Encode(s);
    if |bytes| != 32 {
      return None;
    }
    var out := new byte[16](_ => 0);
    for i := 0 to 16
      invariant forall j :: 0 <= j < 2 * i ==> HexNibble(bytes[j]).Some?
      invariant forall j :: 0 <= j < i ==> out[j] == 16 * HexNibble(bytes[2 * j]).value + HexNibble(bytes[2 * j + 1]).value
    {
      var hi := HexNibble(bytes[i * 2]);
      if hi.None? {
        return None;
      }
      var lo := HexNibble(bytes[i * 2 + 1]);
      if lo.None? {
        return None;
      }
      out[i] := 16 * hi.value + lo.value;
    }
    r := Some(out[..]);
    assert out[..] == DigestOf(bytes);
  }

  lemma PrintedNibbles(d: Digest, b: seq<byte>, i: nat)
    requires i < 16 && b == Encode(HexString(d)) && |b| == 32
    requires forall j :: 0 <= j < 32 ==> b[j] == HexString(d)[j] as int
    ensures HexNibble(b[2 * i]) == Some(d[i] / 16) && HexNibble(b[2 * i + 1]) == Some(d[i] % 16)
  {
    HexStringAt(d, i);
    NibbleOfHexChar(d[i] / 16);
    NibbleOfHexChar(d[i] % 16);
  }

  /** A printed digest reads back as itself. */
  lemma HexDigestOfPrinted(d: Digest)
    ensures HexDigest(HexString(d)) == Some(d)
  {
    HexStringChars(d);
    EncodeAscii(HexString(d));
    var b := Encode(HexString(d));
    forall i | 0 <= i < 32
      ensures HexNibble(b[i]).Some?
    {
      PrintedNibbles(d, b, i / 2);
      assert i == 2 * (i / 2) || i == 2 * (i / 2) + 1;
    }
    forall i | 0 <= i < 16
      ensures DigestOf(b)[i] == d[i]
    {
      PrintedNibbles(d, b, i);
    }
    assert DigestOf(b) == d;
  }
}
