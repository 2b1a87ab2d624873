/** UTF-8 as Rust and Python read it: shortest forms only, no surrogates, nothing above U+10FFFF. */
module Utf8 {
  import opened Basics

  /** `n` without its `k` low base-64 digits. */
  function Lead(n: nat, k: nat): nat {
    if k == 0 then n else Lead(n / 64, k - 1)
  }

  /** The `k` low base-64 digits of `n`, each as a continuation byte. */
  function Conts(n: nat, k: nat): (more: seq<byte>)
    ensures |more| == k && forall i :: 0 <= i < k ==> Continuation(more[i])
  {
    if k == 0 then [] else Conts(n / 64, k - 1) + [0x80 + n % 64]
  }

  /** How many continuation bytes the scalar value `n` takes. */
  function ContCount(n: nat): nat {
    if n < 0x80 then 0 else if n < 0x800 then 1 else if n < 0x10000 then 2 else 3
  }

  /** The marker bits of a lead byte that `k` continuation bytes follow. */
  function Marker(k: nat): nat {
    match k
    case 0 => 0
    case 1 => 0xC0
    case 2 => 0xE0
    case _ => 0xF0
  }

  lemma LeadFits(n: nat)
    requires n < 0x110000
    ensures ContCount(n) == 0 ==> Lead(n, 0) < 0x80
    ensures ContCount(n) == 1 ==> Lead(n, 1) < 32
    ensures ContCount(n) == 2 ==> Lead(n, 2) < 16
    ensures ContCount(n) == 3 ==> Lead(n, 3) < 8
  {
    assert Lead(n, 1) == Lead(n / 64, 0);
    assert Lead(n, 2) == Lead(n / 64, 1) == Lead(n / 64 / 64, 0);
    assert Lead(n, 3) == Lead(n / 64, 2) == Lead(n / 64 / 64, 1) == Lead(n / 64 / 64 / 64, 0);
  }

  function EncodeChar(c: char): (b: seq<byte>)
    ensures |b| == ContCount(c as int) + 1
  {
    var n := c as int;
    var k := ContCount(n);
    LeadFits(n);
    [Marker(k) + Lead(n, k)] + Conts(n, k)
  }

  function Encode(s: string): seq<byte> {
    if s == [] then [] else EncodeChar(s[0]) + Encode(s[1..])
  }

  /** Length in bytes of a string: what Rust's `str::len` counts. */
  function ByteLen(s: string): nat {
    |Encode(s)|
  }

  /** The table of section 3 of RFC 3629. */
  lemma EncodeCharTable(c: char, n: nat)
    requires n == c as int
    ensures n < 0x80 ==> EncodeChar(c) == [n]
    ensures 0x80 <= n < 0x800 ==> EncodeChar(c) == [0xC0 + n / 64, 0x80 + n % 64]
    ensures 0x800 <= n < 0x1_0000 ==> EncodeChar(c) == [0xE0 + n / 64 / 64, 0x80 + n / 64 % 64, 0x80 + n % 64]
    ensures 0x1_0000 <= n ==>
              EncodeChar(c) == [0xF0 + n / 64 / 64 / 64, 0x80 + n / 64 / 64 % 64, 0x80 + n / 64 % 64, 0x80 + n % 64]
  {
    OneCont(n);
    TwoConts(n);
    ThreeConts(n);
    EncodesTo(c, n, ContCount(n));
  }

  lemma OneCont(n: nat)
    ensures Lead(n, 1) == n / 64 && Conts(n, 1) == [0x80 + n % 64]
  {
    assert Lead(n, 1) == Lead(n / 64, 0) && Conts(n, 1) == Conts(n / 64, 0) + [0x80 + n % 64];
  }

  lemma TwoConts(n: nat)
    ensures Lead(n, 2) == n / 64 / 64 && Conts(n, 2) == [0x80 + n / 64 % 64, 0x80 + n % 64]
  {
    OneCont(n / 64);
  }

  lemma ThreeConts(n: nat)
    ensures Lead(n, 3) == n / 64 / 64 / 64 && Conts(n, 3) == [0x80 + n / 64 / 64 % 64, 0x80 + n / 64 % 64, 0x80 + n % 64]
  {
    TwoConts(n / 64);
  }

  predicate Continuation(b: byte) {
    0x80 <= b < 0xC0
  }

  predicate IsScalar(n: int) {
    0 <= n < 0xD800 || 0xE000 <= n < 0x110000
  }

  /** The number whose base-64 digits are `lead` and the payloads of the continuation bytes `more`. */
  function Payload(lead: nat, more: seq<byte>): nat
    requires forall i :: 0 <= i < |more| ==> Continuation(more[i])
  {
    if more == [] then lead
    else
      var last := more[|more| - 1] as int;
      assert Continuation(more[|more| - 1]);
      64 * Payload(lead, more[..|more| - 1]) + (last - 0x80)
  }

  /** The first character of `b` and the number of bytes it takes, if `b` starts with one. */
  function DecodeChar(b: seq<byte>): (r: Option<(char, nat)>)
    ensures r.Some? ==> 1 <= r.value.1 <= |b|
  {
    if b == [] then None
    else
      var lead := b[0] as int;
      if lead < 0x80 then Some((lead as char, 1))
      else if 0xC0 <= lead < 0xE0 then Multi(b, 2, lead - 0xC0, 0x80)
      else if 0xE0 <= lead < 0xF0 then Multi(b, 3, lead - 0xE0, 0x800)
      else if 0xF0 <= lead < 0xF8 then Multi(b, 4, lead - 0xF0, 0x10000)
      else None
  }

  /** A character of `k` bytes, which must not be below the least one that needs so many. */
  function Multi(b: seq<byte>, k: nat, lead: nat, least: nat): (r: Option<(char, nat)>)
    requires 2 <= k <= 4 && b != []
    ensures r.Some? ==> r.value.1 == k <= |b|
  {
    if |b| < k || exists i :: 1 <= i < k && !Continuation(b[i]) then None
    else
      var n := Payload(lead, b[1..k]);
      if n < least || !IsScalar(n) then None else Some((n as char, k))
  }

  function Decode(b: seq<byte>): (r: Option<string>)
    decreases |b|
  {
    if b == [] then Some([])
    else
      var first := DecodeChar(b);
      if first.None? then None
      else
        var rest := Decode(b[first.value.1..]);
        if rest.None? then None else Some([first.value.0] + rest.value)
  }

  lemma {:induction false} PayloadOfConts(n: nat, k: nat)
    ensures Payload(Lead(n, k), Conts(n, k)) == n
  {
    if k > 0 {
      PayloadOfConts(n / 64, k - 1);
      assert Conts(n, k)[..k - 1] == Conts(n / 64, k - 1);
    }
  }

  lemma {:induction false} ContsOfPayload(lead: nat, more: seq<byte>)
    requires forall i :: 0 <= i < |more| ==> Continuation(more[i])
    ensures Lead(Payload(lead, more), |more|) == lead && Conts(Payload(lead, more), |more|) == more
  {
    if more != [] {
      var k := |more| - 1;
      assert Continuation(more[k]);
      ContsOfPayload(lead, more[..k]);
      assert Payload(lead, more) / 64 == Payload(lead, more[..k]);
      assert more == more[..k] + [more[k]];
    }
  }

  lemma PayloadFits(lead: nat, more: seq<byte>)
    requires forall i :: 0 <= i < |more| ==> Continuation(more[i])
    ensures |more| == 1 && lead < 32 ==> Payload(lead, more) < 0x800
    ensures |more| == 2 && lead < 16 ==> Payload(lead, more) < 0x10000
  {
    if |more| == 1 {
      assert Continuation(more[0]) && more[..0] == [];
    } else if |more| == 2 {
      assert Continuation(more[0]) && Continuation(more[1]) && more[..1][..0] == [];
      assert Payload(lead, more[..1]) == 64 * lead + (more[0] as int - 0x80);
    }
  }

  lemma DecodeCharOfEncoded(c: char, rest: seq<byte>)
    ensures DecodeChar(EncodeChar(c) + rest) == Some((c, |EncodeChar(c)|))
  {
    var n := c as int;
    var k := ContCount(n);
    LeadFits(n);
    PayloadOfConts(n, k);
    var b := EncodeChar(c) + rest;
    assert b[1..k + 1] == Conts(n, k);
    assert forall i :: 1 <= i < k + 1 ==> b[i] == Conts(n, k)[i - 1];
  }

  lemma EncodeCharOfDecoded(b: seq<byte>)
    requires DecodeChar(b).Some?
    ensures EncodeChar(DecodeChar(b).value.0) == b[..DecodeChar(b).value.1]
  {
    var (c, k) := DecodeChar(b).value;
    if k == 1 {
      assert b[..1] == [b[0]];
    } else {
      MultiEncodes(b, k, b[0] as int - Marker(k - 1), c);
    }
  }

  lemma MultiEncodes(b: seq<byte>, k: nat, lead: nat, c: char)
    requires 2 <= k <= |b| && k <= 4 && (forall i :: 1 <= i < k ==> Continuation(b[i])) && Payload(lead, b[1..k]) == c as int
    requires b[0] == Marker(k - 1) + lead && (k == 2 ==> lead < 32) && (k == 3 ==> lead < 16)
    requires c as int >= if k == 2 then 0x80 else if k == 3 then 0x800 else 0x10000
    ensures EncodeChar(c) == b[..k]
  {
    ContsOfPayload(lead, b[1..k]);
    CountOf(lead, b[1..k], c as int, k - 1);
    EncodesTo(c, c as int, k - 1);
    assert b[..k] == [b[0]] + b[1..k];
  }

  lemma CountOf(lead: nat, more: seq<byte>, n: nat, k: nat)
    requires 1 <= k <= 3 && k == |more| && (forall i :: 0 <= i < k ==> Continuation(more[i])) && Payload(lead, more) == n
    requires (k == 1 ==> lead < 32) && (k == 2 ==> lead < 16) && n >= if k == 1 then 0x80 else if k == 2 then 0x800 else 0x10000
    ensures ContCount(n) == k
  {
    PayloadFits(lead, more);
  }

  lemma EncodesTo(c: char, n: nat, k: nat)
    requires n == c as int && ContCount(n) == k
    ensures EncodeChar(c) == [Marker(k) + Lead(n, k)] + Conts(n, k)
  {
  }

  /** `s` in front of a decoding result. */
  function Then(s: string, r: Option<string>): Option<string> {
    if r.None? then None else Some(s + r.value)
  }

  lemma DecodeCons(c: char, e: seq<byte>, rest: seq<byte>)
    requires e == EncodeChar(c)
    ensures Decode(e + rest) == Then([c], Decode(rest))
  {
    DecodeCharOfEncoded(c, rest);
    assert (e + rest)[|e|..] == rest;
  }

  /** Decoding continues past an encoded prefix. */
  lemma {:induction false} DecodeAfterEncoded(s: string, rest: seq<byte>)
    ensures Decode(Encode(s) + rest) == Then(s, Decode(rest))
  {
    if s == [] {
      assert Encode(s) + rest == rest;
      assert Decode(rest).Some? ==> s + Decode(rest).value == Decode(rest).value;
    } else {
      var e, tail, r := EncodeChar(s[0]), Encode(s[1..]), Decode(rest);
      calc {
        Decode(Encode(s) + rest);
        { Associative(e, tail, rest); }
        Decode(e + (tail + rest));
        { DecodeCons(s[0], e, tail + rest); }
        Then([s[0]], Decode(tail + rest));
        { DecodeAfterEncoded(s[1..], rest); }
        Then([s[0]], Then(s[1..], r));
        { assert r.Some? ==> [s[0]] + (s[1..] + r.value) == s + r.value; }
        Then(s, r);
      }
    }
  }

  /** Every string survives encoding. */
  lemma DecodeOfEncode(s: string)
    ensures Decode(Encode(s)) == Some(s)
  {
    DecodeAfterEncoded(s, []);
    assert Encode(s) + [] == Encode(s);
    assert s + [] == s;
  }

  /** Only one byte sequence decodes to a given string. */
  lemma {:induction false} EncodeOfDecode(b: seq<byte>)
    requires Decode(b).Some?
    ensures Encode(Decode(b).value) == b
    decreases |b|
  {
    if b != [] {
      var (c, k) := DecodeChar(b).value;
      EncodeCharOfDecoded(b);
      EncodeOfDecode(b[k..]);
      var s := Decode(b).value;
      assert s[1..] == Decode(b[k..]).value;
      assert b == b[..k] + b[k..];
    }
  }

  lemma {:induction false} EncodeAppend(s: string, t: string)
    ensures Encode(s + t) == Encode(s) + Encode(t)
  {
    if s == [] {
      assert s + t == t;
    } else {
      var e := EncodeChar(s[0]);
      calc {
        Encode(s + t);
        { assert (s + t)[1..] == s[1..] + t; }
        e + Encode(s[1..] + t);
        { EncodeAppend(s[1..], t); }
        e + (Encode(s[1..]) + Encode(t));
        { Associative(e, Encode(s[1..]), Encode(t)); }
        Encode(s) + Encode(t);
      }
    }
  }

  /** An ASCII string is its own encoding. */
  lemma {:induction false} EncodeAscii(s: string)
    requires forall i :: 0 <= i < |s| ==> s[i] as int < 0x80
    ensures |Encode(s)| == |s| && forall i :: 0 <= i < |s| ==> Encode(s)[i] == s[i] as int
  {
    if s != [] {
      EncodeAscii(s[1..]);
    }
  }

  /** And the other way round: only an ASCII string has such an encoding. */
  lemma {:induction false} AsciiOfBytes(s: string)
    requires forall i :: 0 <= i < |Encode(s)| ==> Encode(s)[i] < 0x80
    ensures |Encode(s)| == |s| && forall i :: 0 <= i < |s| ==> s[i] as int == Encode(s)[i]
  {
    if s != [] {
      var first, rest := EncodeChar(s[0]), Encode(s[1..]);
      assert Encode(s)[0] == first[0];
      assert forall i :: 0 <= i < |rest| ==> rest[i] == Encode(s)[|first| + i];
      AsciiOfBytes(s[1..]);
    }
  }

  /** An ASCII character that is not in a string does not show up in its encoding. */
  lemma {:induction false} EncodeLacks(s: string, c: char)
    requires c !in s && c as int < 0x80
    ensures c as int !in Encode(s)
  {
    if s != [] {
      assert s[0] in s && s[0] != c;
      assert forall d :: d in s[1..] ==> d in s;
      EncodeLacks(s[1..], c);
    }
  }

  lemma {:induction false} ByteLenBounds(s: string)
    ensures |s| <= ByteLen(s) <= 4 * |s|
  {
    if s != [] {
      ByteLenBounds(s[1..]);
    }
  }

  function Nuls(n: nat): string {
    seq(n, _ => '\0')
  }

  lemma {:induction false} DecodeZeros(n: nat)
    ensures Decode(Zeros(n)) == Some(Nuls(n))
  {
    if n == 0 {
      assert Zeros(0) == [] && Nuls(0) == [];
    } else {
      DecodeZeros(n - 1);
      assert Zeros(n)[1..] == Zeros(n - 1);
      assert ['\0'] + Nuls(n - 1) == Nuls(n);
    }
  }
}
