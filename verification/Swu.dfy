/** The encrypted vendor update around the cpio archive: envelope, XOR, trailer check, rebuilding. */
module Swu {
  import opened Basics
  import opened Bits
  import Text
  import Utf8
  import opened Numbers
  import opened Md5
  import opened Cpio
  import opened CpioParser
  import opened CpioSoundness
  import opened CpioRoundTrip

  const DIGEST_SIZE := 32
  const ENVELOPE_SIZE := 45
  /** "  update.swu" and a newline. */
  const ENVELOPE_TITLE: seq<byte> := [0x20, 0x20, 0x75, 0x70, 0x64, 0x61, 0x74, 0x65, 0x2E, 0x73, 0x77, 0x75, 0x0A]
  /** "TRAILER!!!" and a NUL. */
  const TRAILER_NAME: seq<byte> := [0x54, 0x52, 0x41, 0x49, 0x4C, 0x45, 0x52, 0x21, 0x21, 0x21, 0]
  const KEY_SIZE := 256

  datatype SwuError =
    | NoTrailer | NotCrcFormat | BadTrailerHeader | TrailerNotEmpty | DataAfterTrailer
    | NoEnvelope | WrongDigest
    | InArchive(error: Error)
    | NotReproduced | MissingMember | BadMetadata | CannotPatch
    | EmptyInput | TooLarge
    | NeverReturns  // no error of the program: its parser does not come to an end

  // ---- the XOR layer

  function XorByte(a: byte, b: byte): byte {
    XorBitsFits(a, b, 8);
    Pow2Of8();
    XorBits(a, b, 8)
  }

  lemma XorTwice(a: byte, k: byte)
    ensures XorByte(XorByte(a, k), k) == a
  {
    Pow2Of8();
    XorBitsTwice(a, k, 8);
  }

  type Key = k: seq<byte> | |k| == KEY_SIZE witness Zeros(256)

  function Xor(key: Key, data: seq<byte>): (r: seq<byte>)
    ensures |r| == |data|
  {
    seq(|data|, i requires 0 <= i < |data| => XorByte(data[i], key[i % KEY_SIZE]))
  }

  lemma XorInvolution(key: Key, data: seq<byte>)
    ensures Xor(key, Xor(key, data)) == data
  {
    forall i | 0 <= i < |data|
      ensures Xor(key, Xor(key, data))[i] == data[i]
    {
      XorTwice(data[i], key[i % KEY_SIZE]);
    }
  }

  /** Bit `j` of byte `i` is that of the data or that of the key, which is used over and over, but not of both. */
  lemma XorAt(key: Key, data: seq<byte>, i: nat, j: nat)
    requires i < |data| && j < 8
    ensures Bit(Xor(key, data)[i], j) == if Bit(data[i], j) == Bit(key[i % 256], j) then 0 else 1
  {
    XorBitAt(data[i], key[i % KEY_SIZE], 8, j);
  }

  // ---- the envelope

  function LowerByte(b: byte): byte {
    if 0x41 <= b <= 0x5A then b + 0x20 else b
  }

  function Lower(s: seq<byte>): (r: seq<byte>)
    ensures |r| == |s|
  {
    seq(|s|, i requires 0 <= i < |s| => LowerByte(s[i]))
  }

  function DigestText(md5: Hash, archive: seq<byte>): seq<byte> {
    Utf8.Encode(HexString(md5(archive)))
  }

  predicate HasEnvelope(content: seq<byte>) {
    && |content| >= ENVELOPE_SIZE
    && (forall i :: 0 <= i < DIGEST_SIZE ==> HexNibble(content[i]).Some?)
    && content[DIGEST_SIZE..ENVELOPE_SIZE] == ENVELOPE_TITLE
  }

  function Unpack(md5: Hash, content: seq<byte>): Result<seq<byte>, SwuError> {
    if !HasEnvelope(content) then Err(NoEnvelope)
    else
      var archive := content[ENVELOPE_SIZE..];
      if DigestText(md5, archive) != Lower(content[..DIGEST_SIZE]) then Err(WrongDigest) else Ok(archive)
  }

  function Envelope(md5: Hash, archive: seq<byte>): seq<byte> {
    DigestText(md5, archive) + ENVELOPE_TITLE + archive
  }

  lemma DigestTextIsHex(md5: Hash, archive: seq<byte>)
    ensures var t := DigestText(md5, archive);
      |t| == DIGEST_SIZE && Lower(t) == t && forall i :: 0 <= i < DIGEST_SIZE ==> HexNibble(t[i]).Some?
  {
    var s := HexString(md5(archive));
    HexStringChars(md5(archive));
    Utf8.EncodeAscii(s);
  }

  lemma UnpackOfEnvelope(md5: Hash, archive: seq<byte>)
    ensures Unpack(md5, Envelope(md5, archive)) == Ok(archive)
  {
    DigestTextIsHex(md5, archive);
    var text, content := DigestText(md5, archive), Envelope(md5, archive);
    assert content[..DIGEST_SIZE] == text;
    assert content[DIGEST_SIZE..ENVELOPE_SIZE] == ENVELOPE_TITLE;
    assert content[ENVELOPE_SIZE..] == archive;
  }

  lemma LoweredHex(b: byte)
    requires HexNibble(LowerByte(b)).Some?
    ensures HexNibble(b).Some?
  {
  }

  /** The digest that opens an envelope, in either case of its letters, the title and the archive. */
  ghost predicate IsEnvelope(md5: Hash, content: seq<byte>, head: seq<byte>, archive: seq<byte>) {
    && content == head + [0x20, 0x20, 0x75, 0x70, 0x64, 0x61, 0x74, 0x65, 0x2E, 0x73, 0x77, 0x75, 0x0A] + archive && |head| == 32
    && forall i :: 0 <= i < 16 ==> SpellsByte(head, md5(archive), i)
  }

  lemma LowerHex(b: byte, d: nat)
    requires d < 16
    ensures LowerByte(b) == HexChar(d) as int <==> IsHexDigit(b as char, d)
  {
    HexDigitsByName(b as char, d);
  }

  /** Characters `2 * i` and `2 * i + 1` are the two digits of byte `i`. */
  predicate SpellsByte(head: seq<byte>, d: Digest, i: nat)
    requires |head| == 32 && i < 16
  {
    IsHexDigit(head[2 * i] as char, d[i] / 16) && IsHexDigit(head[2 * i + 1] as char, d[i] % 16)
  }

  lemma LowerSpellsByte(head: seq<byte>, d: Digest, text: seq<byte>, i: nat)
    requires |head| == 32 && i < 16 && text == Utf8.Encode(HexString(d)) && |text| == 32
    ensures Lower(head)[2 * i] == text[2 * i] && Lower(head)[2 * i + 1] == text[2 * i + 1] <==> SpellsByte(head, d, i)
  {
    HexStringChars(d);
    Utf8.EncodeAscii(HexString(d));
    HexStringAt(d, i);
    LowerHex(head[2 * i], d[i] / 16);
    LowerHex(head[2 * i + 1], d[i] % 16);
  }

  lemma SameInPairs(s: seq<byte>, t: seq<byte>)
    requires |s| == |t| == 32 && forall i :: 0 <= i < 16 ==> s[2 * i] == t[2 * i] && s[2 * i + 1] == t[2 * i + 1]
    ensures s == t
  {
    forall j | 0 <= j < 32
      ensures s[j] == t[j]
    {
      var i := j / 2;
      assert j == 2 * i || j == 2 * i + 1;
    }
  }

  lemma LowerSpells(head: seq<byte>, d: Digest)
    requires |head| == 32
    ensures Lower(head) == Utf8.Encode(HexString(d)) <==> forall i :: 0 <= i < 16 ==> SpellsByte(head, d, i)
  {
    var text := Utf8.Encode(HexString(d));
    HexStringChars(d);
    Utf8.EncodeAscii(HexString(d));
    forall i | 0 <= i < 16
      ensures Lower(head)[2 * i] == text[2 * i] && Lower(head)[2 * i + 1] == text[2 * i + 1] <==> SpellsByte(head, d, i)
    {
      LowerSpellsByte(head, d, text, i);
    }
    if forall i :: 0 <= i < 16 ==> SpellsByte(head, d, i) {
      SameInPairs(Lower(head), text);
    }
  }

  lemma SpelledHasEnvelope(content: seq<byte>, archive: seq<byte>, text: seq<byte>)
    requires |content| >= ENVELOPE_SIZE && content[DIGEST_SIZE..ENVELOPE_SIZE] == ENVELOPE_TITLE
    requires Lower(content[..DIGEST_SIZE]) == text && |text| == 32 && forall i :: 0 <= i < DIGEST_SIZE ==> HexNibble(text[i]).Some?
    ensures HasEnvelope(content)
  {
    forall i | 0 <= i < DIGEST_SIZE
      ensures HexNibble(content[i]).Some?
    {
      assert Lower(content[..DIGEST_SIZE])[i] == LowerByte(content[i]);
      LoweredHex(content[i]);
    }
  }

  /** Exactly the envelopes whose digest is that of the archive are accepted, whatever the case of its letters. */
  lemma UnpackIff(md5: Hash, content: seq<byte>, archive: seq<byte>)
    ensures Unpack(md5, content) == Ok(archive) <==> exists head :: IsEnvelope(md5, content, head, archive)
  {
    DigestTextIsHex(md5, archive);
    if head :| IsEnvelope(md5, content, head, archive) {
      assert content[..DIGEST_SIZE] == head && content[DIGEST_SIZE..ENVELOPE_SIZE] == ENVELOPE_TITLE;
      assert content[ENVELOPE_SIZE..] == archive;
      LowerSpells(head, md5(archive));
      SpelledHasEnvelope(content, archive, DigestText(md5, archive));
    }
    if Unpack(md5, content) == Ok(archive) {
      var head := content[..DIGEST_SIZE];
      LowerSpells(head, md5(archive));
      assert content == head + content[DIGEST_SIZE..ENVELOPE_SIZE] + content[ENVELOPE_SIZE..];
      assert IsEnvelope(md5, content, head, archive);
    }
  }

  // ---- the trailer check

  /** The last occurrence of `pat` that starts before `i`. */
  function FindLast(s: seq<byte>, pat: seq<byte>, i: nat): (r: Option<nat>)
    ensures r.Some? ==> r.value + |pat| <= |s|
  {
    if i == 0 then None
    else if Text.OccursAt(s, pat, i - 1) then Some(i - 1)
    else FindLast(s, pat, i - 1)
  }

  lemma {:induction false} FindLastUnique(s: seq<byte>, pat: seq<byte>, i: nat, at: nat)
    requires Text.OccursAt(s, pat, at) && at < i
    requires forall j :: at < j < i ==> !Text.OccursAt(s, pat, j)
    ensures FindLast(s, pat, i) == Some(at)
  {
    if at < i - 1 {
      FindLastUnique(s, pat, i - 1, at);
    }
  }

  /** The last occurrence is at `at`. */
  predicate LastAt(s: seq<byte>, pat: seq<byte>, at: nat) {
    at < |s| && Text.OccursAt(s, pat, at) && forall j :: at < j < |s| ==> !Text.OccursAt(s, pat, j)
  }

  lemma {:induction false} FindLastIsLast(s: seq<byte>, pat: seq<byte>, i: nat)
    ensures match FindLast(s, pat, i)
            case Some(at) => at < i && Text.OccursAt(s, pat, at) && forall j :: at < j < i ==> !Text.OccursAt(s, pat, j)
            case None => forall j :: 0 <= j < i ==> !Text.OccursAt(s, pat, j)
  {
    if i > 0 && !Text.OccursAt(s, pat, i - 1) {
      FindLastIsLast(s, pat, i - 1);
    }
  }

  /** The data ends with an empty trailer in CRC format: this header, the name and zeros. */
  ghost predicate EndsInTrailer(data: seq<byte>, at: nat, fields: seq<int>) {
    && LastAt(data, TRAILER_NAME, at) && at >= 110 && |fields| == 13
    && data[at - 110..at - 104] == [0x30, 0x37, 0x30, 0x37, 0x30, 0x32]
    && HeaderFields(data[at - 104..at]) == Some(fields) && fields[6] == 0 && fields[11] == 11
    && forall i :: at + 11 <= i < |data| ==> data[i] == 0
  }

  /** The check is passed exactly by data that ends with an empty trailer in CRC format. */
  lemma CheckTrailerIff(data: seq<byte>)
    ensures CheckTrailer(data) == None <==> exists at, fields :: EndsInTrailer(data, at, fields)
  {
    FindLastIsLast(data, TRAILER_NAME, |data|);
    var found := FindLast(data, TRAILER_NAME, |data|);
    if found.Some? && found.value >= HEADER_SIZE {
      var at := found.value;
      TrailerAtIff(data, at);
    }
    if at, fields :| EndsInTrailer(data, at, fields) {
      FindLastUnique(data, TRAILER_NAME, |data|, at);
    }
  }

  lemma TrailerAtIff(data: seq<byte>, at: nat)
    requires LastAt(data, TRAILER_NAME, at) && at >= HEADER_SIZE
    ensures CheckTrailerAt(data, at) == None <==> exists fields :: EndsInTrailer(data, at, fields)
  {
    var header := data[at - HEADER_SIZE..at];
    assert header[..6] == data[at - 110..at - 104] && header[6..HEADER_SIZE] == data[at - 104..at];
    ZeroBehind(data, at + 11);
    if EntryFields(header).Some? {
      var fields := EntryFields(header).value;
      assert CheckTrailerAt(data, at) == None ==> EndsInTrailer(data, at, fields);
    }
  }

  lemma ZeroBehind(data: seq<byte>, from: nat)
    requires from <= |data|
    ensures AllZero(data[from..]) <==> forall i :: from <= i < |data| ==> data[i] == 0
  {
    forall i | from <= i < |data|
      ensures data[i] == data[from..][i - from]
    {
    }
  }

  function CheckTrailer(data: seq<byte>): Option<SwuError> {
    match FindLast(data, TRAILER_NAME, |data|)
    case None => Some(NoTrailer)
    case Some(at) => if at < HEADER_SIZE then Some(NoTrailer) else CheckTrailerAt(data, at)
  }

  function CheckTrailerAt(data: seq<byte>, at: nat): Option<SwuError>
    requires HEADER_SIZE <= at && at + |TRAILER_NAME| <= |data|
  {
    var header := data[at - HEADER_SIZE..at];
    if header[..6] != CRC_MAGIC then Some(NotCrcFormat)
    else match EntryFields(header)
      case None => Some(BadTrailerHeader)
      case Some(fields) =>
        if fields[NAME_SIZE] != |TRAILER_NAME| || fields[FILE_SIZE] != 0 then Some(TrailerNotEmpty)
        else if !AllZero(data[at + |TRAILER_NAME|..]) then Some(DataAfterTrailer)
        else None
  }

  lemma OccurrenceBegins(s: seq<byte>, pat: seq<byte>, j: nat)
    requires Text.OccursAt(s, pat, j) && pat != []
    ensures s[j] == pat[0]
  {
    assert s[j..j + |pat|][0] == pat[0];
  }

  /** Behind the final trailer name come only zeros, so it is the last one. */
  lemma FinalName(before: seq<byte>, head: seq<byte>, zeros: seq<byte>, s: seq<byte>)
    requires |head| == HEADER_SIZE && AllZero(zeros) && s == before + head + TRAILER_NAME + zeros
    ensures FindLast(s, TRAILER_NAME, |s|) == Some(|before| + HEADER_SIZE)
  {
    var at := |before| + HEADER_SIZE;
    assert s[at..at + |TRAILER_NAME|] == TRAILER_NAME;
    forall j | at < j < |s|
      ensures !Text.OccursAt(s, TRAILER_NAME, j)
    {
      if Text.OccursAt(s, TRAILER_NAME, j) {
        OccurrenceBegins(s, TRAILER_NAME, j);
      }
    }
    FindLastUnique(s, TRAILER_NAME, |s|, at);
  }

  lemma FinalHeader(before: seq<byte>, head: seq<byte>, zeros: seq<byte>, s: seq<byte>, fields: seq<int>)
    requires |head| == HEADER_SIZE && AllZero(zeros) && s == before + head + TRAILER_NAME + zeros
    requires EntryFields(head) == Some(fields) && fields[FILE_SIZE] == 0 && fields[NAME_SIZE] == |TRAILER_NAME|
    ensures CheckTrailer(s) == if head[..6] == CRC_MAGIC then None else Some(NotCrcFormat)
  {
    FinalName(before, head, zeros, s);
    var at := |before| + HEADER_SIZE;
    assert s[at - HEADER_SIZE..at] == head;
    assert s[at + |TRAILER_NAME|..] == zeros;
  }

  lemma TrailerNameBytes()
    ensures Utf8.Encode(TRAILER) + [0] == TRAILER_NAME
  {
    Utf8.EncodeAscii(TRAILER);
  }

  lemma HeaderParts(magic: seq<byte>, text: seq<byte>, fields: seq<int>, head: seq<byte>)
    requires |magic| == 6 && |text| == 104 && HeaderFields(text) == Some(fields) && head == magic + text
    ensures |head| == HEADER_SIZE && head[..6] == magic && EntryFields(head) == Some(fields)
  {
    assert head[6..HEADER_SIZE] == text;
  }

  lemma TrailerSizes(t: Entry)
    requires |t.fields| == FIELDS && t.name == TRAILER && t.data == []
    ensures Normalized(t).fields[FILE_SIZE] == 0 && Normalized(t).fields[NAME_SIZE] == |TRAILER_NAME|
  {
    TrailerNameBytes();
  }

  lemma TrailerHeader(t: Entry, head: seq<byte>)
    requires EntryOk(t) && t.name == TRAILER && t.data == [] && head == t.magic + HeaderText(Normalized(t).fields)
    ensures |head| == HEADER_SIZE && head[..6] == t.magic && EntryFields(head) == Some(Normalized(t).fields)
    ensures Normalized(t).fields[FILE_SIZE] == 0 && Normalized(t).fields[NAME_SIZE] == |TRAILER_NAME|
  {
    TrailerSizes(t);
    NormalizedIsOk(t);
    HeaderReadsBack(Normalized(t).fields);
    HeaderParts(t.magic, HeaderText(Normalized(t).fields), Normalized(t).fields, head);
  }

  lemma TrailerBytes(t: Entry, head: seq<byte>, before: seq<byte>, zeros: seq<byte>) returns (more: seq<byte>)
    requires EntryOk(t) && t.name == TRAILER && t.data == [] && head == t.magic + HeaderText(Normalized(t).fields)
    requires AllZero(zeros)
    ensures AllZero(more) && before + (Printed(t) + zeros) == before + head + TRAILER_NAME + more
  {
    TrailerNameBytes();
    var pad := Pad(|HeadText(t)|, 4);
    more := pad + (Padded([]) + zeros);
    assert Padded([]) == [];
    calc {
      before + (Printed(t) + zeros);
      before + ((((head + TRAILER_NAME) + pad) + Padded([])) + zeros);
      { Associative((head + TRAILER_NAME) + pad, Padded([]), zeros); Associative(head + TRAILER_NAME, pad, Padded([]) + zeros); }
      before + ((head + TRAILER_NAME) + more);
      { Associative(before, head + TRAILER_NAME, more); Associative(before, head, TRAILER_NAME); }
      before + head + TRAILER_NAME + more;
    }
  }

  lemma LastEntryBytes(before: seq<byte>, init: seq<Entry>, t: Entry)
    requires Shaped(init) && |t.fields| == FIELDS
    ensures before + Archive(init + [t]) ==
              (before + Body(init)) + (Printed(t) + Pad(|Body(init + [t])|, ALIGNMENT))
  {
    var zeros := Pad(|Body(init + [t])|, ALIGNMENT);
    BodySnoc(init, t);
    Associative(Body(init), Printed(t), zeros);
    Associative(before, Body(init), Printed(t) + zeros);
  }

  lemma TrailerChecked(t: Entry, before: seq<byte>, zeros: seq<byte>, s: seq<byte>)
    requires EntryOk(t) && t.name == TRAILER && t.data == [] && AllZero(zeros)
    requires s == before + (Printed(t) + zeros)
    ensures CheckTrailer(s) == if t.magic == CRC_MAGIC then None else Some(NotCrcFormat)
  {
    var head := t.magic + HeaderText(Normalized(t).fields);
    TrailerHeader(t, head);
    var more := TrailerBytes(t, head, before, zeros);
    FinalHeader(before, head, more, s, Normalized(t).fields);
  }

  /** A rebuilt archive with an empty trailer passes the check exactly when its trailer is in CRC format. */
  lemma RebuiltTrailer(before: seq<byte>, init: seq<Entry>, t: Entry, s: seq<byte>)
    requires WellFormed(init + [t]) && EntryOk(t) && t.name == TRAILER && t.data == []
    requires s == before + Archive(init + [t])
    ensures CheckTrailer(s) == if t.magic == CRC_MAGIC then None else Some(NotCrcFormat)
  {
    assert Shaped(init) by {
      assert forall i :: 0 <= i < |init| ==> (init + [t])[i] == init[i];
    }
    var zeros := Pad(|Body(init + [t])|, ALIGNMENT);
    var front := before + Body(init);
    assert s == front + (Printed(t) + zeros) by {
      LastEntryBytes(before, init, t);
    }
    TrailerChecked(t, front, zeros, s);
  }

  // ---- opening and rebuilding a whole update

  /** A decrypted image that passes the trailer check. */
  function Decrypt(key: Key, data: seq<byte>): Result<seq<byte>, SwuError> {
    var plain := Xor(key, data);
    var e := CheckTrailer(plain);
    if e.Some? then Err(e.value) else Ok(plain)
  }

  function Encrypt(key: Key, plain: seq<byte>): Result<seq<byte>, SwuError> {
    var e := CheckTrailer(plain);
    if e.Some? then Err(e.value) else Ok(Xor(key, plain))
  }

  /** The members of an encrypted update, when the archive is one the printer reproduces. */
  function Open(md5: Hash, key: Key, encrypted: seq<byte>): Result<seq<Entry>, SwuError> {
    match Decrypt(key, encrypted)
    case Err(e) => Err(e)
    case Ok(plain) =>
      match Unpack(md5, plain)
      case Err(e) => Err(e)
      case Ok(raw) => OpenArchive(raw)
  }

  function OpenArchive(raw: seq<byte>): Result<seq<Entry>, SwuError> {
    match Parsed(raw)
    case RunsForever => Err(NeverReturns)
    case Finished(Err(e)) => Err(InArchive(e))
    case Finished(Ok(entries)) =>
      if !Shaped(entries) || Archive(entries) != raw then Err(NotReproduced) else Ok(entries)
  }

  /** What opens is well-formed, and already has its sizes and checks as the printer writes them. */
  lemma OpenedIsNormal(raw: seq<byte>, entries: seq<Entry>)
    requires OpenArchive(raw) == Ok(entries) && Small(raw)
    ensures Parsed(raw) == Finished(Ok(entries)) && WellFormed(entries) && raw == Archive(entries) && AllNormalized(entries) == entries
  {
    RepackIsStable(raw, entries);
  }

  lemma RebuiltArchiveOpens(r: seq<Entry>, raw: seq<byte>)
    requires WellFormed(r) && raw == Archive(r)
    ensures OpenArchive(raw) == Ok(AllNormalized(r))
  {
    ArchiveReadsBack(r);
    BodyOfNormalized(r);
    NormalizedLength(r);
  }

  lemma OpenThrough(md5: Hash, key: Key, raw: seq<byte>, plain: seq<byte>, found: Result<seq<Entry>, SwuError>)
    requires CheckTrailer(plain) == None && plain == Envelope(md5, raw) && found == OpenArchive(raw)
    ensures Encrypt(key, plain) == Ok(Xor(key, plain))
    ensures Open(md5, key, Xor(key, plain)) == found
  {
    XorInvolution(key, plain);
    UnpackOfEnvelope(md5, raw);
  }

  /** A rebuilt update opens, to the members it was built from. */
  lemma RebuiltOpens(md5: Hash, key: Key, init: seq<Entry>, t: Entry, r: seq<Entry>, plain: seq<byte>)
    requires r == init + [t] && WellFormed(r) && EntryOk(t) && t.name == TRAILER && t.data == [] && t.magic == CRC_MAGIC
    requires plain == Envelope(md5, Archive(r))
    ensures Encrypt(key, plain) == Ok(Xor(key, plain))
    ensures Open(md5, key, Xor(key, plain)) == Ok(AllNormalized(r))
  {
    var raw := Archive(r);
    RebuiltTrailer(DigestText(md5, raw) + ENVELOPE_TITLE, init, t, plain);
    RebuiltArchiveOpens(r, raw);
    OpenThrough(md5, key, raw, plain, OpenArchive(raw));
  }

  lemma OpenLayers(md5: Hash, key: Key, encrypted: seq<byte>, plain: seq<byte>, entries: seq<Entry>)
    requires Open(md5, key, encrypted) == Ok(entries) && plain == Xor(key, encrypted)
    ensures CheckTrailer(plain) == None && |plain| >= ENVELOPE_SIZE && OpenArchive(plain[ENVELOPE_SIZE..]) == Ok(entries)
  {
  }

  /** What opens has a CRC-format trailer, if the trailer is empty. */
  lemma OpenedTrailer(plain: seq<byte>, entries: seq<Entry>, init: seq<Entry>, t: Entry)
    requires CheckTrailer(plain) == None && |plain| >= ENVELOPE_SIZE && OpenArchive(plain[ENVELOPE_SIZE..]) == Ok(entries)
    requires entries == init + [t] && t.data == [] && Small(plain)
    ensures t.magic == CRC_MAGIC
  {
    var front, raw := plain[..ENVELOPE_SIZE], plain[ENVELOPE_SIZE..];
    assert plain == front + raw;
    OpenedIsNormal(raw, entries);
    assert entries[|entries| - 1] == t;
    RebuiltTrailer(front, init, t, plain);
  }
}
