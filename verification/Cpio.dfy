/** The newc/CRC cpio archive inside the vendor update: parsing, member replacement, rebuilding. */
module Cpio {
  import opened Basics
  import Utf8
  import opened PythonHex

  const ALIGNMENT := 4096
  const HEADER_SIZE := 110
  const FIELDS := 13
  const FILE_SIZE := 6
  const NAME_SIZE := 11
  const CHECK := 12
  /** "070701" and "070702". */
  const NEWC_MAGIC: seq<byte> := [0x30, 0x37, 0x30, 0x37, 0x30, 0x31]
  const CRC_MAGIC: seq<byte> := [0x30, 0x37, 0x30, 0x37, 0x30, 0x32]
  // Written in two parts so that a proof about names does not depend on their letters.
  const TRAILER := "TRAILER" + "!!!"
  const DESCRIPTION := "sw" + "-description"

  datatype Entry = Entry(magic: seq<byte>, name: string, fields: seq<int>, data: seq<byte>)

  datatype Error =
    | TruncatedHeader | BadMagic | BadHeader | EmptyName | BadName | NotUtf8
    | TruncatedData | CrcMismatch
    | NonZeroTail | NotPadded | BadOrder | DuplicateNames
    | NotExactlyOne

  predicate IsMagic(m: seq<byte>) {
    m == NEWC_MAGIC || m == CRC_MAGIC
  }

  function RoundUp4(n: nat): (r: nat)
    ensures n <= r < n + 4 && r % 4 == 0
  {
    (n + 3) / 4 * 4
  }

  function Sum(data: seq<byte>): nat {
    if data == [] then 0 else Sum(data[..|data| - 1]) + data[|data| - 1]
  }

  /** The sum of the bytes, as the check field holds it. */
  function CheckSum(data: seq<byte>): nat {
    Sum(data) % TWO_32
  }

  lemma {:induction false} SumAdds(a: seq<byte>, b: seq<byte>)
    ensures Sum(a + b) == Sum(a) + Sum(b)
    decreases |b|
  {
    if b == [] {
      assert a + b == a;
    } else {
      assert (a + b)[..|a + b| - 1] == a + b[..|b| - 1];
      SumAdds(a, b[..|b| - 1]);
    }
  }

  /** The checksum is the sum of all bytes, modulo 2^32: what follows from these three laws. */
  lemma CheckSumAdds(a: seq<byte>, b: seq<byte>, x: byte)
    ensures CheckSum([]) == 0 && CheckSum([x]) == x
    ensures CheckSum(a + b) == (CheckSum(a) + CheckSum(b)) % 0x1_0000_0000
  {
    SumAdds(a, b);
    assert [x][..0] == [];
  }

  predicate AllZero(s: seq<byte>) {
    forall i :: 0 <= i < |s| ==> s[i] == 0
  }

  predicate DistinctNames(entries: seq<Entry>) {
    forall i, j :: 0 <= i < j < |entries| ==> entries[i].name != entries[j].name
  }

  predicate SameNames(a: seq<Entry>, b: seq<Entry>) {
    |a| == |b| && forall i :: 0 <= i < |a| ==> a[i].name == b[i].name
  }

  // ---- what is read

  /** A text in pieces of eight. */
  function Chunks(text: seq<byte>): (c: seq<seq<byte>>)
    requires |text| % 8 == 0
    ensures |c| == |text| / 8
    decreases |text|
  {
    if text == [] then [] else [text[..8]] + Chunks(text[8..])
  }

  /** The numbers of all pieces, if all of them are numbers. */
  function ParseAll(pieces: seq<seq<byte>>): (f: Option<seq<int>>)
    ensures f.Some? ==> |f.value| == |pieces|
  {
    if pieces == [] then Some([])
    else
      var first, rest := ParseHex(pieces[0]), ParseAll(pieces[1..]);
      if first.None? || rest.None? then None else Some([first.value] + rest.value)
  }

  lemma {:induction false} ParsedAllFit(pieces: seq<seq<byte>>)
    requires ParseAll(pieces).Some? && forall i :: 0 <= i < |pieces| ==> |pieces[i]| <= 8
    ensures AllFit(ParseAll(pieces).value)
  {
    if pieces != [] {
      ParsedFits(pieces[0]);
      ParsedAllFit(pieces[1..]);
    }
  }

  /** The numbers of a header, eight characters each. */
  function HeaderFields(text: seq<byte>): (f: Option<seq<int>>)
    requires |text| % 8 == 0
    ensures f.Some? ==> |f.value| == |text| / 8
  {
    ParseAll(Chunks(text))
  }

  /** The numbers of the thirteen fields at the front of `s`. */
  function EntryFields(s: seq<byte>): (f: Option<seq<int>>)
    requires |s| >= HEADER_SIZE
    ensures f.Some? ==> |f.value| == FIELDS
  {
    HeaderFields(s[6..HEADER_SIZE])
  }

  /** The checks on the archive as a whole. */
  function Checked(raw: seq<byte>, entries: seq<Entry>, tail: seq<byte>): Result<seq<Entry>, Error> {
    if !AllZero(tail) then Err(NonZeroTail)
    else if |raw| % ALIGNMENT != 0 then Err(NotPadded)
    else if entries == [] || entries[0].name != DESCRIPTION || entries[|entries| - 1].name != TRAILER then Err(BadOrder)
    else if !DistinctNames(entries) then Err(DuplicateNames)
    else Ok(entries)
  }

  // ---- what the printer produces

  function HeaderText(fields: seq<int>): seq<byte> {
    if fields == [] then [] else FormatHex8(fields[0]) + HeaderText(fields[1..])
  }

  /** An entry as it is written: sizes and check recomputed. */
  function Normalized(e: Entry): (n: Entry)
    requires |e.fields| == FIELDS
    ensures |n.fields| == FIELDS
  {
    e.(fields := e.fields[FILE_SIZE := |e.data|][NAME_SIZE := |Utf8.Encode(e.name)| + 1]
                         [CHECK := if e.magic == CRC_MAGIC then CheckSum(e.data) else 0])
  }

  /** What is recomputed: the two sizes, and the check, which is zero outside the CRC format. */
  lemma NormalizedIff(e: Entry, n: Entry)
    requires |e.fields| == 13 && |e.magic| == 6
    requires e.magic == [0x30, 0x37, 0x30, 0x37, 0x30, 0x31] || e.magic == [0x30, 0x37, 0x30, 0x37, 0x30, 0x32]
    ensures n == Normalized(e) <==>
            && n.magic == e.magic && n.name == e.name && n.data == e.data && |n.fields| == 13
            && n.fields[6] == |e.data| && n.fields[11] == |Utf8.Encode(e.name)| + 1
            && n.fields[12] == (if e.magic[5] == 0x32 then CheckSum(e.data) else 0)
            && forall k :: 0 <= k < 13 && k !in {6, 11, 12} ==> n.fields[k] == e.fields[k]
  {
    assert e.magic == CRC_MAGIC <==> e.magic[5] == 0x32;
    assert n.fields == Normalized(e).fields <==>
           |n.fields| == 13 && forall k :: 0 <= k < 13 ==> n.fields[k] == Normalized(e).fields[k];
  }

  function Pad(n: nat, unit: nat): seq<byte>
    requires unit > 0
  {
    var len: int := n;
    Zeros(-len % unit)
  }

  function Padded(s: seq<byte>): seq<byte> {
    s + Pad(|s|, 4)
  }

  /** Zeros up to the next multiple of four, and no more. */
  lemma PaddedIff(s: seq<byte>, t: seq<byte>)
    ensures t == Padded(s) <==>
            && s <= t && |s| <= |t| < |s| + 4 && |t| % 4 == 0
            && forall i :: |s| <= i < |t| ==> t[i] == 0
  {
    var n: int := |s|;
    assert |Padded(s)| == n + -n % 4;
    assert t == Padded(s) <==> |t| == |Padded(s)| && forall i :: 0 <= i < |t| ==> t[i] == Padded(s)[i];
  }

  lemma Remainder(n: int, q: int, m: int)
    requires n == 4 * q + m && 0 <= m < 4
    ensures n % 4 == m && n / 4 == q
  {
  }

  lemma PaddedLength(s: seq<byte>)
    ensures |Padded(s)| == RoundUp4(|s|)
  {
    var len: int := |s|;
    var q, m := len / 4, len % 4;
    if m == 0 {
      Remainder(-len, -q, 0);
      Remainder(len + 3, q, 3);
    } else {
      Remainder(-len, -q - 1, 4 - m);
      Remainder(len + 3, q + 1, m - 1);
    }
  }

  /** The header and the name. */
  function HeadText(e: Entry): seq<byte>
    requires |e.fields| == FIELDS
  {
    e.magic + HeaderText(Normalized(e).fields) + (Utf8.Encode(e.name) + [0])
  }

  function Printed(e: Entry): seq<byte>
    requires |e.fields| == FIELDS
  {
    Padded(HeadText(e)) + Padded(e.data)
  }

  predicate Shaped(entries: seq<Entry>) {
    forall i :: 0 <= i < |entries| ==> |entries[i].fields| == FIELDS
  }

  function Body(entries: seq<Entry>): seq<byte>
    requires Shaped(entries)
  {
    if entries == [] then [] else Printed(entries[0]) + Body(entries[1..])
  }

  function Archive(entries: seq<Entry>): seq<byte>
    requires Shaped(entries)
  {
    Body(entries) + Pad(|Body(entries)|, ALIGNMENT)
  }

  function AllNormalized(entries: seq<Entry>): (n: seq<Entry>)
    requires Shaped(entries)
    ensures |n| == |entries|
  {
    seq(|entries|, i requires 0 <= i < |entries| => Normalized(entries[i]))
  }

  // ---- well-formed archives

  predicate EntryOk(e: Entry) {
    && IsMagic(e.magic) && |e.fields| == FIELDS
    && |e.data| < TWO_32 && |Utf8.Encode(e.name)| + 1 < TWO_32
    && AllFit(e.fields)
  }

  predicate EntriesOk(entries: seq<Entry>) {
    forall i :: 0 <= i < |entries| ==> EntryOk(entries[i])
  }

  predicate WellOrdered(entries: seq<Entry>) {
    entries != [] && entries[0].name == DESCRIPTION && entries[|entries| - 1].name == TRAILER && DistinctNames(entries)
  }

  ghost predicate WellFormed(entries: seq<Entry>) {
    EntriesOk(entries) && WellOrdered(entries)
  }

  lemma RoundUpShifted(n: nat, offset: nat)
    requires offset % 4 == 0
    ensures RoundUp4(n + offset) == RoundUp4(n) + offset
  {
  }

  /** A header reads back as the numbers it was printed from. */
  lemma {:induction false} HeaderReadsBack(fields: seq<int>)
    requires AllFit(fields)
    ensures |HeaderText(fields)| == 8 * |fields| && HeaderFields(HeaderText(fields)) == Some(fields)
  {
    if fields != [] {
      var first, rest := FormatHex8(fields[0]), HeaderText(fields[1..]);
      FormatWidth(fields[0]);
      ParseOfFormat(fields[0]);
      HeaderReadsBack(fields[1..]);
      FirstChunk(first, rest);
      FirstPieceIsParsed(first, Chunks(rest), fields[0], fields[1..]);
      assert fields == [fields[0]] + fields[1..];
    }
  }

  lemma FirstChunk(first: seq<byte>, rest: seq<byte>)
    requires |first| == 8 && |rest| % 8 == 0
    ensures |first + rest| % 8 == 0 && Chunks(first + rest) == [first] + Chunks(rest)
  {
    assert (first + rest)[..8] == first && (first + rest)[8..] == rest;
  }

  lemma FirstPieceIsParsed(first: seq<byte>, rest: seq<seq<byte>>, n: int, more: seq<int>)
    requires ParseHex(first) == Some(n) && ParseAll(rest) == Some(more)
    ensures ParseAll([first] + rest) == Some([n] + more)
  {
    assert ([first] + rest)[1..] == rest;
  }
}
