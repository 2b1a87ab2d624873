/** The archive format, said without the parser: what stands where, and that exactly this is accepted. */
module CpioFormat {
  import opened Basics
  import Utf8
  import opened PythonHex
  import opened Cpio
  import opened CpioParser
  import opened CpioSoundness
  import opened CpioRoundTrip

  // ---- one entry

  /** Thirteen fields of eight characters each. */
  predicate FieldsStand(raw: seq<byte>, at: nat, fields: seq<int>) {
    && |fields| == 13 && at + 104 <= |raw|
    && forall k :: 0 <= k < 13 ==> ParseHex(raw[at + 8 * k..at + 8 * k + 8]) == Some(fields[k])
  }

  /** A name of `size` bytes, the last of them NUL. */
  predicate NameStands(raw: seq<byte>, at: nat, size: int, name: string) {
    size >= 1 && at + size <= |raw| && raw[at..at + size - 1] == Utf8.Encode(name) && raw[at + size - 1] == 0
  }

  /** Data of this size, with their checksum in the CRC format; whatever follows is aligned again. */
  predicate DataStands(raw: seq<byte>, at: nat, e: Entry, next: int) {
    && |e.fields| == 13 && |e.magic| == 6
    && e.fields[6] >= 0 && at + e.fields[6] <= |raw| && e.data == raw[at..at + e.fields[6]]
    && (e.magic[5] == 0x32 ==> CheckSum(e.data) == e.fields[12])
    && next == RoundUp4(at + e.fields[6])
  }

  /** "070701" or "070702". */
  predicate MagicStands(raw: seq<byte>, offset: nat, magic: seq<byte>) {
    && offset + 110 <= |raw| && magic == raw[offset..offset + 6]
    && (magic == [0x30, 0x37, 0x30, 0x37, 0x30, 0x31] || magic == [0x30, 0x37, 0x30, 0x37, 0x30, 0x32])
  }

  /**
   At `offset` stands the entry `e`, and behind it the next one at `next`: six bytes of magic, the
   fields, the name, and at a multiple of four the data. In the CRC format the last field is the
   checksum of the data.
   */
  predicate StandsAt(raw: seq<byte>, offset: nat, e: Entry, next: int) {
    && MagicStands(raw, offset, e.magic) && FieldsStand(raw, offset + 6, e.fields)
    && NameStands(raw, offset + 110, e.fields[11], e.name)
    && DataStands(raw, RoundUp4(offset + 110 + e.fields[11]), e, next)
  }

  lemma AlignIsRoundUp(n: nat)
    ensures Align4(n) == RoundUp4(n)
  {
  }

  lemma MagicIff(m: seq<byte>)
    ensures IsMagic(m) <==> m == [0x30, 0x37, 0x30, 0x37, 0x30, 0x31] || m == [0x30, 0x37, 0x30, 0x37, 0x30, 0x32]
    ensures IsMagic(m) ==> (m == CRC_MAGIC <==> m[5] == 0x32)
  {
  }

  /** Piece by piece, the numbers that the pieces are. */
  predicate Spell(pieces: seq<seq<byte>>, fields: seq<int>) {
    |fields| == |pieces| && forall k :: 0 <= k < |pieces| ==> ParseHex(pieces[k]) == Some(fields[k])
  }

  lemma SpellMore(pieces: seq<seq<byte>>, fields: seq<int>)
    requires pieces != []
    ensures Spell(pieces, fields) <==> fields != [] && ParseHex(pieces[0]) == Some(fields[0]) && Spell(pieces[1..], fields[1..])
  {
    if fields != [] && ParseHex(pieces[0]) == Some(fields[0]) && Spell(pieces[1..], fields[1..]) {
      forall k | 0 <= k < |pieces|
        ensures |fields| == |pieces| && ParseHex(pieces[k]) == Some(fields[k])
      {
        assert k > 0 ==> ParseHex(pieces[1..][k - 1]) == Some(fields[1..][k - 1]);
      }
    }
    if Spell(pieces, fields) {
      forall k | 0 <= k < |pieces| - 1
        ensures ParseHex(pieces[1..][k]) == Some(fields[1..][k])
      {
        assert ParseHex(pieces[k + 1]) == Some(fields[k + 1]);
      }
    }
  }

  lemma {:induction false} ParseAllIff(pieces: seq<seq<byte>>, fields: seq<int>)
    ensures ParseAll(pieces) == Some(fields) <==> Spell(pieces, fields)
  {
    if pieces != [] {
      SpellMore(pieces, fields);
      if fields != [] {
        ParseAllIff(pieces[1..], fields[1..]);
        assert [fields[0]] + fields[1..] == fields;
      }
    }
  }

  lemma PieceInside(raw: seq<byte>, at: nat, count: nat, k: nat)
    requires at + 8 * count <= |raw| && k < count
    ensures PiecesAt(raw, at, count)[k] == raw[at + 8 * k..at + 8 * k + 8]
  {
    SliceInside(raw, at + 8 * k, at + 8 * k + 8);
  }

  lemma PiecesIff(raw: seq<byte>, at: nat, fields: seq<int>, pieces: seq<seq<byte>>)
    requires at + 104 <= |raw| && pieces == PiecesAt(raw, at, 13)
    ensures Spell(pieces, fields) <==> FieldsStand(raw, at, fields)
  {
    forall k | 0 <= k < 13
      ensures pieces[k] == raw[at + 8 * k..at + 8 * k + 8]
    {
      PieceInside(raw, at, 13, k);
    }
  }

  lemma FieldsIff(raw: seq<byte>, at: nat, fields: seq<int>)
    requires at + 104 <= |raw|
    ensures FieldsAt(raw, at) == Some(fields) <==> FieldsStand(raw, at, fields)
  {
    var pieces := PiecesAt(raw, at, FIELDS);
    ParseAllIff(pieces, fields);
    PiecesIff(raw, at, fields, pieces);
  }

  lemma NameIff(raw: seq<byte>, fields: seq<int>, at: nat, name: string)
    requires |fields| == FIELDS
    ensures NameAt(raw, fields, at) == Ok(name) <==> NameStands(raw, at, fields[11], name)
  {
    var end := at + fields[NAME_SIZE];
    if fields[NAME_SIZE] >= 1 && end <= |raw| {
      var text := raw[at..end - 1];
      SliceInside(raw, at, end - 1);
      if text == Utf8.Encode(name) {
        Utf8.DecodeOfEncode(name);
      }
      if Utf8.Decode(text) == Some(name) {
        Utf8.EncodeOfDecode(text);
      }
    }
  }

  lemma DataIff(raw: seq<byte>, at: nat, e: Entry, next: int)
    requires |e.fields| == FIELDS && e.fields[6] >= 0 && IsMagic(e.magic)
    ensures TurnData(raw, e.magic, e.name, e.fields, at) == Ok(Step(e, next)) <==> DataStands(raw, at, e, next)
  {
    MagicIff(e.magic);
    AlignIsRoundUp(at + e.fields[6]);
    if at + e.fields[6] <= |raw| {
      SliceInside(raw, at, at + e.fields[6]);
    }
  }

  lemma MagicStandsIff(raw: seq<byte>, offset: nat, magic: seq<byte>)
    ensures MagicStands(raw, offset, magic) <==>
            offset + HEADER_SIZE <= |raw| && IsMagic(magic) && Slice(raw, offset, offset + 6) == magic
  {
    MagicIff(magic);
    if offset + HEADER_SIZE <= |raw| {
      SliceInside(raw, offset, offset + 6);
    }
  }

  lemma DataKeeps(raw: seq<byte>, magic: seq<byte>, name: string, fields: seq<int>, at: int, e: Entry, next: int)
    requires |fields| == FIELDS && TurnData(raw, magic, name, fields, at) == Ok(Step(e, next))
    ensures e.magic == magic && e.name == name && e.fields == fields
  {
  }

  lemma NamedKeeps(raw: seq<byte>, magic: seq<byte>, fields: seq<int>, at: int, e: Entry, next: int)
    requires |fields| == FIELDS && TurnNamed(raw, magic, fields, at) == Ok(Step(e, next))
    ensures e.magic == magic && e.fields == fields && NameAt(raw, fields, at) == Ok(e.name)
    ensures TurnData(raw, magic, e.name, fields, Align4(at + fields[NAME_SIZE])) == Ok(Step(e, next))
  {
    DataKeeps(raw, magic, NameAt(raw, fields, at).value, fields, Align4(at + fields[NAME_SIZE]), e, next);
  }

  /** The head of a turn that takes an entry. */
  lemma TurnHead(raw: seq<byte>, offset: int, magic: seq<byte>, fields: Option<seq<int>>, turn: Result<Step, Error>)
    requires turn == Turn(raw, offset) && turn.Ok? && magic == Slice(raw, offset, offset + 6) && fields == FieldsAt(raw, offset + 6)
    ensures offset + HEADER_SIZE <= |raw| && IsMagic(magic) && fields.Some?
    ensures turn == TurnNamed(raw, magic, fields.value, offset + HEADER_SIZE)
  {
  }

  lemma StandingIsTaken(raw: seq<byte>, offset: nat, e: Entry, next: int, nameEnd: nat)
    requires MagicStands(raw, offset, e.magic) && |e.fields| == FIELDS && FieldsStand(raw, offset + 6, e.fields)
    requires NameStands(raw, offset + 110, e.fields[11], e.name) && nameEnd == offset + 110 + e.fields[11]
    requires DataStands(raw, RoundUp4(nameEnd), e, next)
    ensures Turn(raw, offset) == Ok(Step(e, next))
  {
    MagicStandsIff(raw, offset, e.magic);
    FieldsIff(raw, offset + 6, e.fields);
    NameIff(raw, e.fields, offset + 110, e.name);
    AlignIsRoundUp(nameEnd);
    DataIff(raw, RoundUp4(nameEnd), e, next);
    NameThenData(raw, e, offset + 110, nameEnd, RoundUp4(nameEnd), Ok(Step(e, next)));
    HeaderThenName(raw, e, offset, Ok(Step(e, next)));
  }

  lemma DataBehind(raw: seq<byte>, nameEnd: nat, e: Entry, next: int)
    requires |e.fields| == FIELDS && e.fields[6] >= 0 && IsMagic(e.magic)
    requires TurnData(raw, e.magic, e.name, e.fields, Align4(nameEnd)) == Ok(Step(e, next))
    ensures DataStands(raw, RoundUp4(nameEnd), e, next)
  {
    AlignIsRoundUp(nameEnd);
    DataIff(raw, RoundUp4(nameEnd), e, next);
  }

  lemma PartsStand(raw: seq<byte>, offset: nat, nameEnd: nat, e: Entry, next: int)
    requires MagicStands(raw, offset, e.magic) && FieldsStand(raw, offset + 6, e.fields)
    requires NameStands(raw, offset + 110, e.fields[11], e.name) && nameEnd == offset + 110 + e.fields[11]
    requires DataStands(raw, RoundUp4(nameEnd), e, next)
    ensures StandsAt(raw, offset, e, next)
  {
  }

  lemma NamedStands(raw: seq<byte>, offset: nat, nameStart: nat, nameEnd: int, e: Entry, next: int)
    requires MagicStands(raw, offset, e.magic) && FieldsStand(raw, offset + 6, e.fields) && e.fields[6] >= 0
    requires nameStart == offset + 110 && NameAt(raw, e.fields, nameStart) == Ok(e.name) && nameEnd == nameStart + e.fields[11]
    requires TurnData(raw, e.magic, e.name, e.fields, Align4(nameEnd)) == Ok(Step(e, next))
    ensures StandsAt(raw, offset, e, next)
  {
    NameIff(raw, e.fields, nameStart, e.name);
    MagicIff(e.magic);
    DataBehind(raw, nameEnd, e, next);
    PartsStand(raw, offset, nameEnd, e, next);
  }

  lemma TakenStands(raw: seq<byte>, offset: nat, nameStart: nat, magic: seq<byte>, fields: seq<int>, e: Entry, next: int)
    requires nameStart == offset + 110 && MagicStands(raw, offset, magic) && FieldsStand(raw, offset + 6, fields)
    requires TurnNamed(raw, magic, fields, nameStart) == Ok(Step(e, next))
    ensures e.fields == fields && (fields[6] >= 0 ==> StandsAt(raw, offset, e, next))
  {
    NamedKeeps(raw, magic, fields, nameStart, e, next);
    if fields[6] >= 0 {
      NamedStands(raw, offset, nameStart, nameStart + fields[11], e, next);
    }
  }

  lemma HeadStands(raw: seq<byte>, offset: nat, magic: seq<byte>, fields: Option<seq<int>>)
    requires offset + HEADER_SIZE <= |raw| && IsMagic(magic) && magic == Slice(raw, offset, offset + 6)
    requires fields == FieldsAt(raw, offset + 6) && fields.Some?
    ensures MagicStands(raw, offset, magic) && FieldsStand(raw, offset + 6, fields.value)
  {
    MagicStandsIff(raw, offset, magic);
    FieldsIff(raw, offset + 6, fields.value);
  }

  lemma TurnStands(raw: seq<byte>, offset: nat, e: Entry, next: int, turn: Result<Step, Error>)
    requires turn == Turn(raw, offset) && turn == Ok(Step(e, next))
    ensures |e.fields| == 13 && (e.fields[6] >= 0 ==> StandsAt(raw, offset, e, next))
  {
    var magic, fields := Slice(raw, offset, offset + 6), FieldsAt(raw, offset + 6);
    TurnHead(raw, offset, magic, fields, turn);
    HeadStands(raw, offset, magic, fields);
    TakenStands(raw, offset, offset + 110, magic, fields.value, e, next);
  }

  /** One turn takes exactly the entry that stands there, negative sizes aside. */
  lemma TurnIff(raw: seq<byte>, offset: nat, e: Entry, next: int)
    ensures Turn(raw, offset) == Ok(Step(e, next)) && |e.fields| == 13 && e.fields[6] >= 0 <==> StandsAt(raw, offset, e, next)
  {
    if StandsAt(raw, offset, e, next) {
      StandingIsTaken(raw, offset, e, next, offset + 110 + e.fields[11]);
    }
    var turn := Turn(raw, offset);
    if turn == Ok(Step(e, next)) {
      TurnStands(raw, offset, e, next, turn);
    }
  }

  // ---- a whole archive

  /** From `offset` on these entries stand one behind the other, and the last one ends at `end`. */
  ghost predicate ChainFrom(raw: seq<byte>, entries: seq<Entry>, offset: nat, end: int)
    decreases |entries|
  {
    if entries == [] then offset == end
    else exists next: nat :: StandsAt(raw, offset, entries[0], next) && ChainFrom(raw, entries[1..], next, end)
  }

  /** No entry has a negative size. */
  predicate SizesOk(entries: seq<Entry>) {
    forall i :: 0 <= i < |entries| ==> |entries[i].fields| == 13 && entries[i].fields[6] >= 0
  }

  lemma StandingIsTurn(raw: seq<byte>, turns: Turns, offset: nat, e: Entry, next: nat)
    requires turns == TurnsOf(raw) && StandsAt(raw, offset, e, next)
    ensures turns(offset) == Ok(Step(e, next)) && next > offset && |e.fields| == 13 && e.fields[6] >= 0
  {
    TurnIff(raw, offset, e, next);
  }

  lemma ReadOneMore(turns: Turns, entries: seq<Entry>, offset: int, next: int, end: int)
    requires entries != [] && turns(offset) == Ok(Step(entries[0], next)) && next > offset && Reads(turns, entries[1..], next, end)
    ensures Reads(turns, entries, offset, end)
  {
  }

  lemma SizesOfMore(entries: seq<Entry>)
    requires entries != []
    ensures SizesOk(entries) <==> |entries[0].fields| == 13 && entries[0].fields[6] >= 0 && SizesOk(entries[1..])
  {
    assert forall i :: 0 < i < |entries| ==> entries[i] == entries[1..][i - 1];
    assert forall i :: 0 <= i < |entries| - 1 ==> entries[1..][i] == entries[i + 1];
  }

  lemma {:induction false} ChainIsRead(raw: seq<byte>, turns: Turns, entries: seq<Entry>, offset: nat, end: int)
    requires turns == TurnsOf(raw) && ChainFrom(raw, entries, offset, end)
    ensures Reads(turns, entries, offset, end) && SizesOk(entries)
    decreases |entries|
  {
    if entries != [] {
      var next: nat :| StandsAt(raw, offset, entries[0], next) && ChainFrom(raw, entries[1..], next, end);
      StandingIsTurn(raw, turns, offset, entries[0], next);
      ChainIsRead(raw, turns, entries[1..], next, end);
      ReadOneMore(turns, entries, offset, next, end);
      SizesOfMore(entries);
    }
  }

  lemma TurnIsStanding(raw: seq<byte>, turns: Turns, offset: nat, e: Entry, next: int)
    requires turns == TurnsOf(raw) && turns(offset) == Ok(Step(e, next)) && |e.fields| == 13 && e.fields[6] >= 0
    ensures StandsAt(raw, offset, e, next) && next >= 0
  {
    TurnIff(raw, offset, e, next);
  }

  /** The first entry that a scan takes, and the scan behind it. */
  lemma ScanFront(turns: Turns, size: nat, offset: int, seen: set<int>, entries: seq<Entry>, end: int) returns (next: int)
    requires Bounded(turns, size) && offset !in seen
    requires ScanFrom(turns, size, offset, seen) == Stopped(Ok((entries, end)))
    ensures entries != [] && turns(offset) == Ok(Step(entries[0], next))
    ensures entries[0].name == TRAILER ==> entries[1..] == [] && next == end
    ensures entries[0].name != TRAILER ==>
              next !in seen + {offset} && |UpTo(size) - (seen + {offset})| < |UpTo(size) - seen|
              && ScanFrom(turns, size, next, seen + {offset}) == Stopped(Ok((entries[1..], end)))
  {
    var e := turns(offset).value.entry;
    next := turns(offset).value.next;
    if e.name != TRAILER {
      OneOffsetLess(UpTo(size), seen, offset);
      var more := ScanFrom(turns, size, next, seen + {offset});
      assert entries == [e] + more.result.value.0;
      assert entries[1..] == more.result.value.0;
    }
  }

  lemma TrailerStaysLast(entries: seq<Entry>)
    requires entries != [] && entries[0].name != TRAILER && EndsWithTrailer(entries[1..])
    ensures EndsWithTrailer(entries)
  {
    assert entries[|entries| - 1] == entries[1..][|entries| - 2];
    assert forall i :: 0 < i < |entries| - 1 ==> entries[i] == entries[1..][i - 1];
  }

  lemma {:induction false} ScannedIsChain(raw: seq<byte>, turns: Turns, size: nat, offset: nat, seen: set<int>, entries: seq<Entry>, end: int)
    requires turns == TurnsOf(raw) && Bounded(turns, size) && offset !in seen && SizesOk(entries)
    requires ScanFrom(turns, size, offset, seen) == Stopped(Ok((entries, end)))
    ensures ChainFrom(raw, entries, offset, end) && EndsWithTrailer(entries)
    decreases |UpTo(size) - seen|
  {
    var after := ScanFront(turns, size, offset, seen, entries, end);
    SizesOfMore(entries);
    TurnIsStanding(raw, turns, offset, entries[0], after);
    var next: nat := after;
    if entries[0].name == TRAILER {
      assert ChainFrom(raw, entries[1..], next, end);
    } else {
      ScannedIsChain(raw, turns, size, next, seen + {offset}, entries[1..], end);
      TrailerStaysLast(entries);
    }
  }

  /** Nothing but zeros from `end` on. */
  predicate ZeroFrom(raw: seq<byte>, end: int) {
    forall i :: end <= i < |raw| && 0 <= i ==> raw[i] == 0
  }

  /**
   The whole format: entries one behind the other from the start, the description first, the trailer
   last and no name twice; then zeros, up to a multiple of 4096.
   */
  ghost predicate IsArchive(raw: seq<byte>, entries: seq<Entry>, end: nat) {
    && ChainFrom(raw, entries, 0, end) && entries != []
    && entries[0].name == "sw-description" && entries[|entries| - 1].name == "TRAILER!!!"
    && (forall i, j :: 0 <= i < j < |entries| ==> entries[i].name != entries[j].name)
    && ZeroFrom(raw, end) && |raw| % 4096 == 0
  }

  lemma TailIff(raw: seq<byte>, end: nat)
    ensures AllZero(Slice(raw, end, |raw|)) <==> ZeroFrom(raw, end)
  {
    if end < |raw| {
      SliceInside(raw, end, |raw|);
      forall i | end <= i < |raw|
        ensures raw[i] == raw[end..][i - end]
      {
      }
      assert raw[end..|raw|] == raw[end..];
    }
  }

  lemma CheckedIff(raw: seq<byte>, entries: seq<Entry>, end: nat)
    ensures Checked(raw, entries, Slice(raw, end, |raw|)) == Ok(entries) <==>
            && entries != [] && entries[0].name == "sw-description" && entries[|entries| - 1].name == "TRAILER!!!"
            && (forall i, j :: 0 <= i < j < |entries| ==> entries[i].name != entries[j].name)
            && ZeroFrom(raw, end) && |raw| % 4096 == 0
  {
    TailIff(raw, end);
    assert DESCRIPTION == "sw-description" && TRAILER == "TRAILER!!!";
  }

  lemma {:induction false} ChainEndsInside(raw: seq<byte>, entries: seq<Entry>, offset: nat, end: int)
    requires ChainFrom(raw, entries, offset, end)
    ensures end >= offset
    decreases |entries|
  {
    if entries != [] {
      var next: nat :| StandsAt(raw, offset, entries[0], next) && ChainFrom(raw, entries[1..], next, end);
      ChainEndsInside(raw, entries[1..], next, end);
    }
  }

  lemma ArchiveIsAccepted(raw: seq<byte>, entries: seq<Entry>, end: nat)
    requires IsArchive(raw, entries, end)
    ensures Parsed(raw) == Finished(Ok(entries)) && SizesOk(entries)
  {
    ChainIsRead(raw, TurnsOf(raw), entries, 0, end);
    CheckedIff(raw, entries, end);
    OrderedEndsWithTrailer(entries);
    ReadIsScanned(TurnsOf(raw), raw, entries, end);
    ScanIsJudged(raw, entries, end, Slice(raw, end, |raw|));
  }

  lemma AcceptedIsArchive(raw: seq<byte>, entries: seq<Entry>) returns (end: nat)
    requires Parsed(raw) == Finished(Ok(entries)) && SizesOk(entries)
    ensures IsArchive(raw, entries, end)
  {
    TurnsAreBounded(raw);
    var scan := ScanOf(raw);
    var next := scan.result.value.1;
    CheckedIsOrdered(raw, scan.result.value.0, Slice(raw, next, |raw|), entries);
    ScannedIsChain(raw, TurnsOf(raw), |raw|, 0, {}, entries, next);
    ChainEndsInside(raw, entries, 0, next);
    end := next;
    CheckedIff(raw, entries, end);
  }

  /** The parser accepts exactly the archives, each as what it is, negative sizes aside. */
  lemma AcceptedIff(raw: seq<byte>, entries: seq<Entry>)
    ensures Parsed(raw) == Finished(Ok(entries)) && SizesOk(entries) <==> exists end :: IsArchive(raw, entries, end)
  {
    if end :| IsArchive(raw, entries, end) {
      ArchiveIsAccepted(raw, entries, end);
    }
    if Parsed(raw) == Finished(Ok(entries)) && SizesOk(entries) {
      var end := AcceptedIsArchive(raw, entries);
    }
  }
}
