/** What the parser accepts is well-formed; and an input on which it never ends. */
module CpioSoundness {
  import opened Basics
  import Utf8
  import opened PythonHex
  import opened Cpio
  import opened CpioParser

  // ---- what is accepted

  lemma SliceIsShort(raw: seq<byte>, at: int, n: nat)
    ensures |Slice(raw, at, at + n)| <= n
  {
  }

  lemma PiecesAreShort(raw: seq<byte>, at: int, count: nat)
    ensures forall i :: 0 <= i < count ==> |PiecesAt(raw, at, count)[i]| <= 8
  {
    forall i | 0 <= i < count
      ensures |PiecesAt(raw, at, count)[i]| <= 8
    {
      SliceIsShort(raw, at + 8 * i, 8);
    }
  }

  lemma FirstPiece(raw: seq<byte>, at: int, count: nat)
    requires count > 0
    ensures PiecesAt(raw, at, count) == [Slice(raw, at, at + 8)] + PiecesAt(raw, at + 8, count - 1)
  {
    forall i | 0 < i < count
      ensures PiecesAt(raw, at, count)[i] == PiecesAt(raw, at + 8, count - 1)[i - 1]
    {
      assert at + 8 + 8 * (i - 1) == at + 8 * i;
    }
  }

  lemma FieldsFit(raw: seq<byte>, at: int)
    requires FieldsAt(raw, at).Some?
    ensures AllFit(FieldsAt(raw, at).value)
  {
    PiecesAreShort(raw, at, FIELDS);
    ParsedAllFit(PiecesAt(raw, at, FIELDS));
  }

  /** The size of the archive keeps every entry below 2^32 bytes. */
  predicate Small(raw: seq<byte>) {
    |raw| < TWO_32 - 1
  }

  lemma DataIsOk(raw: seq<byte>, magic: seq<byte>, name: string, fields: seq<int>, dataStart: int, turn: Result<Step, Error>)
    requires Small(raw) && IsMagic(magic) && |fields| == FIELDS && AllFit(fields) && |Utf8.Encode(name)| + 1 < TWO_32
    requires turn == TurnData(raw, magic, name, fields, dataStart) && turn.Ok?
    ensures EntryOk(turn.value.entry)
  {
  }

  lemma NameIsShort(raw: seq<byte>, fields: seq<int>, nameStart: int, name: string)
    requires Small(raw) && |fields| == FIELDS && NameAt(raw, fields, nameStart) == Ok(name)
    ensures |Utf8.Encode(name)| + 1 < TWO_32
  {
    Utf8.EncodeOfDecode(Slice(raw, nameStart, nameStart + fields[NAME_SIZE] - 1));
  }

  lemma NamedIsOk(raw: seq<byte>, magic: seq<byte>, fields: seq<int>, nameStart: int, turn: Result<Step, Error>)
    requires Small(raw) && IsMagic(magic) && |fields| == FIELDS && AllFit(fields)
    requires turn == TurnNamed(raw, magic, fields, nameStart) && turn.Ok?
    ensures EntryOk(turn.value.entry)
  {
    var name := NameAt(raw, fields, nameStart);
    if name.Ok? {
      NameIsShort(raw, fields, nameStart, name.value);
      DataIsOk(raw, magic, name.value, fields, Align4(nameStart + fields[NAME_SIZE]), turn);
    }
  }

  lemma TurnIsOk(raw: seq<byte>, offset: int, turn: Result<Step, Error>)
    requires Small(raw) && turn == Turn(raw, offset) && turn.Ok?
    ensures EntryOk(turn.value.entry)
  {
    var magic, fields := Slice(raw, offset, offset + 6), FieldsAt(raw, offset + 6);
    FieldsFit(raw, offset + 6);
    NamedIsOk(raw, magic, fields.value, offset + HEADER_SIZE, turn);
  }

  ghost predicate AllTurns(turns: Turns, good: Entry -> bool) {
    forall i :: turns(i).Ok? ==> good(turns(i).value.entry)
  }

  lemma {:induction false} ScanIsGood(turns: Turns, size: nat, offset: int, seen: set<int>, good: Entry -> bool, scan: Scan)
    requires Bounded(turns, size) && offset !in seen && AllTurns(turns, good)
    requires scan == ScanFrom(turns, size, offset, seen) && scan.Stopped? && scan.result.Ok?
    ensures forall i :: 0 <= i < |scan.result.value.0| ==> good(scan.result.value.0[i])
    decreases |UpTo(size) - seen|
  {
    var step := turns(offset).value;
    if step.entry.name != TRAILER {
      OneOffsetLess(UpTo(size), seen, offset);
      ScanIsGood(turns, size, step.next, seen + {offset}, good, ScanFrom(turns, size, step.next, seen + {offset}));
    }
  }

  function HasFields(): Entry -> bool {
    (e: Entry) => |e.fields| == FIELDS
  }

  function IsOk(): Entry -> bool {
    (e: Entry) => EntryOk(e)
  }

  /** Whatever is parsed has thirteen fields, and is well-formed if the input is small. */
  lemma ParsedIsOk(raw: seq<byte>, entries: seq<Entry>)
    requires Parsed(raw) == Finished(Ok(entries))
    ensures Shaped(entries) && WellOrdered(entries)
    ensures Small(raw) ==> EntriesOk(entries)
  {
    var turns := TurnsOf(raw);
    TurnsAreBounded(raw);
    forall i | turns(i).Ok?
      ensures HasFields()(turns(i).value.entry) && (Small(raw) ==> IsOk()(turns(i).value.entry))
    {
      TurnAdvances(raw, i, Turn(raw, i));
      if Small(raw) {
        TurnIsOk(raw, i, Turn(raw, i));
      }
    }
    var scan := ScanOf(raw);
    ScanIsGood(turns, |raw|, 0, {}, HasFields(), scan);
    if Small(raw) {
      ScanIsGood(turns, |raw|, 0, {}, IsOk(), scan);
    }
    CheckedIsOrdered(raw, scan.result.value.0, Slice(raw, scan.result.value.1, |raw|), entries);
  }

  lemma CheckedIsOrdered(raw: seq<byte>, taken: seq<Entry>, tail: seq<byte>, entries: seq<Entry>)
    requires Checked(raw, taken, tail) == Ok(entries)
    ensures entries == taken && WellOrdered(entries)
  {
  }

  // ---- an input without end

  lemma {:induction false} PiecesAgree(raw: seq<byte>, at: nat, count: nat, text: seq<byte>)
    requires at + |text| <= |raw| && |text| == 8 * count && text == raw[at..at + |text|]
    ensures PiecesAt(raw, at, count) == Chunks(text)
    decreases count
  {
    if count > 0 {
      assert text[..8] == raw[at..at + 8] && text[8..] == raw[at + 8..at + 8 + |text[8..]|];
      SliceInside(raw, at, at + 8);
      FirstPiece(raw, at, count);
      PiecesAgree(raw, at + 8, count - 1, text[8..]);
    }
  }

  lemma BackwardData(raw: seq<byte>, name: string, fields: seq<int>)
    requires |fields| == FIELDS && fields[FILE_SIZE] == -128 && |raw| >= 125
    ensures TurnData(raw, NEWC_MAGIC, name, fields, 128).Ok?
    ensures TurnData(raw, NEWC_MAGIC, name, fields, 128).value.next == 0
    ensures TurnData(raw, NEWC_MAGIC, name, fields, 128).value.entry.name == name
  {
    assert NEWC_MAGIC[5] != CRC_MAGIC[5];
  }

  lemma BackwardName(raw: seq<byte>, front: seq<byte>, fields: seq<int>, name: seq<byte>)
    requires raw == front + (name + [0]) && |front| == HEADER_SIZE && |fields| == FIELDS
    requires name == Utf8.Encode(DESCRIPTION) && |name| == 14 && fields[NAME_SIZE] == 15
    ensures NameAt(raw, fields, HEADER_SIZE) == Ok(DESCRIPTION)
  {
    assert raw[HEADER_SIZE..HEADER_SIZE + 14] == name;
    SliceInside(raw, HEADER_SIZE, HEADER_SIZE + 14);
    Utf8.DecodeOfEncode(DESCRIPTION);
    assert At(raw, HEADER_SIZE + 14) == Some(0);
  }

  lemma BackwardHeader(raw: seq<byte>, text: seq<byte>, fields: seq<int>, rest: seq<byte>)
    requires raw == NEWC_MAGIC + text + rest && |text| == 8 * FIELDS
    requires HeaderFields(text) == Some(fields) && |fields| == FIELDS
    ensures Turn(raw, 0) == TurnNamed(raw, NEWC_MAGIC, fields, HEADER_SIZE)
  {
    assert raw[..6] == NEWC_MAGIC && raw[6..HEADER_SIZE] == text;
    SliceInside(raw, 0, 6);
    PiecesAgree(raw, 6, FIELDS, text);
  }

  /** An entry whose size leads from behind its name back to the start of the file. */
  lemma BackwardNamed(raw: seq<byte>, front: seq<byte>, fields: seq<int>, name: seq<byte>, turn: Result<Step, Error>)
    requires raw == front + (name + [0]) && |front| == HEADER_SIZE && |fields| == FIELDS
    requires name == Utf8.Encode(DESCRIPTION) && |name| == 14 && fields[NAME_SIZE] == 15 && fields[FILE_SIZE] == -128
    requires turn == TurnNamed(raw, NEWC_MAGIC, fields, HEADER_SIZE)
    ensures turn.Ok? && turn.value.next == 0 && turn.value.entry.name == DESCRIPTION
  {
    BackwardName(raw, front, fields, name);
    BackwardData(raw, DESCRIPTION, fields);
  }

  lemma BackToStart(turns: Turns, size: nat, step: Step)
    requires Bounded(turns, size) && turns(0) == Ok(step) && step.next == 0 && step.entry.name != TRAILER
    ensures ScanFrom(turns, size, 0, {}) == Endless
  {
  }

  lemma DescriptionIsNoTrailer()
    ensures DESCRIPTION != TRAILER
  {
    assert |DESCRIPTION| == 14 && |TRAILER| == 10;
  }

  /** The fields of such an entry. */
  function BackwardFields(): seq<int> {
    [0, 0, 0, 0, 0, 0, -128, 0, 0, 0, 0, 15, 0]
  }

  lemma BackwardTurn(raw: seq<byte>, text: seq<byte>, fields: seq<int>, name: seq<byte>, turn: Result<Step, Error>)
    requires raw == NEWC_MAGIC + text + (name + [0]) && |text| == 8 * FIELDS
    requires HeaderFields(text) == Some(fields) && |fields| == FIELDS && fields[NAME_SIZE] == 15 && fields[FILE_SIZE] == -128
    requires name == Utf8.Encode(DESCRIPTION) && |name| == 14 && turn == Turn(raw, 0)
    ensures turn.Ok? && turn.value.next == 0 && turn.value.entry.name != TRAILER
  {
    BackwardHeader(raw, text, fields, name + [0]);
    BackwardNamed(raw, NEWC_MAGIC + text, fields, name, turn);
    DescriptionIsNoTrailer();
  }

  /** A file that consists of that entry alone: the parser stays at its first byte for ever. */
  lemma BackwardEntryRunsForever(raw: seq<byte>, fields: seq<int>)
    requires fields == BackwardFields()
    requires raw == NEWC_MAGIC + HeaderText(fields) + (Utf8.Encode(DESCRIPTION) + [0])
    ensures Parsed(raw) == RunsForever
  {
    BackwardFieldsFit();
    HeaderReadsBack(fields);
    DescriptionBytes();
    BackwardTurn(raw, HeaderText(fields), fields, Utf8.Encode(DESCRIPTION), Turn(raw, 0));
    StuckAtStart(raw, Turn(raw, 0));
  }

  lemma BackwardFieldsFit()
    ensures AllFit(BackwardFields())
  {
  }

  lemma DescriptionBytes()
    ensures |Utf8.Encode(DESCRIPTION)| == 14
  {
    Utf8.EncodeAscii(DESCRIPTION);
  }

  lemma StuckAtStart(raw: seq<byte>, turn: Result<Step, Error>)
    requires Turn(raw, 0) == turn && turn.Ok? && turn.value.next == 0 && turn.value.entry.name != TRAILER
    ensures Parsed(raw) == RunsForever
  {
    TurnsAreBounded(raw);
    BackToStart(TurnsOf(raw), |raw|, turn.value);
  }
}
