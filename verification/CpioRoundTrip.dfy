/** The parser and the printer of the cpio archive undo each other. */
module CpioRoundTrip {
  import opened Basics
  import Utf8
  import opened PythonHex
  import opened Cpio
  import opened CpioParser
  import opened CpioSoundness

  // ---- one entry

  lemma NormalizedIsOk(e: Entry)
    requires EntryOk(e)
    ensures EntryOk(Normalized(e)) && Normalized(Normalized(e)) == Normalized(e)
    ensures Printed(Normalized(e)) == Printed(e)
  {
    var n := Normalized(e);
    AllFitUpdate(e.fields, FILE_SIZE, n.fields[FILE_SIZE]);
    AllFitUpdate(e.fields[FILE_SIZE := n.fields[FILE_SIZE]], NAME_SIZE, n.fields[NAME_SIZE]);
    AllFitUpdate(e.fields[FILE_SIZE := n.fields[FILE_SIZE]][NAME_SIZE := n.fields[NAME_SIZE]], CHECK, n.fields[CHECK]);
    assert Normalized(n).fields == n.fields;
  }

  /** Where the parts of a printed entry lie. */
  lemma Layout(magic: seq<byte>, text: seq<byte>, name: seq<byte>, pad: seq<byte>, data: seq<byte>, after: seq<byte>, rest: seq<byte>, s: seq<byte>)
    requires |magic| == 6 && |text| == 104
    requires s == (((magic + text + (name + [0])) + pad) + (data + after)) + rest
    ensures var nameEnd := HEADER_SIZE + |name| + 1;
            var dataStart := nameEnd + |pad|;
      && |s| >= dataStart + |data| && s[..6] == magic && s[6..HEADER_SIZE] == text
      && s[HEADER_SIZE..nameEnd - 1] == name && s[nameEnd - 1] == 0
      && s[dataStart..dataStart + |data|] == data
  {
  }

  /** Where the parts of a printed entry lie, in terms of the entry and its name in bytes. */
  predicate LaidOut(n: Entry, name: seq<byte>, s: seq<byte>, dataStart: nat) {
    && |n.fields| == FIELDS
    && |s| >= dataStart + |n.data| && dataStart >= HEADER_SIZE + |name| + 1 && s[..6] == n.magic && s[6..HEADER_SIZE] == HeaderText(n.fields)
    && s[HEADER_SIZE..HEADER_SIZE + |name|] == name && s[HEADER_SIZE + |name|] == 0
    && s[dataStart..dataStart + |n.data|] == n.data
  }

  lemma PrintedIsLaidOut(e: Entry, rest: seq<byte>, s: seq<byte>)
    requires EntryOk(e) && s == Printed(e) + rest
    ensures LaidOut(Normalized(e), Utf8.Encode(e.name), s, |Padded(HeadText(e))|)
  {
    NormalizedIsOk(e);
    HeaderReadsBack(Normalized(e).fields);
    Layout(e.magic, HeaderText(Normalized(e).fields), Utf8.Encode(e.name), Pad(|HeadText(e)|, 4),
           e.data, Pad(|e.data|, 4), rest, s);
    PaddedLength(HeadText(e));
  }

  lemma PrintedLength(e: Entry)
    requires |e.fields| == FIELDS
    ensures |Printed(e)| == RoundUp4(|Padded(HeadText(e))| + |e.data|)
  {
    PaddedLength(HeadText(e));
    PaddedLength(e.data);
    RoundUpShifted(|e.data|, |Padded(HeadText(e))|);
  }

  /** A slice behind the first `|front|` bytes. */
  lemma SliceBehind(front: seq<byte>, s: seq<byte>, i: nat, j: nat, raw: seq<byte>, start: int, end: int)
    requires raw == front + s && i <= j <= |s| && start == |front| + i && end == |front| + j
    ensures Slice(raw, start, end) == s[i..j]
  {
    SliceInside(raw, start, end);
    assert raw[start..end] == s[i..j];
  }

  lemma AlignBehind(a: nat, n: nat)
    requires a % 4 == 0
    ensures Align4(a + n) == a + RoundUp4(n)
  {
    RoundUpShifted(n, a);
  }

  /** The sizes and the check are those of the entry. */
  predicate Sized(n: Entry, name: seq<byte>) {
    && |n.fields| == FIELDS && n.fields[FILE_SIZE] == |n.data| && n.fields[NAME_SIZE] == |name| + 1
    && (n.magic == CRC_MAGIC ==> CheckSum(n.data) == n.fields[CHECK])
  }

  lemma NormalizedIsSized(e: Entry)
    requires |e.fields| == FIELDS
    ensures Sized(Normalized(e), Utf8.Encode(e.name))
  {
  }

  lemma DataReadsBack(n: Entry, front: seq<byte>, s: seq<byte>, raw: seq<byte>, dataStart: nat, at: int, dataEnd: int)
    requires raw == front + s && |s| >= dataStart + |n.data| && s[dataStart..dataStart + |n.data|] == n.data
    requires |n.fields| == FIELDS && n.fields[FILE_SIZE] == |n.data| && at == |front| + dataStart && dataEnd == at + |n.data|
    requires n.magic == CRC_MAGIC ==> CheckSum(n.data) == n.fields[CHECK]
    ensures TurnData(raw, n.magic, n.name, n.fields, at) == Ok(Step(n, Align4(dataEnd)))
  {
    SliceBehind(front, s, dataStart, dataStart + |n.data|, raw, at, dataEnd);
  }

  lemma NameReadsBack(fields: seq<int>, name: seq<byte>, text: string, front: seq<byte>, s: seq<byte>, raw: seq<byte>, at: int)
    requires |fields| == FIELDS && fields[NAME_SIZE] == |name| + 1 && Utf8.Decode(name) == Some(text)
    requires raw == front + s && |s| > HEADER_SIZE + |name| && at == |front| + HEADER_SIZE
    requires s[HEADER_SIZE..HEADER_SIZE + |name|] == name && s[HEADER_SIZE + |name|] == 0
    ensures NameAt(raw, fields, at) == Ok(text)
  {
    var nul := at + |name|;
    SliceBehind(front, s, HEADER_SIZE, HEADER_SIZE + |name|, raw, at, nul);
    NulIsThere(front, s, HEADER_SIZE + |name|, raw, nul);
    NameIsThere(raw, fields, at, nul, name, text);
  }

  lemma NulIsThere(front: seq<byte>, s: seq<byte>, i: nat, raw: seq<byte>, nul: int)
    requires raw == front + s && i < |s| && s[i] == 0 && nul == |front| + i
    ensures At(raw, nul) == Some(0)
  {
  }

  lemma NameIsThere(raw: seq<byte>, fields: seq<int>, at: int, nul: int, name: seq<byte>, text: string)
    requires |fields| == FIELDS && fields[NAME_SIZE] >= 1 && nul == at + fields[NAME_SIZE] - 1 && nul < |raw|
    requires Slice(raw, at, nul) == name && At(raw, nul) == Some(0) && Utf8.Decode(name) == Some(text)
    ensures NameAt(raw, fields, at) == Ok(text)
  {
    var nameEnd := at + fields[NAME_SIZE];
    assert nameEnd - 1 == nul;
  }

  lemma NamedReadsBack(n: Entry, name: seq<byte>, front: seq<byte>, s: seq<byte>, raw: seq<byte>, dataStart: nat,
                       at: int, nameEnd: int, dataAt: int, dataEnd: int, turn: Result<Step, Error>)
    requires LaidOut(n, name, s, dataStart) && Sized(n, name) && Utf8.Decode(name) == Some(n.name) && raw == front + s
    requires at == |front| + HEADER_SIZE && nameEnd == at + |name| + 1 && dataAt == |front| + dataStart
    requires Align4(nameEnd) == dataAt && dataEnd == dataAt + |n.data| && turn == Ok(Step(n, Align4(dataEnd)))
    ensures TurnNamed(raw, n.magic, n.fields, at) == turn
  {
    NameReadsBack(n.fields, name, n.name, front, s, raw, at);
    DataReadsBack(n, front, s, raw, dataStart, dataAt, dataEnd);
    NameThenData(raw, n, at, nameEnd, dataAt, turn);
  }

  lemma NameThenData(raw: seq<byte>, n: Entry, nameStart: int, nameEnd: int, dataStart: int, turn: Result<Step, Error>)
    requires |n.fields| == FIELDS && NameAt(raw, n.fields, nameStart) == Ok(n.name)
    requires nameEnd == nameStart + n.fields[NAME_SIZE] && Align4(nameEnd) == dataStart
    requires TurnData(raw, n.magic, n.name, n.fields, dataStart) == turn
    ensures TurnNamed(raw, n.magic, n.fields, nameStart) == turn
  {
  }

  lemma HeaderReadsBehind(n: Entry, front: seq<byte>, s: seq<byte>, raw: seq<byte>, text: seq<byte>)
    requires raw == front + s && |s| >= HEADER_SIZE && s[..6] == n.magic && s[6..HEADER_SIZE] == text
    requires |text| == 8 * FIELDS && HeaderFields(text) == Some(n.fields)
    ensures Slice(raw, |front|, |front| + 6) == n.magic && FieldsAt(raw, |front| + 6) == Some(n.fields)
  {
    SliceBehind(front, s, 0, 6, raw, |front|, |front| + 6);
    var at := |front| + 6;
    assert raw[at..at + |text|] == text;
    PiecesAgree(raw, at, FIELDS, text);
  }

  lemma HeaderThenName(raw: seq<byte>, n: Entry, offset: nat, turn: Result<Step, Error>)
    requires offset + HEADER_SIZE <= |raw| && IsMagic(n.magic) && |n.fields| == FIELDS
    requires Slice(raw, offset, offset + 6) == n.magic && FieldsAt(raw, offset + 6) == Some(n.fields)
    requires turn == TurnNamed(raw, n.magic, n.fields, offset + HEADER_SIZE)
    ensures Turn(raw, offset) == turn
  {
  }

  lemma LaidOutReadsBack(n: Entry, name: seq<byte>, front: seq<byte>, s: seq<byte>, raw: seq<byte>, dataStart: nat,
                         nameEnd: int, dataEnd: int, turn: Result<Step, Error>)
    requires LaidOut(n, name, s, dataStart) && Sized(n, name) && Utf8.Decode(name) == Some(n.name) && raw == front + s
    requires nameEnd == |front| + HEADER_SIZE + |name| + 1 && Align4(nameEnd) == |front| + dataStart
    requires dataEnd == |front| + dataStart + |n.data| && turn == Ok(Step(n, Align4(dataEnd)))
    requires IsMagic(n.magic) && |HeaderText(n.fields)| == 8 * FIELDS && HeaderFields(HeaderText(n.fields)) == Some(n.fields)
    ensures Turn(raw, |front|) == turn
  {
    HeaderReadsBehind(n, front, s, raw, HeaderText(n.fields));
    NamedReadsBack(n, name, front, s, raw, dataStart, |front| + HEADER_SIZE, nameEnd, |front| + dataStart, dataEnd, turn);
    HeaderThenName(raw, n, |front|, turn);
  }

  lemma HeadLength(e: Entry)
    requires |e.fields| == FIELDS && |HeaderText(Normalized(e).fields)| == 8 * FIELDS && |e.magic| == 6
    ensures |HeadText(e)| == HEADER_SIZE + |Utf8.Encode(e.name)| + 1
  {
  }

  /** Where a printed entry at a multiple of four has its data and its end. */
  lemma PrintedOffsets(e: Entry, at: nat, nameEnd: int, dataAt: int, dataEnd: int, next: int)
    requires |e.fields| == FIELDS && at % 4 == 0 && nameEnd == at + |HeadText(e)| && dataAt == at + |Padded(HeadText(e))|
    requires dataEnd == dataAt + |e.data| && next == at + |Printed(e)|
    ensures Align4(nameEnd) == dataAt && Align4(dataEnd) == next
  {
    PaddedLength(HeadText(e));
    AlignBehind(at, |HeadText(e)|);
    PrintedLength(e);
    AlignBehind(at, |Padded(HeadText(e))| + |e.data|);
  }

  lemma LaidOutAt(e: Entry, front: seq<byte>, s: seq<byte>, raw: seq<byte>, dataStart: nat, nameEnd: int, dataAt: int, dataEnd: int,
                  turn: Result<Step, Error>)
    requires EntryOk(e) && raw == front + s && LaidOut(Normalized(e), Utf8.Encode(e.name), s, dataStart)
    requires nameEnd == |front| + HEADER_SIZE + |Utf8.Encode(e.name)| + 1 && dataAt == |front| + dataStart
    requires Align4(nameEnd) == dataAt && dataEnd == dataAt + |e.data| && turn == Ok(Step(Normalized(e), Align4(dataEnd)))
    ensures Turn(raw, |front|) == turn
  {
    NormalizedHeader(e);
    Utf8.DecodeOfEncode(e.name);
    LaidOutReadsBack(Normalized(e), Utf8.Encode(e.name), front, s, raw, dataStart, nameEnd, dataEnd, turn);
  }

  lemma PrintedParts(e: Entry, rest: seq<byte>, s: seq<byte>, dataStart: nat)
    requires EntryOk(e) && s == Printed(e) + rest && dataStart == |Padded(HeadText(e))|
    ensures LaidOut(Normalized(e), Utf8.Encode(e.name), s, dataStart)
    ensures |HeadText(e)| == HEADER_SIZE + |Utf8.Encode(e.name)| + 1
  {
    NormalizedHeader(e);
    HeadLength(e);
    PrintedIsLaidOut(e, rest, s);
  }

  /** A printed entry reads back as itself with its sizes and check recomputed. */
  lemma PrintedReadsBack(e: Entry, front: seq<byte>, rest: seq<byte>, raw: seq<byte>, next: int)
    requires EntryOk(e) && raw == front + (Printed(e) + rest) && |front| % 4 == 0 && next == |front| + |Printed(e)|
    ensures Turn(raw, |front|) == Ok(Step(Normalized(e), next))
  {
    var head, dataStart := |HeadText(e)|, |Padded(HeadText(e))|;
    PrintedParts(e, rest, Printed(e) + rest, dataStart);
    PrintedOffsets(e, |front|, |front| + head, |front| + dataStart, |front| + dataStart + |e.data|, next);
    LaidOutAt(e, front, Printed(e) + rest, raw, dataStart, |front| + head, |front| + dataStart, |front| + dataStart + |e.data|,
              Ok(Step(Normalized(e), next)));
  }

  lemma NormalizedHeader(e: Entry)
    requires EntryOk(e)
    ensures var n := Normalized(e);
      && Sized(n, Utf8.Encode(e.name)) && IsMagic(n.magic) && n.data == e.data && n.name == e.name
      && |HeaderText(n.fields)| == 8 * FIELDS && HeaderFields(HeaderText(n.fields)) == Some(n.fields)
  {
    NormalizedIsSized(e);
    NormalizedIsOk(e);
    HeaderReadsBack(Normalized(e).fields);
  }

  // ---- whole archives

  /** Only the last entry is the trailer. */
  predicate EndsWithTrailer(entries: seq<Entry>) {
    && entries != [] && entries[|entries| - 1].name == TRAILER
    && forall i :: 0 <= i < |entries| - 1 ==> entries[i].name != TRAILER
  }

  ghost predicate AllBelow(seen: set<int>, n: int) {
    forall i :: i in seen ==> i < n
  }

  lemma PrintedIsAligned(e: Entry, at: nat, next: nat)
    requires |e.fields| == FIELDS && at % 4 == 0 && next == at + |Printed(e)|
    ensures next % 4 == 0 && next > at
  {
    PrintedLength(e);
    AlignedSum(at, |Printed(e)|);
  }

  lemma AlignedSum(a: nat, b: nat)
    requires a % 4 == 0 && b % 4 == 0
    ensures (a + b) % 4 == 0
  {
  }

  /** The first entry of a body that stands behind `front`. */
  lemma FirstReadsBack(raw: seq<byte>, front: seq<byte>, e: Entry, more: seq<byte>, tail: seq<byte>, behind: seq<byte>)
    requires EntryOk(e) && raw == front + ((Printed(e) + more) + tail) && behind == front + Printed(e) && |front| % 4 == 0
    ensures raw == behind + (more + tail) && |behind| == |front| + |Printed(e)|
    ensures Turn(raw, |front|) == Ok(Step(Normalized(e), |behind|))
  {
    Associative(Printed(e), more, tail);
    Associative(front, Printed(e), more + tail);
    PrintedReadsBack(e, front, more + tail, raw, |behind|);
  }

  /** From `offset` on the turns give these entries one by one, each ending further on, the last at `end`. */
  ghost predicate Reads(turns: Turns, entries: seq<Entry>, offset: int, end: int)
    decreases |entries|
  {
    if entries == [] then offset == end
    else
      && turns(offset).Ok? && turns(offset).value.entry == entries[0] && turns(offset).value.next > offset
      && Reads(turns, entries[1..], turns(offset).value.next, end)
  }

  /** The first entry of a body that stands behind `front`, as one turn. */
  lemma FirstIsRead(turns: Turns, raw: seq<byte>, front: seq<byte>, entries: seq<Entry>, tail: seq<byte>) returns (behind: seq<byte>)
    requires turns == TurnsOf(raw) && EntriesOk(entries) && entries != [] && |front| % 4 == 0
    requires raw == front + (Body(entries) + tail)
    ensures raw == behind + (Body(entries[1..]) + tail) && |behind| % 4 == 0 && |behind| > |front|
    ensures turns(|front|) == Ok(Step(Normalized(entries[0]), |behind|))
    ensures |behind| + |Body(entries[1..])| == |front| + |Body(entries)|
  {
    behind := front + Printed(entries[0]);
    FirstReadsBack(raw, front, entries[0], Body(entries[1..]), tail, behind);
    PrintedIsAligned(entries[0], |front|, |behind|);
  }

  lemma {:induction false} BodyIsRead(turns: Turns, raw: seq<byte>, front: seq<byte>, entries: seq<Entry>, tail: seq<byte>, end: int)
    requires turns == TurnsOf(raw) && EntriesOk(entries) && raw == front + (Body(entries) + tail) && |front| % 4 == 0
    requires end == |front| + |Body(entries)|
    ensures Reads(turns, AllNormalized(entries), |front|, end)
    decreases |entries|
  {
    if entries != [] {
      var behind := FirstIsRead(turns, raw, front, entries, tail);
      BodyIsRead(turns, raw, behind, entries[1..], tail, end);
      FirstThenMore(turns, entries, |front|, |behind|, end);
    }
  }

  lemma FirstThenMore(turns: Turns, entries: seq<Entry>, offset: int, next: int, end: int)
    requires Shaped(entries) && entries != [] && next > offset && turns(offset) == Ok(Step(Normalized(entries[0]), next))
    requires Reads(turns, AllNormalized(entries[1..]), next, end)
    ensures Reads(turns, AllNormalized(entries), offset, end)
  {
    NormalizedParts(entries);
  }

  lemma {:induction false} ReadsToTrailer(turns: Turns, size: nat, entries: seq<Entry>, offset: int, end: int, seen: set<int>)
    requires Bounded(turns, size) && AllBelow(seen, offset) && EndsWithTrailer(entries) && Reads(turns, entries, offset, end)
    ensures ScanFrom(turns, size, offset, seen) == Stopped(Ok((entries, end)))
    decreases |entries|
  {
    var e, more, next := entries[0], entries[1..], turns(offset).value.next;
    assert entries == [e] + more;
    if more != [] {
      ReadsToTrailer(turns, size, more, next, end, seen + {offset});
    }
    OneTurnThenRest(turns, size, offset, seen, Step(e, next), more, end);
  }

  lemma OneTurnThenRest(turns: Turns, size: nat, offset: int, seen: set<int>, step: Step, all: seq<Entry>, next: int)
    requires Bounded(turns, size) && AllBelow(seen, offset) && turns(offset) == Ok(step) && step.next > offset
    requires if step.entry.name == TRAILER then all == [] && next == step.next
             else ScanFrom(turns, size, step.next, seen + {offset}) == Stopped(Ok((all, next)))
    ensures ScanFrom(turns, size, offset, seen) == Stopped(Ok(([step.entry] + all, next)))
  {
    if step.entry.name == TRAILER {
      assert [step.entry] + all == [step.entry];
    } else {
      OneOffsetLess(UpTo(size), seen, offset);
    }
  }

  lemma NormalizedParts(entries: seq<Entry>)
    requires Shaped(entries) && entries != []
    ensures AllNormalized(entries)[0] == Normalized(entries[0]) && AllNormalized(entries)[1..] == AllNormalized(entries[1..])
  {
  }

  lemma OrderedEndsWithTrailer(entries: seq<Entry>)
    requires WellOrdered(entries)
    ensures EndsWithTrailer(entries)
  {
  }

  lemma PadCompletes(n: nat)
    ensures (n + |Pad(n, ALIGNMENT)|) % ALIGNMENT == 0
  {
    var len: int := n;
    var pad := -len % ALIGNMENT;
    assert len + pad == (len / ALIGNMENT + if len % ALIGNMENT == 0 then 0 else 1) * ALIGNMENT;
  }

  lemma ArchiveIsPadded(entries: seq<Entry>)
    requires Shaped(entries)
    ensures |Archive(entries)| % ALIGNMENT == 0
  {
    PadCompletes(|Body(entries)|);
  }

  lemma NormalizedEndsWithTrailer(entries: seq<Entry>)
    requires WellFormed(entries)
    ensures WellOrdered(AllNormalized(entries)) && EndsWithTrailer(AllNormalized(entries))
  {
    NormalizedKeepsNames(entries);
    SameNamesSameOrder(entries, AllNormalized(entries));
    OrderedEndsWithTrailer(AllNormalized(entries));
  }

  lemma ReadIsScanned(turns: Turns, raw: seq<byte>, entries: seq<Entry>, end: int)
    requires turns == TurnsOf(raw) && EndsWithTrailer(entries) && Reads(turns, entries, 0, end)
    ensures ScanOf(raw) == Stopped(Ok((entries, end)))
  {
    TurnsAreBounded(raw);
    ReadsToTrailer(turns, |raw|, entries, 0, end, {});
  }

  /** The loop on a rebuilt archive. */
  lemma ArchiveIsScanned(entries: seq<Entry>, raw: seq<byte>, tail: seq<byte>)
    requires WellFormed(entries) && raw == Body(entries) + tail
    ensures ScanOf(raw) == Stopped(Ok((AllNormalized(entries), |Body(entries)|)))
  {
    var front: seq<byte> := [];
    assert raw == front + (Body(entries) + tail);
    BodyIsRead(TurnsOf(raw), raw, front, entries, tail, |Body(entries)|);
    NormalizedEndsWithTrailer(entries);
    ReadIsScanned(TurnsOf(raw), raw, AllNormalized(entries), |Body(entries)|);
  }

  /** Parsing a rebuilt archive gives the entries back, with sizes and checks recomputed. */
  lemma ArchiveReadsBack(entries: seq<Entry>)
    requires WellFormed(entries)
    ensures Parsed(Archive(entries)) == Finished(Ok(AllNormalized(entries)))
  {
    ArchiveIsPadded(entries);
    NormalizedEndsWithTrailer(entries);
    PaddedBodyReadsBack(entries, Body(entries), Pad(|Body(entries)|, ALIGNMENT), Archive(entries), AllNormalized(entries));
  }

  lemma PaddedBodyReadsBack(entries: seq<Entry>, body: seq<byte>, tail: seq<byte>, raw: seq<byte>, all: seq<Entry>)
    requires WellFormed(entries) && body == Body(entries) && raw == body + tail && all == AllNormalized(entries)
    requires AllZero(tail) && |raw| % ALIGNMENT == 0 && WellOrdered(all)
    ensures Parsed(raw) == Finished(Ok(all))
  {
    ArchiveIsScanned(entries, raw, tail);
    TailIsRest(raw, body, tail);
    ScanIsJudged(raw, all, |body|, tail);
  }

  lemma TailIsRest(raw: seq<byte>, body: seq<byte>, tail: seq<byte>)
    requires raw == body + tail
    ensures Slice(raw, |body|, |raw|) == tail
  {
    SliceInside(raw, |body|, |raw|);
  }

  lemma ScanIsJudged(raw: seq<byte>, entries: seq<Entry>, next: int, tail: seq<byte>)
    requires ScanOf(raw) == Stopped(Ok((entries, next))) && Slice(raw, next, |raw|) == tail
    requires AllZero(tail) && |raw| % ALIGNMENT == 0 && WellOrdered(entries)
    ensures Parsed(raw) == Finished(Ok(entries))
  {
  }

  lemma SameNamesSameOrder(a: seq<Entry>, b: seq<Entry>)
    requires SameNames(a, b) && WellOrdered(a)
    ensures WellOrdered(b)
  {
  }

  lemma NormalizedKeepsNames(entries: seq<Entry>)
    requires Shaped(entries)
    ensures SameNames(entries, AllNormalized(entries))
  {
  }

  /** Rebuilding is a fixed point after one pass. */
  lemma {:induction false} BodyOfNormalized(entries: seq<Entry>)
    requires EntriesOk(entries)
    ensures Body(AllNormalized(entries)) == Body(entries)
  {
    if entries != [] {
      NormalizedIsOk(entries[0]);
      BodyOfNormalized(entries[1..]);
      NormalizedParts(entries);
    }
  }

  /** Whatever the parser accepts is well-formed, if it is shorter than 2^32 - 1 bytes. */
  lemma ParsedIsWellFormed(raw: seq<byte>, entries: seq<Entry>)
    requires Parsed(raw) == Finished(Ok(entries)) && Small(raw)
    ensures WellFormed(entries)
  {
    ParsedIsOk(raw, entries);
  }

  /** Rebuilding what was parsed parses again, to the same names and data, and rebuilds to itself. */
  lemma RepackIsStable(raw: seq<byte>, entries: seq<Entry>)
    requires Parsed(raw) == Finished(Ok(entries)) && Small(raw)
    ensures WellFormed(entries)
    ensures Parsed(Archive(entries)) == Finished(Ok(AllNormalized(entries)))
    ensures Archive(AllNormalized(entries)) == Archive(entries)
  {
    ParsedIsWellFormed(raw, entries);
    ArchiveReadsBack(entries);
    BodyOfNormalized(entries);
  }

  /** Nothing is lost: two well-formed archives that are written alike hold the same members. */
  lemma ArchiveDetermines(a: seq<Entry>, b: seq<Entry>)
    requires WellFormed(a) && WellFormed(b) && Archive(a) == Archive(b)
    ensures AllNormalized(a) == AllNormalized(b)
  {
    ArchiveReadsBack(a);
    ArchiveReadsBack(b);
  }

  // ---- replacing a member

  function WithData(entries: seq<Entry>, k: nat, content: seq<byte>): (r: seq<Entry>)
    requires k < |entries|
    ensures |r| == |entries|
  {
    entries[k := entries[k].(data := content)]
  }

  lemma ReplacedIsOk(e: Entry, content: seq<byte>)
    requires EntryOk(e) && |content| < TWO_32
    ensures EntryOk(e.(data := content))
  {
  }

  /** A replaced member of any size below 2^32 keeps the archive well-formed. */
  lemma ReplacedIsWellFormed(entries: seq<Entry>, k: nat, content: seq<byte>, r: seq<Entry>)
    requires WellFormed(entries) && k < |entries| && |content| < TWO_32
    requires r == WithData(entries, k, content)
    ensures WellFormed(r) && SameNames(entries, r)
  {
    ReplacedIsOk(entries[k], content);
    forall i | 0 <= i < |r|
      ensures EntryOk(r[i]) && r[i].name == entries[i].name
    {
      assert i != k ==> r[i] == entries[i];
    }
    SameNamesSameOrder(entries, r);
  }

  /** After a replacement the rebuilt archive reads back: the new data there, all else as it was. */
  lemma ReplacedReadsBack(entries: seq<Entry>, k: nat, content: seq<byte>, r: seq<Entry>)
    requires WellFormed(entries) && k < |entries| && |content| < TWO_32
    requires r == WithData(entries, k, content)
    ensures WellFormed(r) && SameNames(entries, r)
    ensures Parsed(Archive(r)) == Finished(Ok(AllNormalized(r))) && Archive(AllNormalized(r)) == Archive(r)
  {
    ReplacedIsWellFormed(entries, k, content, r);
    ArchiveReadsBack(r);
    BodyOfNormalized(r);
    NormalizedLength(r);
  }

  lemma NormalizedLength(entries: seq<Entry>)
    requires EntriesOk(entries) && Body(AllNormalized(entries)) == Body(entries)
    ensures Archive(AllNormalized(entries)) == Archive(entries)
  {
  }

  // ---- the archive object

  /** `k` is the one entry called `name`. */
  predicate TheOne(entries: seq<Entry>, name: string, k: nat) {
    k < |entries| && entries[k].name == name && forall j :: 0 <= j < |entries| && j != k ==> entries[j].name != name
  }

  class CpioArchive {
    var entries: seq<Entry>

    constructor (entries: seq<Entry>)
      ensures this.entries == entries
    {
      this.entries := entries;
    }

    /** The positions of the entries called `name`. */
    method Indexes(name: string) returns (indexes: seq<nat>)
      ensures forall k: nat :: TheOne(entries, name, k) <==> indexes == [k]
    {
      indexes := [];
      for k := 0 to |entries|
        invariant forall i :: 0 <= i < |indexes| ==> indexes[i] < k && entries[indexes[i]].name == name
        invariant forall i, j :: 0 <= i < j < |indexes| ==> indexes[i] < indexes[j]
        invariant forall j :: 0 <= j < k && entries[j].name == name ==> j in indexes
      {
        if entries[k].name == name {
          indexes := indexes + [k];
        }
      }
      assert forall k: nat :: TheOne(entries, name, k) ==> k in indexes;
      assert |indexes| > 1 ==> indexes[0] < indexes[1];
    }

    method Member(name: string) returns (r: Result<seq<byte>, Error>)
      ensures r.Ok? <==> exists k: nat :: TheOne(entries, name, k)
      ensures forall k: nat :: TheOne(entries, name, k) ==> r == Ok(entries[k].data)
    {
      var indexes := Indexes(name);
      if |indexes| != 1 {
        return Err(NotExactlyOne);
      }
      assert indexes == [indexes[0]];
      r := Ok(entries[indexes[0]].data);
    }

    method ReplaceMember(name: string, content: seq<byte>) returns (done: bool)
      modifies this
      ensures done <==> exists k: nat :: TheOne(old(entries), name, k)
      ensures forall k: nat :: TheOne(old(entries), name, k) ==> entries == WithData(old(entries), k, content)
      ensures !done ==> entries == old(entries)
    {
      var indexes := Indexes(name);
      done := |indexes| == 1;
      if done {
        var index := indexes[0];
        assert indexes == [index];
        entries := entries[index := entries[index].(data := content)];
      }
    }

    method Repack() returns (result: seq<byte>)
      requires Shaped(entries)
      ensures result == Archive(entries)
    {
      result := [];
      for k := 0 to |entries|
        invariant |result| % 4 == 0
        invariant result == Body(entries[..k])
      {
        BodyOfPrefix(entries, k);
        result := AppendEntry(result, entries[k]);
      }
      assert entries[..|entries|] == entries;
      result := result + Pad(|result|, ALIGNMENT);
    }
  }

  /** The header and the name, sizes and check recomputed. */
  method AppendHead(was: seq<byte>, e: Entry) returns (result: seq<byte>)
    requires |e.fields| == FIELDS
    ensures result == was + HeadText(e)
  {
    var name := Utf8.Encode(e.name) + [0];
    var fields := e.fields;
    fields := fields[FILE_SIZE := |e.data|];
    fields := fields[NAME_SIZE := |name|];
    fields := fields[CHECK := if e.magic == CRC_MAGIC then CheckSum(e.data) else 0];
    result := was + e.magic;
    result := result + HeaderText(fields);
    result := result + name;
    Associative(was, e.magic, HeaderText(fields));
    Associative(was, e.magic + HeaderText(fields), name);
  }

  /** One turn of the printer's loop. */
  method AppendEntry(was: seq<byte>, e: Entry) returns (result: seq<byte>)
    requires |was| % 4 == 0 && |e.fields| == FIELDS
    ensures |result| % 4 == 0 && result == was + Printed(e)
  {
    result := AppendHead(was, e);
    result := PadTo4(was, HeadText(e), result);
    ghost var headed := result;
    result := result + e.data;
    result := PadTo4(headed, e.data, result);
    Associative(was, Padded(HeadText(e)), Padded(e.data));
  }

  lemma PadIsLocal(a: nat, b: nat)
    requires a % 4 == 0
    ensures Pad(a + b, 4) == Pad(b, 4)
  {
    var x: int, y: int := a, b;
    assert -(x + y) % 4 == (-y - 4 * (x / 4)) % 4;
  }

  method PadTo4(ghost was: seq<byte>, ghost added: seq<byte>, s: seq<byte>) returns (result: seq<byte>)
    requires |was| % 4 == 0 && s == was + added
    ensures result == was + Padded(added) && |result| % 4 == 0
  {
    PadIsLocal(|was|, |added|);
    PaddedLength(added);
    Associative(was, added, Pad(|added|, 4));
    result := s + Pad(|s|, 4);
  }

  lemma {:induction false} BodySnoc(entries: seq<Entry>, e: Entry)
    requires Shaped(entries) && |e.fields| == FIELDS
    ensures Body(entries + [e]) == Body(entries) + Printed(e)
  {
    if entries == [] {
      assert [e][1..] == [];
    } else {
      BodySnoc(entries[1..], e);
      assert (entries + [e])[1..] == entries[1..] + [e];
      Associative(Printed(entries[0]), Body(entries[1..]), Printed(e));
    }
  }

  lemma BodyOfPrefix(entries: seq<Entry>, k: nat)
    requires Shaped(entries) && k < |entries|
    ensures Shaped(entries[..k + 1]) && Shaped(entries[..k])
    ensures Body(entries[..k + 1]) == Body(entries[..k]) + Printed(entries[k])
  {
    BodySnoc(entries[..k], entries[k]);
    assert entries[..k + 1] == entries[..k] + [entries[k]];
  }
}
