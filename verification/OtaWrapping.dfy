/** Sizes that wrap around: a section whose end does not fit a machine word makes the parser panic. */
module OtaWrapping {
  import opened Basics
  import opened Numbers
  import opened Ota
  import opened OtaDamage
  import opened OtaFailures
  import opened OtaPacker
  import opened OtaReader
  import opened OtaRoundTrip
  import opened OtaText
  import opened Text
  import opened Utf8

  // ---- exactly when

  /** The sizes that are read are machine words. */
  lemma {:induction false} SizesAreWords(f: Fields, lines: seq<string>)
    requires f.size < TWO_32
    ensures FoldLines(FieldLine, f, lines).size < TWO_32
    decreases |lines|
  {
    if lines != [] {
      LineKeepsWord(f, lines[0]);
      SizesAreWords(FieldLine(f, lines[0]), lines[1..]);
    }
  }

  lemma LineKeepsWord(f: Fields, line: string)
    requires f.size < TWO_32
    ensures FieldLine(f, line).size < TWO_32
  {
  }

  /** So wherever the parser may be, a section whose end does not fit a word is one that ends before it begins. */
  lemma WrappedIsReversed(part: string, offset: nat)
    requires offset < TWO_32
    ensures Wraps(FieldsOf(part), offset) <==> EndOf(FieldsOf(part), offset) < offset
  {
    SizesAreWords(NO_FIELDS, Lines(part));
    WrapsIffReversed(FieldsOf(part), offset);
  }

  /**
   The scan gets as far as the `k`-th description, since all before it describe sections inside the
   file whose checksums come to an end; the end of this one does not fit a word, and what is left of
   it is not behind the end of the file.
   */
  ghost predicate WrapsAt(fs: seq<Fields>, k: nat, size: nat, bs: nat, offset: nat, room: nat) {
    && k < |fs| && k < room
    && (k > 0 ==> FitsFile(offset + SizeSum(fs[..k]), size))
    && (forall j :: 0 <= j < k ==> !NeverEnds(fs[j], bs))
    && TWO_32 <= offset + SizeSum(fs[..k + 1])
    && (offset + SizeSum(fs[..k + 1])) % TWO_32 <= size
  }

  lemma WrapsFirst(fs: seq<Fields>, size: nat, bs: nat, offset: nat, room: nat)
    requires fs != []
    ensures WrapsAt(fs, 0, size, bs, offset, room) <==> room > 0 && Wraps(fs[0], offset) && EndOf(fs[0], offset) <= size
  {
    var one := fs[..1];
    assert one[1..] == [] && SizeSum(one) == one[0].size + SizeSum(one[1..]);
  }

  lemma SizesLater(fs: seq<Fields>, k: nat)
    requires 0 < k <= |fs|
    ensures SizeSum(fs[..k]) == fs[0].size + SizeSum(fs[1..][..k - 1])
  {
    assert fs[..k][1..] == fs[1..][..k - 1];
  }

  lemma WrapsLater(fs: seq<Fields>, k: nat, size: nat, bs: nat, offset: nat, room: nat)
    requires 0 < k < |fs| && room > 0
    ensures WrapsAt(fs, k, size, bs, offset, room) <==>
              && FitsFile(offset + fs[0].size, size) && !NeverEnds(fs[0], bs)
              && WrapsAt(fs[1..], k - 1, size, bs, offset + fs[0].size, room - 1)
  {
    var rest := fs[1..];
    SizesLater(fs, k);
    SizesLater(fs, k + 1);
    assert forall j :: 0 < j < k ==> fs[j] == rest[j - 1];
    assert forall j :: 0 <= j < k - 1 ==> rest[j] == fs[j + 1];
    assert rest[..0] == [];
  }

  ghost predicate WrapsSomewhere(fs: seq<Fields>, size: nat, bs: nat, offset: nat, room: nat) {
    exists k: nat :: WrapsAt(fs, k, size, bs, offset, room)
  }

  /** Some description wraps: the first, or one behind it if the scan gets past the first. */
  lemma WrapsSomewhereNext(fs: seq<Fields>, size: nat, bs: nat, offset: nat, room: nat, more: seq<Fields>, next: nat, left: nat)
    requires fs != [] && room == left + 1 && more == fs[1..] && next == offset + fs[0].size
    ensures WrapsSomewhere(fs, size, bs, offset, room) <==>
              || (Wraps(fs[0], offset) && EndOf(fs[0], offset) <= size)
              || (IsTaken(fs[0], size, bs, offset) && WrapsSomewhere(more, size, bs, next, left))
  {
    WrapsFirst(fs, size, bs, offset, room);
    if k: nat :| WrapsAt(fs, k, size, bs, offset, room) {
      if k > 0 {
        WrapsLater(fs, k, size, bs, offset, room);
      }
    }
    if IsTaken(fs[0], size, bs, offset) {
      if k: nat :| WrapsAt(more, k, size, bs, next, left) {
        WrapsLater(fs, k + 1, size, bs, offset, room);
      }
    }
  }

  lemma ReversedNext(checks: Checks, fs: seq<Fields>, buf: seq<byte>, bs: nat, offset: nat, room: nat, rest: Scan)
    requires fs != [] && room > 0 && rest == ScanFields(checks, fs[1..], buf, bs, offset + fs[0].size, room - 1)
    ensures ScanFields(checks, fs, buf, bs, offset, room).end == Reversed <==>
              || (Wraps(fs[0], offset) && EndOf(fs[0], offset) <= |buf|)
              || (IsTaken(fs[0], |buf|, bs, offset) && rest.end == Reversed)
  {
  }

  lemma {:induction false} ReversedIff(checks: Checks, fs: seq<Fields>, buf: seq<byte>, bs: nat, offset: nat, room: nat)
    ensures ScanFields(checks, fs, buf, bs, offset, room).end == Reversed <==>
            WrapsSomewhere(fs, |buf|, bs, offset, room)
    decreases |fs|
  {
    if fs != [] && room > 0 {
      var more, next := fs[1..], offset + fs[0].size;
      ReversedIff(checks, more, buf, bs, next, room - 1);
      ReversedNext(checks, fs, buf, bs, offset, room, ScanFields(checks, more, buf, bs, next, room - 1));
      WrapsSomewhereNext(fs, |buf|, bs, offset, room, more, next, room - 1);
    }
  }

  /**
   The parser slices a section backwards exactly when some description is reached whose end does not
   fit a word, and what is left of the end is inside the file.
   */
  lemma OutOfOrderIff(checks: Checks, buf: seq<byte>, room: nat, text: Option<string>)
    requires text == HeaderText(buf)
    ensures ParseOta(checks, buf, room) == OutOfOrder <==>
            text.Some? && WrapsSomewhere(DescribedIn(text.value), |buf|, GlobalsOf(text.value).bsSize, HEADER_SIZE, room)
  {
    if text.Some? {
      var g, fs := GlobalsOf(text.value), DescribedIn(text.value);
      var scan := ScanFields(checks, fs, buf, g.bsSize, HEADER_SIZE, room);
      ParseInTwo(checks, buf, room, text.value, g, scan);
      ReversedIff(checks, fs, buf, g.bsSize, HEADER_SIZE, room);
    }
  }

  /** The two ways to slice what is no range of the file. */
  lemma PanicsIff(checks: Checks, buf: seq<byte>, text: Option<string>)
    requires text == HeaderText(buf)
    ensures Judge(ParseOta(checks, buf, MAX_IMAGES)) == Panics <==>
            text.Some? &&
            ((|buf| < HEADER_SIZE && GlobalsOf(text.value).packetMd5.Some? && DescribesNothing(text.value)) ||
             WrapsSomewhere(DescribedIn(text.value), |buf|, GlobalsOf(text.value).bsSize, HEADER_SIZE, MAX_IMAGES))
  {
    OutOfBoundsIff(checks, buf, MAX_IMAGES, text);
    OutOfOrderIff(checks, buf, MAX_IMAGES, text);
  }

  // ---- a file that does it

  /** A name and a size, and nothing else. */
  function TwoLines(name: string, size: string): (lines: seq<string>)
    ensures |lines| == 2
  {
    [Line("img_name", name), Line("img_size", size)]
  }

  lemma FoldTwo<T>(step: (T, string) -> T, acc: T, a: string, b: string)
    ensures FoldLines(step, acc, [a, b]) == step(step(acc, a), b)
  {
    assert [a, b] == [a] + ([b] + []);
    FoldCons(step, acc, a, [b] + []);
    FoldCons(step, step(acc, a), b, []);
  }

  lemma TwoLinesArePlain(name: string, size: string)
    requires OneLine(name) && OneLine(size)
    ensures forall i :: 0 <= i < 2 ==> OneLine(TwoLines(name, size)[i]) && TwoLines(name, size)[i] != ""
  {
    LineIsPlain("img_name", name);
    LineIsPlain("img_size", size);
  }

  lemma TwoLinesAreRead(name: string, size: string, n: nat, k: nat, text: string, f: Fields)
    requires OneLine(name) && OneLine(size) && Trim(size) == size && ParseUnsigned(size, U32_MAX) == Some(n)
    requires text == Join(TwoLines(name, size)) + "\n" + Nuls(k) && f == NO_FIELDS.(name := Trim(name), size := n)
    ensures FieldsOf(text) == f
  {
    TwoLinesArePlain(name, size);
    FieldLineIgnoresCr();
    FoldJoinedThen(FieldLine, NO_FIELDS, TwoLines(name, size), Nuls(k));
    FoldTwo(FieldLine, NO_FIELDS, Line("img_name", name), Line("img_size", size));
    NameLine(NO_FIELDS, name);
    SizeLine(NO_FIELDS.(name := Trim(name)), size, n);
    NulsSetNothing(f, k);
  }

  lemma TwoLinesDescribe(name: string, size: string, tail: string, text: string)
    requires text == Join(TwoLines(name, size)) + tail
    ensures Describes(text)
  {
    var second := Line("img_size", size);
    assert Join([second]) == second && TwoLines(name, size)[1..] == [second];
    assert text == [] + ("img_name" + ("=" + name + "\n" + second + tail));
    OccursBetween([], "img_name", "=" + name + "\n" + second + tail);
    OccurrenceMeansContains(text, "img_name", 0);
  }

  lemma HeaderWithZeros(header: string, j: nat, k: nat, buf: seq<byte>)
    requires buf == Encode(header) + Zeros(j) && ByteLen(header) <= HEADER_SIZE && k == Min(j, HEADER_SIZE - ByteLen(header))
    ensures HeaderText(buf) == Some(header + Nuls(k))
  {
    assert buf[..Min(HEADER_SIZE, |buf|)] == Encode(header) + Zeros(k);
    DecodeAfterEncoded(header, Zeros(k));
    DecodeZeros(k);
  }

  lemma OneWrappingPart(text: string, f: Fields, size: nat, bs: nat, room: nat)
    requires SplitGaps(text) == [text] && Describes(text) && f == FieldsOf(text)
    requires room > 0 && Wraps(f, HEADER_SIZE) && EndOf(f, HEADER_SIZE) <= size
    ensures WrapsSomewhere(DescribedIn(text), size, bs, HEADER_SIZE, room)
  {
    OneDescribedPart([text], text, Describes, FieldsOf);
    WrapsFirst([f], size, bs, HEADER_SIZE, room);
  }

  lemma SizeIsRead(n: nat, size: string)
    requires n <= U32_MAX && size == Decimal(n)
    ensures OneLine(size) && Trim(size) == size && ParseUnsigned(size, U32_MAX) == Some(n)
  {
    DecimalIsPlain(n);
    ParseOfDecimal(n, U32_MAX);
  }

  /** The parser makes one section of those lines, whatever zero bytes follow them. */
  lemma TwoLinesAreOnePart(name: string, size: string, n: nat, k: nat, text: string, f: Fields)
    requires OneLine(name) && n <= U32_MAX && size == Decimal(n)
    requires text == Join(TwoLines(name, size)) + "\n" + Nuls(k) && f == NO_FIELDS.(name := Trim(name), size := n)
    ensures SplitGaps(text) == [text] && Describes(text) && FieldsOf(text) == f
  {
    SizeIsRead(n, size);
    TwoLinesAreRead(name, size, n, k, text, f);
    TwoLinesArePlain(name, size);
    EndlessTextHasNoGap(TwoLines(name, size), k, text);
    Associative(Join(TwoLines(name, size)), "\n", Nuls(k));
    TwoLinesDescribe(name, size, "\n" + Nuls(k), text);
  }

  lemma WrappedEnd(f: Fields, n: nat, size: nat)
    requires f.size == n && TWO_32 <= HEADER_SIZE + n <= TWO_32 + size && n <= U32_MAX
    ensures Wraps(f, HEADER_SIZE) && EndOf(f, HEADER_SIZE) <= size
  {
    assert EndOf(f, HEADER_SIZE) == HEADER_SIZE + n - TWO_32;
  }

  /**
   Such files: two lines that give any name and a size of 2^32 less the header area, or so little more
   that the end falls inside the file again; then any number of zero bytes.
   */
  lemma WrappingSizePanics(checks: Checks, room: nat, name: string, n: nat, header: string, j: nat, buf: seq<byte>)
    requires room > 0 && OneLine(name) && n <= U32_MAX && TWO_32 <= HEADER_SIZE + n <= TWO_32 + |buf|
    requires header == Join(TwoLines(name, Decimal(n))) + "\n" && ByteLen(header) <= HEADER_SIZE
    requires buf == Encode(header) + Zeros(j)
    ensures ParseOta(checks, buf, room) == OutOfOrder
  {
    var k := Min(j, HEADER_SIZE - ByteLen(header));
    var text, f := header + Nuls(k), NO_FIELDS.(name := Trim(name), size := n);
    HeaderWithZeros(header, j, k, buf);
    TwoLinesAreOnePart(name, Decimal(n), n, k, text, f);
    WrappedEnd(f, n, |buf|);
    WrappingTextPanics(checks, room, buf, text, f);
  }

  lemma WrappingTextPanics(checks: Checks, room: nat, buf: seq<byte>, text: string, f: Fields)
    requires HeaderText(buf) == Some(text) && SplitGaps(text) == [text] && Describes(text) && f == FieldsOf(text)
    requires room > 0 && Wraps(f, HEADER_SIZE) && EndOf(f, HEADER_SIZE) <= |buf|
    ensures ParseOta(checks, buf, room) == OutOfOrder
  {
    OneWrappingPart(text, f, |buf|, GlobalsOf(text).bsSize, room);
    OutOfOrderIff(checks, buf, room, Some(text));
  }
}
