/** Which number the reader takes for the length of the body. */
module HttpLength {
  import opened Basics
  import opened Text
  import opened Numbers
  import opened Http
  import opened HttpPanic
  import Utf8

  /** Line `i` states this length, and no line before it states one or ends the program. */
  ghost predicate StatesAt(lines: seq<string>, i: nat, length: Option<nat>) {
    && i < |lines| && StatesLength(Trim(lines[i])) && SaysLength(Trim(lines[i])[NAME_LENGTH..], length)
    && forall j :: 0 <= j < i ==> !StatesLength(Trim(lines[j])) && !CutsCharacter(Trim(lines[j]))
  }

  /** The number behind the name of the field, white space around it aside; anything else is no length. */
  ghost predicate SaysLength(value: string, length: Option<nat>) {
    match length
    case Some(n) => IsLength(Trim(value), n)
    case None => forall n: nat :: !IsLength(Trim(value), n)
  }

  /** Digits, perhaps behind a plus sign, of a number below 2^32. */
  predicate IsLength(digits: string, n: nat) {
    n < TWO_32 && (IsNumeral(digits, n) || (digits != [] && digits[0] == '+' && IsNumeral(digits[1..], n)))
  }

  lemma ValueIsRead(value: string, length: Option<nat>)
    ensures ParseUnsigned(Trim(value), USIZE_MAX) == length <==> SaysLength(value, length)
  {
    forall n: nat
      ensures ParseUnsigned(Trim(value), USIZE_MAX) == Some(n) <==> IsLength(Trim(value), n)
    {
      ParseUnsignedIff(Trim(value), USIZE_MAX, n);
    }
  }

  /** A line that states a length states the number behind the name. */
  lemma LineSays(line: string, length: Option<nat>)
    requires StatesLength(line)
    ensures LengthIn(line) == Stated(length) <==> SaysLength(line[NAME_LENGTH..], length)
  {
    StatedParts(line);
    ValueIsRead(line[NAME_LENGTH..], length);
  }

  lemma {:induction false} SaysAmong(lines: seq<string>, length: Option<nat>)
    ensures LengthAmong(lines) == Stated(length) <==> exists i: nat :: StatesAt(lines, i, length)
  {
    if lines != [] {
      var line, rest := Trim(lines[0]), lines[1..];
      PanicsInLine(line);
      StatedInLine(line);
      if StatesLength(line) {
        LineSays(line, length);
        assert SaysLength(line[NAME_LENGTH..], length) ==> StatesAt(lines, 0, length);
      } else if !CutsCharacter(line) {
        SaysAmong(rest, length);
        if i: nat :| StatesAt(rest, i, length) {
          assert forall j :: 0 < j < i + 1 ==> lines[j] == rest[j - 1];
          assert StatesAt(lines, i + 1, length);
        }
        if i: nat :| StatesAt(lines, i, length) {
          assert forall j :: 0 <= j < i - 1 ==> rest[j] == lines[j + 1];
          assert StatesAt(rest, i - 1, length);
        }
      }
    }
  }

  /**
   The length that the reader goes by is that of the first line which begins with "content-length:" in
   any case of its letters, if no earlier line ends the program; the number may be missing or too big.
   */
  lemma StatedIff(header: seq<byte>, text: Option<string>, length: Option<nat>)
    requires text == Utf8.Decode(header)
    ensures ContentLength(header) == Stated(length) <==> text.Some? && exists i: nat :: StatesAt(Lines(text.value), i, length)
  {
    if text.Some? {
      assert ContentLength(header) == LengthAmong(Lines(text.value));
      SaysAmong(Lines(text.value), length);
    }
  }

  /**
   Which bytes are the request, for all that can arrive: the header up to the first blank line and as
   many bytes as it states, none if it states no length. The sum is a machine word.
   */
  lemma RequestIff(received: seq<byte>, size: nat)
    ensures OutcomeOf(received) == Request(size) <==> exists h: nat :: EndsAt(received, h, size)
  {
    var found := Find(received, HEADER_END);
    if found.Some? {
      SizeIs(received, found.value, size, ContentLength(received[..found.value]));
    }
    forall h: nat
      ensures EndsAt(received, h, size) ==> found == Some(h)
    {
      FindIff(received, HEADER_END, h);
    }
  }

  /** The header is `h` bytes long, and the request `size`, all of which have arrived. */
  predicate EndsAt(received: seq<byte>, h: nat, size: nat) {
    && FirstAt(received, [13, 10, 13, 10], h)
    && IsSize(ContentLength(received[..h]), h, size) && size <= |received|
  }

  lemma SizeIs(received: seq<byte>, h: nat, size: nat, length: Length)
    requires Find(received, HEADER_END) == Some(h) && length == ContentLength(received[..h])
    ensures OutcomeOf(received) == Request(size) <==> EndsAt(received, h, size)
  {
    FindIff(received, HEADER_END, h);
  }

  /** The size of a request whose header is `h` bytes long. */
  predicate IsSize(length: Length, h: nat, size: nat) {
    match length
    case Panics => false
    case Stated(Some(n)) => size == (h + 4 + n) % 0x1_0000_0000
    case Stated(None) => size == (h + 4) % 0x1_0000_0000
    case Unstated => size == (h + 4) % 0x1_0000_0000
  }
}
