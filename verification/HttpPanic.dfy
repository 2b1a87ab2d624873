/** When reading the content length ends the program, and a request that makes it. */
module HttpPanic {
  import opened Basics
  import opened Text
  import opened Http
  import opened Numbers
  import Utf8

  /** A line of at least fifteen bytes that has no character boundary at byte fifteen. */
  ghost predicate CutsCharacter(line: string) {
    Utf8.ByteLen(line) >= NAME_LENGTH && forall k: nat :: k <= |line| ==> Utf8.ByteLen(line[..k]) != NAME_LENGTH
  }

  /** `c` is the letter `small` or its capital; other characters stand for themselves. */
  predicate SameLetter(c: char, small: char) {
    c == small || ('a' <= small <= 'z' && c as int + 32 == small as int)
  }

  /** A line that begins with the name of the field, in any case of its letters. */
  predicate StatesLength(line: string) {
    |line| >= 15 && forall i :: 0 <= i < 15 ==> SameLetter(line[i], "content-length:"[i])
  }

  lemma FieldName()
    ensures CONTENT_LENGTH == "content-length:" && NAME_LENGTH == 15
  {
  }

  lemma LowerIsSmall(c: char, small: char)
    requires !('A' <= small <= 'Z')
    ensures LowerChar(c) == small <==> SameLetter(c, small)
  {
  }

  lemma NameHasNoCapital(i: nat)
    requires i < 15
    ensures !('A' <= "content-length:"[i] <= 'Z')
  {
  }

  lemma StatesByLower(line: string)
    ensures StatesLength(line) <==> |line| >= NAME_LENGTH && Lower(line[..NAME_LENGTH]) == CONTENT_LENGTH
  {
    FieldName();
    if |line| >= NAME_LENGTH {
      var low := Lower(line[..NAME_LENGTH]);
      forall i | 0 <= i < 15
        ensures low[i] == "content-length:"[i] <==> SameLetter(line[i], "content-length:"[i])
      {
        NameHasNoCapital(i);
        LowerIsSmall(line[i], "content-length:"[i]);
      }
    }
  }

  lemma PanicsInLine(line: string)
    ensures LengthIn(line).Panics? <==> CutsCharacter(line)
  {
    SlicesIff(line, NAME_LENGTH);
  }

  lemma LowersToAscii(c: char)
    requires LowerChar(c) as int < 0x80
    ensures c as int < 0x80
  {
  }

  lemma NameIsAscii(i: nat)
    requires i < |CONTENT_LENGTH|
    ensures |CONTENT_LENGTH| == NAME_LENGTH && CONTENT_LENGTH[i] as int < 0x80
  {
  }

  /** The first fifteen characters of such a line are its first fifteen bytes. */
  lemma NameIsItsBytes(name: string)
    requires |name| == NAME_LENGTH && Lower(name) == CONTENT_LENGTH
    ensures Utf8.ByteLen(name) == NAME_LENGTH
  {
    forall i | 0 <= i < |name|
      ensures name[i] as int < 0x80
    {
      NameIsAscii(i);
      assert Lower(name)[i] == LowerChar(name[i]);
      LowersToAscii(name[i]);
    }
    Utf8.EncodeAscii(name);
  }

  lemma NameIsFifteen()
    ensures |CONTENT_LENGTH| == NAME_LENGTH
  {
  }

  /** A string has at most one split at a byte position. */
  lemma {:induction false} SplitsOnce(front: string, back: string, n: nat)
    requires Utf8.ByteLen(front) == n
    ensures SplitAtByte(front + back, n) == Some((front, back))
    decreases |front|
  {
    if front == [] {
      assert front + back == back;
    } else {
      var c, t := front[0], front[1..];
      assert front == [c] + t && (front + back)[1..] == t + back;
      ByteLenCons(c, t);
      SplitsOnce(t, back, n - |Utf8.EncodeChar(c)|);
    }
  }

  lemma ByteLenAtLeast(s: string, k: nat)
    requires k <= |s|
    ensures Utf8.ByteLen(s) >= Utf8.ByteLen(s[..k])
  {
    Utf8.EncodeAppend(s[..k], s[k..]);
    assert s == s[..k] + s[k..];
  }

  lemma StatedParts(line: string)
    requires StatesLength(line)
    ensures LengthIn(line) == Stated(ParseUnsigned(Trim(line[NAME_LENGTH..]), USIZE_MAX))
  {
    StatesByLower(line);
    var name, value := line[..NAME_LENGTH], line[NAME_LENGTH..];
    NameIsItsBytes(name);
    ByteLenAtLeast(line, NAME_LENGTH);
    assert line == name + value;
    SplitsOnce(name, value, NAME_LENGTH);
  }

  lemma StatedInLine(line: string)
    ensures LengthIn(line).Stated? <==> StatesLength(line)
  {
    NameIsFifteen();
    StatesByLower(line);
    if StatesLength(line) {
      StatedParts(line);
    }
    if LengthIn(line).Stated? {
      var parts := SplitAtByte(line, NAME_LENGTH).value;
      SplitAtByteSplits(line, NAME_LENGTH, parts.0, parts.1);
      assert line[..NAME_LENGTH] == parts.0;
    }
  }

  /** Line `i` cuts a character, and no line before it has decided. */
  ghost predicate PanicsAt(lines: seq<string>, i: nat) {
    i < |lines| && CutsCharacter(Trim(lines[i])) && forall j :: 0 <= j < i ==> !StatesLength(Trim(lines[j]))
  }

  lemma {:induction false} PanicsAmong(lines: seq<string>)
    ensures LengthAmong(lines).Panics? <==> exists i: nat :: PanicsAt(lines, i)
  {
    if lines != [] {
      var line, rest := Trim(lines[0]), lines[1..];
      PanicsInLine(line);
      StatedInLine(line);
      PanicsAmong(rest);
      if i: nat :| PanicsAt(lines, i) {
        if i > 0 {
          assert rest[i - 1] == lines[i];
          assert forall j :: 0 <= j < i - 1 ==> rest[j] == lines[j + 1];
          assert !LengthIn(line).Panics? ==> PanicsAt(rest, i - 1);
        }
      }
      if LengthAmong(lines).Panics? {
        if LengthIn(line).Panics? {
          assert PanicsAt(lines, 0);
        } else {
          var i: nat :| PanicsAt(rest, i);
          assert forall j :: 0 < j < i + 1 ==> lines[j] == rest[j - 1];
          assert PanicsAt(lines, i + 1);
        }
      }
    }
  }

  /**
   Reading the content length panics exactly when the header is text and some line, trimmed, is cut
   inside of a character at byte fifteen while no earlier line states a length.
   */
  lemma PanicsIff(header: seq<byte>, text: Option<string>)
    requires text == Utf8.Decode(header)
    ensures ContentLength(header).Panics? <==> text.Some? && exists i: nat :: PanicsAt(Lines(text.value), i)
  {
    if text.Some? {
      assert ContentLength(header) == LengthAmong(Lines(text.value));
      PanicsAmong(Lines(text.value));
    }
  }

  /**
   The reader crashes exactly when a complete header has arrived that is text and has such a line,
   however its bytes were cut into pieces.
   */
  lemma CrashedIff(received: seq<byte>, text: Option<string>)
    requires text == match Find(received, HEADER_END) case None => None case Some(h) => Utf8.Decode(received[..h])
    ensures OutcomeOf(received) == Crashed <==> text.Some? && exists i: nat :: PanicsAt(Lines(text.value), i)
  {
    var h := Find(received, HEADER_END);
    if h.Some? {
      PanicsIff(received[..h.value], text);
    }
  }

  // ---- a request that crashes the reader

  lemma LettersThenAccent(line: string, k: nat)
    requires |line| == NAME_LENGTH && k <= |line| && line[14] == '\U{00E9}'
    requires forall i :: 0 <= i < 14 ==> line[i] == 'a'
    ensures Utf8.ByteLen(line[..k]) == if k < NAME_LENGTH then k else NAME_LENGTH + 1
  {
    if k < NAME_LENGTH {
      Utf8.EncodeAscii(line[..k]);
    } else {
      Utf8.EncodeAscii(line[..14]);
      Utf8.EncodeAppend(line[..14], [line[14]]);
      assert line[..k] == line[..14] + [line[14]];
      ByteLenCons(line[14], []);
      assert [line[14]] + [] == [line[14]];
    }
  }

  lemma LineIsAlone(line: string, header: seq<byte>)
    requires line != [] && Trimmed(line) && '\n' !in line && CutsCharacter(line) && header == Utf8.Encode(line)
    ensures ContentLength(header).Panics?
  {
    TrimFixpoint(line);
    LinesLast(line);
    Utf8.DecodeOfEncode(line);
    assert PanicsAt([line], 0);
    PanicsIff(header, Some(line));
  }

  lemma HeaderEndsBehind(header: seq<byte>, s: seq<byte>)
    requires LINE_END[0] !in header && s == header + HEADER_END
    ensures Find(s, HEADER_END) == Some(|header|) && s[..|header|] == header
  {
    forall j | 0 <= j < |header|
      ensures !OccursAt(s, HEADER_END, j)
    {
      assert s[j] == header[j];
      assert j + 4 <= |s| ==> s[j..j + 4][0] == s[j];
    }
    assert s[|header|..|header| + 4] == HEADER_END;
    FindUnique(s, HEADER_END, |header|);
  }

  /** Fourteen letters and an accented one, as the whole header. */
  lemma AccentCrashes(line: string, s: seq<byte>)
    requires |line| == NAME_LENGTH && line[14] == '\U{00E9}' && forall i :: 0 <= i < 14 ==> line[i] == 'a'
    requires s == Utf8.Encode(line) + HEADER_END
    ensures OutcomeOf(s) == Crashed
  {
    forall k: nat | k <= |line|
      ensures Utf8.ByteLen(line[..k]) != NAME_LENGTH
    {
      LettersThenAccent(line, k);
    }
    LettersThenAccent(line, NAME_LENGTH);
    assert line[..NAME_LENGTH] == line;
    LineIsAlone(line, Utf8.Encode(line));
    AccentHasNoReturn(line);
    HeaderEndsBehind(Utf8.Encode(line), s);
  }

  lemma AccentHasNoReturn(line: string)
    requires |line| == NAME_LENGTH && line[14] == '\U{00E9}' && forall i :: 0 <= i < 14 ==> line[i] == 'a'
    ensures LINE_END[0] !in Utf8.Encode(line)
  {
    Utf8.EncodeAscii(line[..14]);
    Utf8.EncodeAppend(line[..14], [line[14]]);
    assert line == line[..14] + [line[14]];
    assert [line[14]][1..] == [];
    assert Utf8.Encode([line[14]]) == Utf8.EncodeChar(line[14]) + [];
  }
}
