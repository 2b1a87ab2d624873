/** What splitting and line reading make of a header that was put together from lines. */
module OtaText {
  import opened Basics
  import opened Ota
  import opened OtaPacker
  import opened Text
  import opened Numbers

  predicate OneLine(s: string) {
    '\n' !in s
  }

  // ---- lines

  /** A step that does not look at a carriage return at the end of the line. */
  ghost predicate IgnoresCr<T(!new)>(step: (T, string) -> T) {
    forall acc, line :: step(acc, WithoutLast(line, '\r')) == step(acc, line)
  }

  lemma FoldOneLine<T(!new)>(step: (T, string) -> T, acc: T, line: string, rest: string)
    requires OneLine(line) && IgnoresCr(step)
    ensures FoldLines(step, acc, Lines(line + "\n" + rest)) == FoldLines(step, step(acc, line), Lines(rest))
  {
    LinesAt(line, rest);
    assert ([WithoutLast(line, '\r')] + Lines(rest))[1..] == Lines(rest);
  }

  lemma FoldLineAndGap<T(!new)>(step: (T, string) -> T, acc: T, line: string, rest: string)
    requires OneLine(line) && IgnoresCr(step)
    ensures FoldLines(step, acc, Lines(line + GAP + rest)) == FoldLines(step, step(step(acc, line), ""), Lines(rest))
  {
    var behind := "" + "\n" + rest;
    assert line + GAP + rest == line + "\n" + behind;
    FoldOneLine(step, acc, line, behind);
    FoldOneLine(step, step(acc, line), "", rest);
  }

  lemma FoldLastLine<T(!new)>(step: (T, string) -> T, acc: T, line: string)
    requires OneLine(line) && line != ""
    ensures FoldLines(step, acc, Lines(line)) == step(acc, line)
  {
    LinesLast(line);
    assert [line][1..] == [];
  }

  /** Reading joined lines is reading one after the other. */
  lemma {:induction false} FoldJoined<T(!new)>(step: (T, string) -> T, acc: T, lines: seq<string>)
    requires lines != [] && (forall i :: 0 <= i < |lines| ==> OneLine(lines[i]) && lines[i] != "") && IgnoresCr(step)
    ensures FoldLines(step, acc, Lines(Join(lines))) == FoldLines(step, acc, lines)
    decreases |lines|
  {
    if |lines| == 1 {
      FoldLastLine(step, acc, lines[0]);
      assert lines[1..] == [];
    } else {
      FoldOneLine(step, acc, lines[0], Join(lines[1..]));
      FoldJoined(step, step(acc, lines[0]), lines[1..]);
    }
  }

  /** ... and then reading what follows. */
  lemma {:induction false} FoldJoinedThen<T(!new)>(step: (T, string) -> T, acc: T, lines: seq<string>, rest: string)
    requires lines != [] && (forall i :: 0 <= i < |lines| ==> OneLine(lines[i])) && IgnoresCr(step)
    ensures FoldLines(step, acc, Lines(Join(lines) + "\n" + rest)) == FoldLines(step, FoldLines(step, acc, lines), Lines(rest))
    decreases |lines|
  {
    if |lines| == 1 {
      FoldOneLine(step, acc, lines[0], rest);
      assert lines[1..] == [];
    } else {
      var tail := Join(lines[1..]);
      assert Join(lines) + "\n" + rest == lines[0] + "\n" + (tail + "\n" + rest);
      FoldOneLine(step, acc, lines[0], tail + "\n" + rest);
      FoldJoinedThen(step, step(acc, lines[0]), lines[1..], rest);
    }
  }

  // ---- gaps

  /** No two newlines in a row. */
  ghost predicate NoGap(s: string) {
    forall i :: 0 <= i < |s| - 1 ==> s[i] != '\n' || s[i + 1] != '\n'
  }

  lemma GapIsTwoNewlines(s: string, i: nat)
    ensures OccursAt(s, GAP, i) <==> i + 2 <= |s| && s[i] == '\n' && s[i + 1] == '\n'
  {
    if i + 2 <= |s| {
      assert s[i..i + 2] == [s[i], s[i + 1]];
    }
  }

  /** Joined lines have neither a gap nor a newline at either end. */
  lemma {:induction false} JoinHasNoGap(lines: seq<string>)
    requires lines != [] && forall i :: 0 <= i < |lines| ==> OneLine(lines[i]) && lines[i] != ""
    ensures NoGap(Join(lines))
    ensures Join(lines) != "" && Join(lines)[0] != '\n' && Join(lines)[|Join(lines)| - 1] != '\n'
    decreases |lines|
  {
    if |lines| > 1 {
      JoinHasNoGap(lines[1..]);
      var l, tail := lines[0], Join(lines[1..]);
      var s := l + "\n" + tail;
      forall i | 0 <= i < |s| - 1
        ensures s[i] != '\n' || s[i + 1] != '\n'
      {
        if i > |l| {
          assert s[i] == tail[i - |l| - 1] && s[i + 1] == tail[i - |l|];
        } else if i < |l| {
          assert s[i] == l[i];
        } else {
          assert s[i + 1] == tail[0];
        }
      }
    }
  }

  /** The first gap is the one behind `a`. */
  lemma SplitBehind(a: string, rest: string)
    requires a != "" && NoGap(a) && a[|a| - 1] != '\n'
    ensures SplitGaps(a + GAP + rest) == [a] + SplitGaps(rest)
  {
    var s := a + GAP + rest;
    GapIsTwoNewlines(s, |a|);
    forall j | 0 <= j < |a|
      ensures !OccursAt(s, GAP, j)
    {
      GapIsTwoNewlines(s, j);
    }
    FindUnique(s, GAP, |a|);
    assert s[..|a|] == a && s[|a| + 2..] == rest;
  }

  lemma SplitNoGap(s: string)
    requires NoGap(s)
    ensures SplitGaps(s) == [s]
  {
    forall i | 0 <= i
      ensures !OccursAt(s, GAP, i)
    {
      GapIsTwoNewlines(s, i);
    }
    NoOccurrence(s, GAP);
  }

  /** A text cannot contain a pattern if it lacks one of its characters. */
  lemma LacksCharacter(s: string, pat: string, k: nat)
    requires k < |pat| && pat[k] !in s
    ensures !Contains(s, pat)
  {
    forall i | 0 <= i
      ensures !OccursAt(s, pat, i)
    {
      if i + |pat| <= |s| {
        assert s[i..i + |pat|][k] == s[i + k];
      }
    }
    NoOccurrence(s, pat);
  }

  // ---- keys and values

  predicate IsKey(k: string) {
    k != "" && forall i :: 0 <= i < |k| ==> k[i] != '=' && !IsSpace(k[i])
  }

  lemma {:induction false} TrimStartBefore(a: string, c: char, b: string)
    requires !IsSpace(c)
    ensures TrimStart(a + [c] + b) == TrimStart(a) + [c] + b
  {
    if a == [] {
      assert a + [c] + b == [c] + b;
    } else {
      assert (a + [c] + b)[1..] == a[1..] + [c] + b;
      if IsSpace(a[0]) {
        TrimStartBefore(a[1..], c, b);
      }
    }
  }

  lemma {:induction false} TrimStartTwice(s: string)
    ensures TrimStart(TrimStart(s)) == TrimStart(s)
  {
    if s != [] && IsSpace(s[0]) {
      TrimStartTwice(s[1..]);
    }
  }

  /** A line is split at its first equals sign, and white space around both parts is dropped; without one it says nothing. */
  lemma KeyValueIs(k: string, v: string)
    requires '=' !in k
    ensures KeyValue(k + ['='] + v) == Some((Trim(k), Trim(v)))
    ensures KeyValue(k) == None
  {
    var key := TrimStart(k);
    TrimmedLine(k, v, key);
    TrimmedHasNone(k, key, '=');
    SplitOnceAt(key, '=', TrimEnd(v));
    TrimOfTrimEnd(v);
    TrimStartTwice(k);
    assert forall i :: 0 <= i < |Trim(k)| ==> Trim(k)[i] != '=';
  }

  lemma TrimmedLine(k: string, v: string, key: string)
    requires key == TrimStart(k)
    ensures Trim(k + ['='] + v) == key + ['='] + TrimEnd(v)
  {
    TrimStartBefore(k, '=', v);
    TrimEndBehind(key + ['='], v);
  }

  lemma TrimmedHasNone(s: string, t: string, c: char)
    requires c !in s && t == TrimStart(s)
    ensures c !in t && c !in Trim(s)
  {
    TrimStartFacts(s);
    TrimEndFacts(t);
  }

  /** A number as it must stand behind `img_size` and `img_crc`. */
  predicate IsWord(val: string, n: nat) {
    n < TWO_32 && (IsNumeral(val, n) || (val != [] && val[0] == '+' && IsNumeral(val[1..], n)))
  }

  /** What cannot be read as a 32-bit number counts as zero for an image, and changes nothing for the block size. */
  lemma NumbersAreSet(f: Fields, g: Globals, val: string)
    ensures forall n: nat :: IsWord(val, n) ==>
              SetField(f, "img_size", val) == f.(size := n) && SetField(f, "img_crc", val) == f.(crc := n)
              && SetGlobal(g, "bs_size", val) == g.(bsSize := n)
    ensures (forall n: nat :: !IsWord(val, n)) ==>
              SetField(f, "img_size", val) == f.(size := 0) && SetField(f, "img_crc", val) == f.(crc := 0)
              && SetGlobal(g, "bs_size", val) == g
  {
    forall n: nat
      ensures ParseUnsigned(val, U32_MAX) == Some(n) <==> IsWord(val, n)
    {
      ParseUnsignedIff(val, U32_MAX, n);
    }
    KeysDiffer();
  }

  /** What an empty part says: type "?", an empty name and digest, size and checksum zero; and blocks of 128 KiB. */
  lemma NothingIsSet()
    ensures FieldsOf("") == Fields("?", "", 0, "", 0)
    ensures GlobalsOf("") == Globals(131072, None, false)
  {
  }

  lemma KeysDiffer()
    ensures "img_size" != "img_name" && "img_size" != "img_type" && "img_crc" != "img_name" && "img_crc" != "img_type"
    ensures "img_crc" != "img_size" && "img_crc" != "img_md5"
  {
    assert "img_size"[4] == 's' && "img_name"[4] == 'n' && "img_type"[4] == 't' && "img_md5"[4] == 'm' && "img_crc"[4] == 'c';
  }

  /** A line `key=value` is read as its key and the value without white space around it. */
  lemma KeyValueOfLine(k: string, v: string)
    requires IsKey(k)
    ensures KeyValue(Line(k, v)) == Some((k, Trim(v)))
  {
    KeyValueIs(k, v);
    TrimFixpoint(k);
  }

  lemma KeyValueWithoutCr(line: string)
    ensures KeyValue(WithoutLast(line, '\r')) == KeyValue(line)
  {
    if line != "" && line[|line| - 1] == '\r' {
      var s := line[..|line| - 1];
      assert TrimEnd(line) == TrimEnd(s);
      TrimOfTrimEnd(line);
      TrimOfTrimEnd(s);
    }
  }

  lemma FieldLineIgnoresCr()
    ensures IgnoresCr(FieldLine)
  {
    forall f, line ensures FieldLine(f, WithoutLast(line, '\r')) == FieldLine(f, line) {
      KeyValueWithoutCr(line);
    }
  }

  lemma GlobalLineIgnoresCr()
    ensures IgnoresCr(GlobalLine)
  {
    forall g, line ensures GlobalLine(g, WithoutLast(line, '\r')) == GlobalLine(g, line) {
      KeyValueWithoutCr(line);
    }
  }
}
