/** Reading a file line by line through a small buffer. */
module FileLines {
  import opened Basics
  import opened Text

  const NEWLINE: byte := 0x0A
  const CR: byte := 0x0D

  /** Capacity of the line buffer. */
  const LINE_MAX: nat := 2048

  /** What a file gives, read by read: a read of no bytes would be its end. */
  type Reads = chunks: seq<seq<byte>> | forall i :: 0 <= i < |chunks| ==> chunks[i] != [] witness []

  /** The lines handed to the callback, and whether a line overflowed the buffer. */
  datatype Delivery = Delivery(lines: seq<seq<byte>>, overflow: bool)

  function Before(lines: seq<seq<byte>>, d: Delivery): Delivery {
    Delivery(lines + d.lines, d.overflow)
  }

  /**
   The lines of a whole file, up to the first one that does not fit the buffer. A line ended by a
   newline is delivered even if empty; what follows the last newline only if something is left of
   it without a carriage return.
   */
  function LinesOf(file: seq<byte>): Delivery
    decreases |file|
  {
    var i := IndexOf(file, NEWLINE);
    if i > LINE_MAX then Delivery([], true)
    else if i == |file| then Delivery(if WithoutLast(file, CR) == [] then [] else [WithoutLast(file, CR)], false)
    else Before([WithoutLast(file[..i], CR)], LinesOf(file[i + 1..]))
  }

  lemma LinesOfLine(line: seq<byte>, rest: seq<byte>)
    requires NEWLINE !in line && |line| <= LINE_MAX
    ensures LinesOf(line + [NEWLINE] + rest) == Before([WithoutLast(line, CR)], LinesOf(rest))
  {
    IndexOfAfter(line, NEWLINE, rest);
    assert (line + [NEWLINE] + rest)[..|line|] == line;
    assert (line + [NEWLINE] + rest)[|line| + 1..] == rest;
  }

  lemma LinesOfOverflow(line: seq<byte>, b: byte, rest: seq<byte>)
    requires NEWLINE !in line && |line| == LINE_MAX && b != NEWLINE
    ensures LinesOf(line + [b] + rest) == Delivery([], true)
  {
    var file := line + [b] + rest;
    var i := IndexOf(file, NEWLINE);
    assert forall j :: 0 <= j < |line| ==> file[j] == line[j];
  }

  lemma LinesOfLast(line: seq<byte>)
    requires NEWLINE !in line && |line| <= LINE_MAX
    ensures LinesOf(line) == Delivery(if WithoutLast(line, CR) == [] then [] else [WithoutLast(line, CR)], false)
  {
    assert line[..|line|] == line;
    IndexOfUnique(line, NEWLINE, |line|);
  }

  /** A line may end in LF or in CR LF: what is delivered is the line, and then the lines of the rest. */
  lemma LinesOfText(line: seq<byte>, rest: seq<byte>)
    requires 0x0A !in line && |line| < 2048 && (line == [] || line[|line| - 1] != 0x0D)
    ensures LinesOf(line + [0x0A] + rest) == Before([line], LinesOf(rest))
    ensures LinesOf(line + [0x0D, 0x0A] + rest) == Before([line], LinesOf(rest))
  {
    WithoutLastOf(line, CR);
    LinesOfLine(line, rest);
    LinesOfLine(line + [CR], rest);
    TwoAtTheEnd(line, CR, NEWLINE, rest);
  }

  /** A line of more than 2048 bytes, its carriage return included, ends the reading. */
  lemma LongLineStops(file: seq<byte>)
    requires |file| > 2048 && forall j :: 0 <= j <= 2048 ==> file[j] != 0x0A
    ensures LinesOf(file) == Delivery([], true)
  {
    assert IndexOf(file, NEWLINE) > 2048;
  }

  lemma TwoAtTheEnd(line: seq<byte>, a: byte, b: byte, rest: seq<byte>)
    ensures line + [a, b] + rest == (line + [a]) + [b] + rest
  {
    assert line + [a, b] == (line + [a]) + [b];
  }

  /** One byte of a line: `rest` is whatever the file still holds behind it. */
  lemma LinesOfByte(lines: seq<seq<byte>>, line: seq<byte>, b: byte, rest: seq<byte>)
    requires NEWLINE !in line && |line| <= LINE_MAX
    ensures b == NEWLINE ==>
              Before(lines, LinesOf(line + ([b] + rest))) == Before(lines + [WithoutLast(line, CR)], LinesOf([] + rest))
    ensures b != NEWLINE && |line| == LINE_MAX ==> Before(lines, LinesOf(line + ([b] + rest))) == Delivery(lines, true)
    ensures LinesOf(line + ([b] + rest)) == LinesOf((line + [b]) + rest)
  {
    Associative(line, [b], rest);
    if b == NEWLINE {
      LinesOfLine(line, rest);
      assert [] + rest == rest;
      Associative(lines, [WithoutLast(line, CR)], LinesOf(rest).lines);
    } else if |line| == LINE_MAX {
      LinesOfOverflow(line, b, rest);
    }
  }

  /** One chunk, with the lines delivered and the partial line collected so far. */
  method FeedChunk(lines0: seq<seq<byte>>, line0: seq<byte>, chunk: seq<byte>, ghost later: seq<byte>)
    returns (lines: seq<seq<byte>>, line: seq<byte>, overflow: bool)
    requires NEWLINE !in line0 && |line0| <= LINE_MAX
    ensures !overflow ==> NEWLINE !in line && |line| <= LINE_MAX
    ensures !overflow ==> Before(lines, LinesOf(line + later)) == Before(lines0, LinesOf(line0 + (chunk + later)))
    ensures overflow ==> Delivery(lines, true) == Before(lines0, LinesOf(line0 + (chunk + later)))
  {
    lines, line, overflow := lines0, line0, false;
    ghost var rest := chunk + later;
    ghost var whole := Before(lines, LinesOf(line + rest));
    for j := 0 to |chunk|
      invariant NEWLINE !in line && |line| <= LINE_MAX
      invariant rest == chunk[j..] + later
      invariant whole == Before(lines, LinesOf(line + rest))
    {
      var b := chunk[j];
      ghost var behind := chunk[j + 1..] + later;
      assert rest == [b] + behind;
      LinesOfByte(lines, line, b, behind);
      rest := behind;
      if b == NEWLINE {
        lines := lines + [WithoutLast(line, CR)];
        line := [];
      } else if |line| == LINE_MAX {
        return lines, line, true;
      } else {
        line := line + [b];
      }
    }
    assert rest == later;
  }

  /**
   Delivers the lines of the file whose contents arrive as `chunks`. Where the reads
   cut the file makes no difference: only the concatenation of the chunks counts.
   */
  method ForEachFileLine(chunks: Reads) returns (d: Delivery)
    ensures d == LinesOf(Flatten(chunks))
  {
    var lines: seq<seq<byte>>, line: seq<byte>, overflow := [], [], false;
    ghost var whole := LinesOf(Flatten(chunks));
    assert chunks[0..] == chunks;
    assert [] + Flatten(chunks) == Flatten(chunks);
    for k := 0 to |chunks|
      invariant NEWLINE !in line && |line| <= LINE_MAX
      invariant whole == Before(lines, LinesOf(line + Flatten(chunks[k..])))
    {
      assert chunks[k..][0] == chunks[k] && chunks[k..][1..] == chunks[k + 1..];
      lines, line, overflow := FeedChunk(lines, line, chunks[k], Flatten(chunks[k + 1..]));
      if overflow {
        return Delivery(lines, true);
      }
    }
    assert line + Flatten(chunks[|chunks|..]) == line;
    LinesOfLast(line);
    if WithoutLast(line, CR) != [] {
      lines := lines + [WithoutLast(line, CR)];
    }
    return Delivery(lines, false);
  }
}
