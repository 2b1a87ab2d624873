/** Reading one HTTP request from a connection that may deliver it in pieces of any size. */
module Http {
  import opened Basics
  import opened Text
  import opened Numbers
  import Utf8

  /** A blank line ends the header: two line ends. */
  const LINE_END: seq<byte> := [0x0D, 0x0A]
  const HEADER_END: seq<byte> := [0x0D, 0x0A, 0x0D, 0x0A]
  const NAME_LENGTH: nat := 15
  // Written in two parts so that a proof about names does not depend on their letters.
  const CONTENT_LENGTH := "content" + "-length:"
  const HTTP_1 := "HTTP" + "/1."

  // ---- the content length

  /** Slicing a string at a byte position: impossible inside of a character. */
  function SplitAtByte(s: string, n: nat): Option<(string, string)>
    decreases |s|
  {
    if n == 0 then Some(([], s))
    else if s == [] || |Utf8.EncodeChar(s[0])| > n then None
    else
      match SplitAtByte(s[1..], n - |Utf8.EncodeChar(s[0])|)
      case None => None
      case Some((front, back)) => Some(([s[0]] + front, back))
  }

  lemma ByteLenCons(c: char, t: string)
    ensures Utf8.ByteLen([c] + t) == |Utf8.EncodeChar(c)| + Utf8.ByteLen(t)
  {
    assert ([c] + t)[1..] == t;
  }

  /** The two parts are the string, and the first has that many bytes. */
  lemma {:induction false} SplitAtByteSplits(s: string, n: nat, front: string, back: string)
    requires SplitAtByte(s, n) == Some((front, back))
    ensures front + back == s && Utf8.ByteLen(front) == n
    decreases |s|
  {
    if n > 0 {
      var c, t := s[0], s[1..];
      var m := n - |Utf8.EncodeChar(c)|;
      var more := SplitAtByte(t, m).value;
      SplitAtByteSplits(t, m, more.0, more.1);
      ByteLenCons(c, more.0);
      assert front == [c] + more.0 && back == more.1;
      Associative([c], more.0, more.1);
      assert s == [c] + t;
    }
  }

  lemma {:induction false} PrefixSplits(s: string, k: nat)
    requires k <= |s|
    ensures SplitAtByte(s, Utf8.ByteLen(s[..k])).Some?
    decreases k
  {
    if k > 0 {
      PrefixSplits(s[1..], k - 1);
      assert s[..k] == [s[0]] + s[1..][..k - 1];
      ByteLenCons(s[0], s[1..][..k - 1]);
    } else {
      assert s[..0] == [];
    }
  }

  /** A slice ends the program exactly when it would cut a character in two. */
  lemma SlicesIff(s: string, n: nat)
    ensures SplitAtByte(s, n).Some? <==> exists k: nat :: k <= |s| && Utf8.ByteLen(s[..k]) == n
  {
    if SplitAtByte(s, n).Some? {
      var parts := SplitAtByte(s, n).value;
      SplitAtByteSplits(s, n, parts.0, parts.1);
      assert s[..|parts.0|] == parts.0;
    }
    if k: nat :| k <= |s| && Utf8.ByteLen(s[..k]) == n {
      PrefixSplits(s, k);
    }
  }

  function LowerChar(c: char): char {
    if 'A' <= c <= 'Z' then (c as int + 32) as char else c
  }

  function Lower(s: string): (t: string)
    ensures |t| == |s|
  {
    seq(|s|, i requires 0 <= i < |s| => LowerChar(s[i]))
  }

  /** What a header says about its body; slicing a line inside of a character ends the program. */
  datatype Length = Panics | Unstated | Stated(value: Option<nat>)

  function LengthIn(line: string): Length {
    if Utf8.ByteLen(line) < NAME_LENGTH then Unstated
    else
      match SplitAtByte(line, NAME_LENGTH)
      case None => Panics
      case Some((name, value)) =>
        if Lower(name) != CONTENT_LENGTH then Unstated else Stated(ParseUnsigned(Trim(value), USIZE_MAX))
  }

  function LengthAmong(lines: seq<string>): Length {
    if lines == [] then Unstated
    else
      var first := LengthIn(Trim(lines[0]));
      if first.Unstated? then LengthAmong(lines[1..]) else first
  }

  function ContentLength(header: seq<byte>): Length {
    var text := Utf8.Decode(header);
    if text.None? then Unstated else LengthAmong(Lines(text.value))
  }

  function BodyLength(l: Length): nat {
    if l.Stated? && l.value.Some? then l.value.value else 0
  }

  lemma {:induction false} LengthFits(lines: seq<string>)
    ensures BodyLength(LengthAmong(lines)) <= USIZE_MAX
  {
    if lines != [] {
      LengthFits(lines[1..]);
    }
  }

  // ---- what a byte stream amounts to

  /** `Request(n)`: the first `n` bytes are the request. */
  datatype Outcome = Crashed | NoRequest | Request(size: nat)

  /** The end of the request; the sum is a machine word. */
  function Total(headerEnd: nat, length: Length): nat {
    (headerEnd + |HEADER_END| + BodyLength(length)) % TWO_32
  }

  /** What the whole of what can be received amounts to, in terms of the bytes alone. */
  function OutcomeOf(received: seq<byte>): Outcome {
    match Find(received, HEADER_END)
    case None => NoRequest
    case Some(h) =>
      var length := ContentLength(received[..h]);
      if length.Panics? then Crashed
      else if Total(h, length) <= |received| then Request(Total(h, length))
      else NoRequest
  }

  function Received(stream: seq<byte>, capacity: nat): seq<byte> {
    stream[..Min(|stream|, capacity)]
  }

  // ---- searching and scanning

  /** The loop behind both searches: every position in turn. */
  method FindMarker(buf: seq<byte>, marker: seq<byte>) returns (r: Option<nat>)
    ensures r == Find(buf, marker)
  {
    var i := 0;
    while i + |marker| <= |buf|
      invariant Find(buf, marker) == FindFrom(buf, marker, i)
      decreases |buf| - i
    {
      if buf[i..i + |marker|] == marker {
        return Some(i);
      }
      i := i + 1;
    }
    r := None;
  }

  method ParseContentLength(header: seq<byte>) returns (r: Length)
    ensures r == ContentLength(header)
  {
    var text := Utf8.Decode(header);
    if text.None? {
      return Unstated;
    }
    var lines := Lines(text.value);
    assert lines[0..] == lines;
    for i := 0 to |lines|
      invariant LengthAmong(lines) == LengthAmong(lines[i..])
    {
      assert lines[i..][1..] == lines[i + 1..];
      var length := LengthIn(Trim(lines[i]));
      if !length.Unstated? {
        return length;
      }
    }
    r := Unstated;
  }

  /** What is found in a prefix is found in the whole, at the same place. */
  lemma FindInLonger(s: seq<byte>, pat: seq<byte>, a: nat, h: nat)
    requires a <= |s| && Find(s[..a], pat) == Some(h)
    ensures Find(s, pat) == Some(h) && s[..a][..h] == s[..h]
  {
    var t := s[..a];
    FindFromIsFirst(t, pat, 0);
    OccursInFront(s, pat, a, h);
    forall j | 0 <= j < h
      ensures !OccursAt(s, pat, j)
    {
      OccursInFront(s, pat, a, j);
    }
    FindUnique(s, pat, h);
  }

  lemma OccursInFront(s: seq<byte>, pat: seq<byte>, a: nat, j: nat)
    requires j + |pat| <= a <= |s|
    ensures OccursAt(s, pat, j) <==> OccursAt(s[..a], pat, j)
  {
    assert s[..a][j..j + |pat|] == s[j..j + |pat|];
  }

  // ---- the connection

  /** A socket: what it still has to deliver, in the pieces in which it will. */
  class Connection {
    var pieces: seq<seq<byte>>

    ghost predicate Valid()
      reads this
    {
      forall i :: 0 <= i < |pieces| ==> pieces[i] != []
    }

    ghost function Pending(): seq<byte>
      reads this
    {
      Flatten(pieces)
    }

    constructor (pieces: seq<seq<byte>>)
      requires forall i :: 0 <= i < |pieces| ==> pieces[i] != []
      ensures Valid() && Pending() == Flatten(pieces)
    {
      this.pieces := pieces;
    }

    /** One `read`: a piece, or the front of it if there is no room for more; nothing at the end. */
    method Read(out: array<byte>, off: nat) returns (n: nat)
      requires Valid() && off < out.Length
      modifies this, out
      ensures Valid() && off + n <= out.Length && n <= |old(Pending())|
      ensures n == 0 <==> old(Pending()) == []
      ensures Pending() == old(Pending())[n..]
      ensures out[..off] == old(out[..off]) && out[off..off + n] == old(Pending())[..n]
    {
      if pieces == [] {
        return 0;
      }
      var piece, rest := pieces[0], pieces[1..];
      n := Min(|piece|, out.Length - off);
      CopyInto(out, off, piece[..n]);
      assert out[..off] == old(out[..off]);
      assert (piece + Flatten(rest))[..n] == piece[..n];
      if n == |piece| {
        pieces := rest;
      } else {
        pieces := [piece[n..]] + rest;
        assert pieces[1..] == rest;
      }
      assert (piece + Flatten(rest))[n..] == piece[n..] + Flatten(rest);
    }
  }

  /** The reader's knowledge after `off` bytes. */
  ghost predicate Known(w: seq<byte>, off: nat, expected: Option<nat>) {
    && off <= |w|
    && match expected
       case None => Find(w[..off], HEADER_END) == None
       case Some(t) =>
         match Find(w, HEADER_END)
         case None => false
         case Some(h) => !ContentLength(w[..h]).Panics? && t == Total(h, ContentLength(w[..h]))
  }

  lemma KnowledgeGrows(w: seq<byte>, off: nat, expected: Option<nat>)
    requires Known(w, off, expected) && expected.Some?
    ensures OutcomeOf(w) == if expected.value <= |w| then Request(expected.value) else NoRequest
  {
  }

  lemma KnowledgeComplete(w: seq<byte>)
    requires Known(w, |w|, None)
    ensures OutcomeOf(w) == NoRequest
  {
    assert w[..|w|] == w;
  }

  lemma HeaderSeen(w: seq<byte>, off: nat, h: nat, length: Length)
    requires off <= |w| && Find(w[..off], HEADER_END) == Some(h) && length == ContentLength(w[..off][..h])
    ensures length.Panics? ==> OutcomeOf(w) == Crashed
    ensures !length.Panics? ==> Known(w, off, Some(Total(h, length)))
  {
    FindInLonger(w, HEADER_END, off, h);
  }

  /** Look for the end of the header in what has arrived, and work out how long the request is. */
  method Inspect(buf: seq<byte>, ghost w: seq<byte>) returns (crashed: bool, expected: Option<nat>)
    requires buf <= w
    ensures crashed ==> OutcomeOf(w) == Crashed
    ensures !crashed ==> Known(w, |buf|, expected)
  {
    crashed, expected := false, None;
    var headerEnd := FindMarker(buf, HEADER_END);
    assert w[..|buf|] == buf;
    if headerEnd.Some? {
      var length := ParseContentLength(buf[..headerEnd.value]);
      HeaderSeen(w, |buf|, headerEnd.value, length);
      if length.Panics? {
        return true, None;
      }
      expected := Some(Total(headerEnd.value, length));
    }
  }

  /** One read into the buffer: what has arrived is the front of what can be received. */
  method ReadMore(conn: Connection, out: array<byte>, off: nat, ghost stream: seq<byte>, ghost w: seq<byte>) returns (n: nat)
    requires conn.Valid() && off < out.Length && w == Received(stream, out.Length) && off <= |w|
    requires conn.Pending() == stream[off..] && out[..off] == w[..off]
    modifies conn, out
    ensures conn.Valid() && off + n <= |w| <= out.Length && conn.Pending() == stream[off + n..] && out[..off + n] == w[..off + n]
    ensures n == 0 ==> off == |w|
  {
    n := conn.Read(out, off);
    if n == 0 {
      Drained(stream, out.Length, off);
    }
    Arrived(stream, w, out[..], off, n);
  }

  /**
   `read_request`: the outcome is a function of the bytes that can be received, whatever the pieces
   in which they come, and the request is in the front of the buffer.
   */
  method ReadRequest(conn: Connection, out: array<byte>) returns (r: Outcome)
    requires conn.Valid()
    modifies conn, out
    ensures r == OutcomeOf(Received(old(conn.Pending()), out.Length))
    ensures r.Request? ==> r.size <= out.Length && out[..r.size] <= old(conn.Pending())
  {
    ghost var stream := conn.Pending();
    ghost var w := Received(stream, out.Length);
    var off: nat, expected: Option<nat> := 0, None;
    NothingKnown(w);
    assert stream[0..] == stream;
    while off < out.Length
      invariant conn.Valid() && off <= out.Length && Known(w, off, expected)
      invariant conn.Pending() == stream[off..] && out[..off] == w[..off]
      invariant expected.Some? ==> off < expected.value
      decreases out.Length - off
    {
      var n := ReadMore(conn, out, off, stream, w);
      if n == 0 {
        Conclude(w, expected);
        return NoRequest;
      }
      off := off + n;
      if expected.None? {
        var crashed;
        crashed, expected := Inspect(out[..off], w);
        if crashed {
          return Crashed;
        }
      }
      if expected.Some? && off >= expected.value {
        KnowledgeGrows(w, off, expected);
        FrontOfFront(out[..], w, off, expected.value, stream);
        return Request(expected.value);
      }
    }
    Conclude(w, expected);
    r := NoRequest;
  }

  lemma FrontOfFront(out: seq<byte>, w: seq<byte>, off: nat, n: nat, stream: seq<byte>)
    requires n <= off <= |w| && off <= |out| && out[..off] == w[..off] && w <= stream
    ensures out[..n] <= stream
  {
    assert out[..n] == out[..off][..n];
    assert w[..n] == w[..off][..n];
  }

  lemma NothingKnown(w: seq<byte>)
    ensures Known(w, 0, None)
  {
  }

  lemma Drained(stream: seq<byte>, capacity: nat, off: nat)
    requires off <= |stream| && off <= capacity && stream[off..] == []
    ensures |Received(stream, capacity)| == off
  {
  }

  lemma Conclude(w: seq<byte>, expected: Option<nat>)
    requires Known(w, |w|, expected) && (expected.Some? ==> |w| < expected.value)
    ensures OutcomeOf(w) == NoRequest
  {
    if expected.Some? {
      KnowledgeGrows(w, |w|, expected);
    } else {
      KnowledgeComplete(w);
    }
  }

  lemma Arrived(stream: seq<byte>, w: seq<byte>, out: seq<byte>, off: nat, n: nat)
    requires w == Received(stream, |out|) && off + n <= |out| && off <= |w| && n <= |stream[off..]|
    requires out[..off] == w[..off] && out[off..off + n] == stream[off..][..n]
    ensures off + n <= |w| && out[..off + n] == w[..off + n] && stream[off..][n..] == stream[off + n..]
  {
    assert out[..off + n] == out[..off] + out[off..off + n];
    assert w[..off + n] == w[..off] + w[off..off + n];
    assert w[off..off + n] == stream[off..][..n];
  }

  // ---- the request

  datatype HttpRequest = HttpRequest(verb: string, path: string, body: seq<byte>)

  function RequestLine(line: string): Option<(string, string)> {
    var parts := SplitN(line, ' ', 3);
    if |parts| < 3 || !StartsWith(parts[2], HTTP_1) || !StartsWith(parts[1], ['/']) then None
    else Some((parts[0], parts[1]))
  }

  function ParseRequest(buf: seq<byte>): Option<HttpRequest> {
    var headerEnd, lineEnd := Find(buf, HEADER_END), Find(buf, LINE_END);
    if headerEnd.None? || lineEnd.None? then None
    else
      var line := Utf8.Decode(buf[..lineEnd.value]);
      if line.None? then None
      else
        var parts := RequestLine(line.value);
        if parts.None? then None
        else Some(HttpRequest(parts.value.0, parts.value.1, buf[headerEnd.value + |HEADER_END|..]))
  }

  /** The request line as it is sent. */
  function LineText(verb: string, path: string, version: string): string {
    verb + [' '] + (path + [' '] + version)
  }

  /** What a request line may be made of. */
  predicate LineOk(verb: string, path: string, version: string) {
    ' ' !in verb && ' ' !in path && path != [] && path[0] == '/' && "HTTP/1." <= version
  }

  /** `buf` is this request: a line with its three parts, ended by the first CR LF, and the body behind the first blank line. */
  ghost predicate IsRequest(buf: seq<byte>, request: HttpRequest, version: string, h: nat) {
    && LineOk(request.verb, request.path, version)
    && Utf8.Encode(LineText(request.verb, request.path, version)) <= buf
    && FirstAt(buf, LINE_END, |Utf8.Encode(LineText(request.verb, request.path, version))|)
    && FirstAt(buf, HEADER_END, h) && buf == buf[..h] + HEADER_END + request.body
  }

  lemma VersionWord(version: string)
    ensures StartsWith(version, HTTP_1) <==> "HTTP/1." <= version
  {
    assert HTTP_1 == "HTTP/1.";
  }

  lemma ThreeParts(a: string, b: string, c: string, n: nat)
    requires ' ' !in a && ' ' !in b && n == 3
    ensures SplitN(a + [' '] + (b + [' '] + c), ' ', n) == [a, b, c]
  {
    SplitNAt(a, ' ', b + [' '] + c, n);
    SplitNAt(b, ' ', c, n - 1);
  }

  /** Three parts come from two spaces. */
  lemma PartsJoin(line: string, n: nat, parts: seq<string>)
    requires n == 3 && parts == SplitN(line, ' ', n) && |parts| == 3
    ensures line == LineText(parts[0], parts[1], parts[2]) && ' ' !in parts[0] && ' ' !in parts[1]
  {
    var rest := SplitNFront(line, ' ', n, parts);
    var last := SplitNFront(rest, ' ', n - 1, parts[1..]);
    assert parts[1..][1..] == [parts[2]];
    assert rest == parts[1] + [' '] + parts[2];
  }

  lemma LineIsSplit(verb: string, path: string, version: string)
    requires LineOk(verb, path, version)
    ensures RequestLine(LineText(verb, path, version)) == Some((verb, path))
  {
    ThreeParts(verb, path, version, 3);
    VersionWord(version);
    assert [path[0]] == ['/'] <= path;
  }

  lemma SplitLine(line: string, verb: string, path: string)
    requires RequestLine(line) == Some((verb, path))
    ensures exists version :: LineOk(verb, path, version) && line == LineText(verb, path, version)
  {
    var parts := SplitN(line, ' ', 3);
    PartsJoin(line, 3, parts);
    VersionWord(parts[2]);
    assert LineOk(parts[0], parts[1], parts[2]);
  }

  lemma LineDecodes(buf: seq<byte>, line: string)
    ensures Utf8.Encode(line) <= buf ==> Utf8.Decode(buf[..|Utf8.Encode(line)|]) == Some(line)
  {
    Utf8.DecodeOfEncode(line);
    assert Utf8.Encode(line) <= buf ==> buf[..|Utf8.Encode(line)|] == Utf8.Encode(line);
  }

  lemma RequestIsParsed(buf: seq<byte>, request: HttpRequest, version: string, h: nat)
    requires IsRequest(buf, request, version, h)
    ensures ParseRequest(buf) == Some(request)
  {
    var line := LineText(request.verb, request.path, version);
    FindIff(buf, LINE_END, |Utf8.Encode(line)|);
    FindIff(buf, HEADER_END, h);
    LineDecodes(buf, line);
    LineIsSplit(request.verb, request.path, version);
    assert buf[h + |HEADER_END|..] == request.body;
  }

  lemma BodyBehind(buf: seq<byte>, h: nat)
    requires FirstAt(buf, HEADER_END, h)
    ensures h + |HEADER_END| <= |buf| && buf == buf[..h] + HEADER_END + buf[h + |HEADER_END|..]
  {
    assert buf == buf[..h] + buf[h..h + |HEADER_END|] + buf[h + |HEADER_END|..];
  }

  lemma LineOfBuffer(buf: seq<byte>, end: nat, line: string)
    requires end <= |buf| && Utf8.Decode(buf[..end]) == Some(line)
    ensures Utf8.Encode(line) <= buf && |Utf8.Encode(line)| == end
  {
    Utf8.EncodeOfDecode(buf[..end]);
  }

  /** The parts of what has been parsed. */
  lemma ParsedParts(buf: seq<byte>, request: HttpRequest) returns (h: nat, end: nat, line: string)
    requires ParseRequest(buf) == Some(request)
    ensures Find(buf, HEADER_END) == Some(h) && Find(buf, LINE_END) == Some(end)
    ensures end <= |buf| && Utf8.Decode(buf[..end]) == Some(line) && RequestLine(line) == Some((request.verb, request.path))
    ensures h + |HEADER_END| <= |buf| && request.body == buf[h + |HEADER_END|..]
  {
    h, end := Find(buf, HEADER_END).value, Find(buf, LINE_END).value;
    line := Utf8.Decode(buf[..end]).value;
  }

  lemma ParsedIsRequest(buf: seq<byte>, request: HttpRequest)
    requires ParseRequest(buf) == Some(request)
    ensures exists version, h :: IsRequest(buf, request, version, h)
  {
    var h, end, line := ParsedParts(buf, request);
    FindIff(buf, HEADER_END, h);
    FindIff(buf, LINE_END, end);
    LineOfBuffer(buf, end, line);
    SplitLine(line, request.verb, request.path);
    var version :| LineOk(request.verb, request.path, version) && line == LineText(request.verb, request.path, version);
    BodyBehind(buf, h);
    assert IsRequest(buf, request, version, h);
  }

  /** The parser accepts exactly the requests, each as what it is. */
  method ParseHttpRequest(buf: seq<byte>) returns (r: Option<HttpRequest>)
    ensures r == ParseRequest(buf)
    ensures forall request :: r == Some(request) <==> exists version, h :: IsRequest(buf, request, version, h)
  {
    ParsedIff(buf);

    var headerEnd := FindMarker(buf, HEADER_END);
    if headerEnd.None? {
      return None;
    }
    var lineEnd := FindMarker(buf, LINE_END);
    if lineEnd.None? {
      return None;
    }
    var line := Utf8.Decode(buf[..lineEnd.value]);
    if line.None? {
      return None;
    }
    var parts := SplitN(line.value, ' ', 3);
    if |parts| < 3 || !StartsWith(parts[2], HTTP_1) || !StartsWith(parts[1], ['/']) {
      return None;
    }
    r := Some(HttpRequest(parts[0], parts[1], buf[headerEnd.value + |HEADER_END|..]));
  }

  lemma ParsedIff(buf: seq<byte>)
    ensures forall request :: ParseRequest(buf) == Some(request) <==> exists version, h :: IsRequest(buf, request, version, h)
  {
    forall request
      ensures ParseRequest(buf) == Some(request) <==> exists version, h :: IsRequest(buf, request, version, h)
    {
      if version, h :| IsRequest(buf, request, version, h) {
        RequestIsParsed(buf, request, version, h);
      }
      if ParseRequest(buf) == Some(request) {
        ParsedIsRequest(buf, request);
      }
    }
  }

  /** A sum that has wrapped around is smaller than either of its parts. */
  lemma WrappedIsSmall(h: nat, length: nat, total: nat)
    requires length < TWO_32 && h + 4 < TWO_32 && total == (h + 4 + length) % TWO_32
    ensures total >= h + 4 ==> total == h + 4 + length
  {
  }

  lemma TotalIsSum(h: nat, length: Length, total: nat)
    requires BodyLength(length) < TWO_32 && h + 4 < TWO_32 && total == Total(h, length)
    ensures total >= h + 4 ==> total == h + 4 + BodyLength(length)
  {
    WrappedIsSmall(h, BodyLength(length), total);
  }

  lemma ParsedBody(buf: seq<byte>, request: HttpRequest)
    requires ParseRequest(buf) == Some(request)
    ensures |request.body| + 4 <= |buf|
    ensures Find(buf, HEADER_END).Some?
    ensures var h := Find(buf, HEADER_END).value;
      h + 4 <= |buf| && |request.body| == |buf| - (h + 4) && buf == buf[..h] + HEADER_END + request.body
  {
    var h, end, line := ParsedParts(buf, request);
    FindIff(buf, HEADER_END, h);
    BodyBehind(buf, h);
  }

  lemma RequestSize(received: seq<byte>, h: nat, size: nat)
    requires Find(received, HEADER_END) == Some(h) && OutcomeOf(received) == Request(size)
    ensures size == Total(h, ContentLength(received[..h]))
  {
  }

  /**
   The body that the parser hands out is exactly as long as the header says, and nothing when it says
   nothing: a length so large that the sum wraps around is never accepted.
   */
  lemma BodyIsContentLength(received: seq<byte>, size: nat, buf: seq<byte>, request: HttpRequest, head: seq<byte>)
    requires |received| < TWO_32 && OutcomeOf(received) == Request(size) && size <= |received|
    requires buf == received[..size] && ParseRequest(buf) == Some(request)
    requires head == buf[..|buf| - |request.body| - 4]
    ensures buf == head + HEADER_END + request.body
    ensures |request.body| == match ContentLength(head) case Stated(Some(n)) => n case _ => 0
  {
    ParsedBody(buf, request);
    SizeIsTotal(received, size, buf, Find(buf, HEADER_END).value, head);
    LengthBounded(head);
    TotalIsSum(|head|, ContentLength(head), size);
  }

  lemma SizeIsTotal(received: seq<byte>, size: nat, buf: seq<byte>, h: nat, head: seq<byte>)
    requires OutcomeOf(received) == Request(size) && size <= |received| && buf == received[..size]
    requires Find(buf, HEADER_END) == Some(h) && head == buf[..h]
    ensures size == Total(h, ContentLength(head))
  {
    FindInLonger(received, HEADER_END, size, h);
    RequestSize(received, h, size);
  }

  lemma LengthBounded(header: seq<byte>)
    ensures BodyLength(ContentLength(header)) < TWO_32
  {
    var text := Utf8.Decode(header);
    if text.Some? {
      LengthFits(Lines(text.value));
    }
  }

  lemma EndsWhereItShould(head: seq<byte>, body: seq<byte>, s: seq<byte>, w: seq<byte>)
    requires s == head + HEADER_END + body && FirstAt(s, HEADER_END, |head|) && s <= w
    ensures Find(w, HEADER_END) == Some(|head|) && w[..|head|] == head
  {
    FindIff(s, HEADER_END, |head|);
    assert w[..|s|] == s;
    FindInLonger(w, HEADER_END, |s|, |head|);
    assert s[..|head|] == head;
  }

  /** What is sent: the request line, further lines if any, a blank line and the body. */
  ghost predicate Sent(s: seq<byte>, request: HttpRequest, version: string, head: seq<byte>, more: seq<byte>) {
    && LineOk(request.verb, request.path, version)
    && '\r' !in LineText(request.verb, request.path, version)
    && head == Utf8.Encode(LineText(request.verb, request.path, version)) + more
    && (more == [] || LINE_END <= more)
    && s == head + HEADER_END + request.body && FirstAt(s, HEADER_END, |head|)
  }

  lemma SentIsRequest(s: seq<byte>, request: HttpRequest, version: string, head: seq<byte>, more: seq<byte>)
    requires Sent(s, request, version, head, more)
    ensures IsRequest(s, request, version, |head|)
  {
    var line := Utf8.Encode(LineText(request.verb, request.path, version));
    var rest := more + HEADER_END + request.body;
    assert s == line + rest && rest[..2] == LINE_END && s[|line|..|line| + 2] == rest[..2];
    Utf8.EncodeLacks(LineText(request.verb, request.path, version), '\r');
    forall j | 0 <= j < |line|
      ensures !OccursAt(s, LINE_END, j)
    {
      assert s[j] == line[j];
      assert j + 2 <= |s| ==> s[j..j + 2][0] == s[j];
    }
    assert s[..|head|] == head;
  }

  /**
   A request that fits the buffer is received whole, in whatever pieces it comes and whatever follows
   it, and parsed into the method, the path and the body that were sent.
   */
  lemma SentIsReceived(s: seq<byte>, request: HttpRequest, version: string, head: seq<byte>, more: seq<byte>,
                       stream: seq<byte>, capacity: nat)
    requires Sent(s, request, version, head, more) && s <= stream && |s| <= capacity < TWO_32
    requires match ContentLength(head) case Panics => false case Stated(Some(n)) => n == |request.body| case _ => request.body == []
    ensures OutcomeOf(Received(stream, capacity)) == Request(|s|)
    ensures ParseRequest(s) == Some(request)
  {
    WholeArrives(s, head, request.body, stream, capacity);
    SentIsRequest(s, request, version, head, more);
    RequestIsParsed(s, request, version, |head|);
  }

  lemma WholeArrives(s: seq<byte>, head: seq<byte>, body: seq<byte>, stream: seq<byte>, capacity: nat)
    requires s == head + HEADER_END + body && FirstAt(s, HEADER_END, |head|)
    requires s <= stream && |s| <= capacity < TWO_32
    requires match ContentLength(head) case Panics => false case Stated(Some(n)) => n == |body| case _ => body == []
    ensures OutcomeOf(Received(stream, capacity)) == Request(|s|)
  {
    var w := Received(stream, capacity);
    assert s <= w;
    EndsWhereItShould(head, body, s, w);
    AllIsThere(w, |head|, ContentLength(head), |body|);
  }

  lemma AllIsThere(w: seq<byte>, h: nat, length: Length, size: nat)
    requires Find(w, HEADER_END) == Some(h) && length == ContentLength(w[..h]) && !length.Panics?
    requires BodyLength(length) == size && h + 4 + size <= |w| < TWO_32
    ensures OutcomeOf(w) == Request(h + 4 + size)
  {
  }
}
