/**
 The parser of the cpio archive as it runs, slices and offsets being Python's: a negative size leads
 backwards, and the parser may then never end.
 */
module CpioParser {
  import opened Basics
  import Utf8
  import opened Cpio

  // ---- Python's sequences

  function Clamp(i: int, n: nat): (c: nat)
    ensures c <= n
  {
    var j := if i < 0 then i + n else i;
    if j < 0 then 0 else Min(j, n)
  }

  /** `s[i:j]`: negative positions count from the end, and none is out of range. */
  function Slice(s: seq<byte>, i: int, j: int): (t: seq<byte>)
    ensures |t| <= |s|
  {
    var lo, hi := Clamp(i, |s|), Clamp(j, |s|);
    if lo < hi then s[lo..hi] else []
  }

  lemma SliceInside(s: seq<byte>, i: nat, j: nat)
    requires i <= j <= |s|
    ensures Slice(s, i, j) == s[i..j]
  {
  }

  /** `s[i]`, if there is such an element. */
  function At(s: seq<byte>, i: int): Option<byte> {
    if 0 <= i < |s| then Some(s[i]) else if -|s| <= i < 0 then Some(s[|s| + i]) else None
  }

  /** `(n + 3) & ~3` of any integer. */
  function Align4(n: int): int {
    (n + 3) / 4 * 4
  }

  // ---- one turn of the loop

  datatype Step = Step(entry: Entry, next: int)

  /** The pieces of eight bytes from `at` on. */
  function PiecesAt(raw: seq<byte>, at: int, count: nat): (p: seq<seq<byte>>)
    ensures |p| == count
  {
    seq(count, i requires 0 <= i < count => Slice(raw, at + 8 * i, at + 8 * i + 8))
  }

  function FieldsAt(raw: seq<byte>, at: int): (f: Option<seq<int>>)
    ensures f.Some? ==> |f.value| == FIELDS
  {
    ParseAll(PiecesAt(raw, at, FIELDS))
  }

  function Turn(raw: seq<byte>, offset: int): Result<Step, Error> {
    if offset + HEADER_SIZE > |raw| then Err(TruncatedHeader)
    else if !IsMagic(Slice(raw, offset, offset + 6)) then Err(BadMagic)
    else match FieldsAt(raw, offset + 6)
      case None => Err(BadHeader)
      case Some(fields) => TurnNamed(raw, Slice(raw, offset, offset + 6), fields, offset + HEADER_SIZE)
  }

  function TurnNamed(raw: seq<byte>, magic: seq<byte>, fields: seq<int>, nameStart: int): Result<Step, Error>
    requires |fields| == FIELDS
  {
    match NameAt(raw, fields, nameStart)
    case Err(e) => Err(e)
    case Ok(name) => TurnData(raw, magic, name, fields, Align4(nameStart + fields[NAME_SIZE]))
  }

  function NameAt(raw: seq<byte>, fields: seq<int>, nameStart: int): (r: Result<string, Error>)
    requires |fields| == FIELDS
    ensures r.Ok? ==> fields[NAME_SIZE] >= 1
  {
    var nameEnd := nameStart + fields[NAME_SIZE];
    if fields[NAME_SIZE] < 1 then Err(EmptyName)
    else if nameEnd > |raw| || At(raw, nameEnd - 1) != Some(0) then Err(BadName)
    else
      var name := Utf8.Decode(Slice(raw, nameStart, nameEnd - 1));
      if name.None? then Err(NotUtf8) else Ok(name.value)
  }

  function TurnData(raw: seq<byte>, magic: seq<byte>, name: string, fields: seq<int>, dataStart: int): Result<Step, Error>
    requires |fields| == FIELDS
  {
    var dataEnd := dataStart + fields[FILE_SIZE];
    if dataEnd > |raw| then Err(TruncatedData)
    else
      var data := Slice(raw, dataStart, dataEnd);
      if magic == CRC_MAGIC && CheckSum(data) != fields[CHECK] then Err(CrcMismatch)
      else Ok(Step(Entry(magic, name, fields, data), Align4(dataEnd)))
  }

  // ---- the whole loop

  /** What each offset has the loop do. */
  type Turns = int -> Result<Step, Error>

  function TurnsOf(raw: seq<byte>): Turns {
    i => Turn(raw, i)
  }

  /** The numbers from `-n` to `n`. */
  function UpTo(n: nat): set<int> {
    var top: int := n;
    if n == 0 then {0} else UpTo(n - 1) + {top, -top}
  }

  lemma {:induction false} InUpTo(n: nat, i: int)
    requires i <= n && -i <= n
    ensures i in UpTo(n)
  {
    if n > 0 && i < n && -i < n {
      InUpTo(n - 1, i);
    }
  }

  /** A header stands at one of finitely many offsets. */
  ghost predicate Bounded(turns: Turns, size: nat) {
    forall i :: turns(i).Ok? ==> i in UpTo(size)
  }

  lemma TurnIsInside(raw: seq<byte>, offset: int)
    requires Turn(raw, offset).Ok?
    ensures offset in UpTo(|raw|)
  {
    assert |Slice(raw, offset, offset + 6)| == 6;
    InUpTo(|raw|, offset);
  }

  lemma TurnsAreBounded(raw: seq<byte>)
    ensures Bounded(TurnsOf(raw), |raw|)
  {
    forall i | TurnsOf(raw)(i).Ok?
      ensures i in UpTo(|raw|)
    {
      TurnIsInside(raw, i);
    }
  }

  lemma OneOffsetLess(all: set<int>, seen: set<int>, offset: int)
    requires offset in all && offset !in seen
    ensures |all - (seen + {offset})| < |all - seen|
  {
    assert all - seen == (all - (seen + {offset})) + {offset};
  }

  /** The entries up to the trailer and the offset behind it. */
  datatype Scan = Stopped(result: Result<(seq<Entry>, int), Error>) | Endless

  function Before(entry: Entry, scan: Scan): Scan {
    match scan
    case Endless => Endless
    case Stopped(Err(e)) => Stopped(Err(e))
    case Stopped(Ok((entries, next))) => Stopped(Ok(([entry] + entries, next)))
  }

  /**
   The loop from `offset` on, when it has been at the offsets `seen` before. It depends on nothing but
   its offset, so coming back to one of them means going round for ever.
   */
  function ScanFrom(turns: Turns, size: nat, offset: int, seen: set<int>): Scan
    requires Bounded(turns, size) && offset !in seen
    decreases |UpTo(size) - seen|
  {
    match turns(offset)
    case Err(e) => Stopped(Err(e))
    case Ok(Step(entry, next)) =>
      if entry.name == TRAILER then Stopped(Ok(([entry], next)))
      else if next in seen + {offset} then Endless
      else
        OneOffsetLess(UpTo(size), seen, offset);
        Before(entry, ScanFrom(turns, size, next, seen + {offset}))
  }

  /** What the parser makes of an input. */
  datatype Outcome = Finished(result: Result<seq<Entry>, Error>) | RunsForever

  function Judged(raw: seq<byte>, scan: Scan): Outcome {
    match scan
    case Endless => RunsForever
    case Stopped(Err(e)) => Finished(Err(e))
    case Stopped(Ok((entries, next))) => Finished(Checked(raw, entries, Slice(raw, next, |raw|)))
  }

  function ScanOf(raw: seq<byte>): Scan {
    TurnsAreBounded(raw);
    ScanFrom(TurnsOf(raw), |raw|, 0, {})
  }

  function Parsed(raw: seq<byte>): Outcome {
    Judged(raw, ScanOf(raw))
  }

  // ---- the programs

  method ParseDataAt(raw: seq<byte>, magic: seq<byte>, name: string, fields: seq<int>, nameEnd: int) returns (r: Result<Step, Error>)
    requires |fields| == FIELDS
    ensures r == TurnData(raw, magic, name, fields, Align4(nameEnd))
  {
    var dataStart := Align4(nameEnd);
    var dataEnd := dataStart + fields[FILE_SIZE];
    if dataEnd > |raw| {
      return Err(TruncatedData);
    }
    var data := Slice(raw, dataStart, dataEnd);
    if magic == CRC_MAGIC && CheckSum(data) != fields[CHECK] {
      return Err(CrcMismatch);
    }
    r := Ok(Step(Entry(magic, name, fields, data), Align4(dataEnd)));
  }

  /** One turn of the parser's loop: the entry at `offset`, and the next offset. */
  method ParseEntryAt(raw: seq<byte>, offset: int) returns (r: Result<Step, Error>)
    ensures r == Turn(raw, offset)
  {
    if offset + HEADER_SIZE > |raw| {
      return Err(TruncatedHeader);
    }
    var magic := Slice(raw, offset, offset + 6);
    if !IsMagic(magic) {
      return Err(BadMagic);
    }
    var parsed := FieldsAt(raw, offset + 6);
    if parsed.None? {
      return Err(BadHeader);
    }
    r := ParseNamedAt(raw, magic, parsed.value, offset + HEADER_SIZE);
  }

  method ParseNamedAt(raw: seq<byte>, magic: seq<byte>, fields: seq<int>, nameStart: int) returns (r: Result<Step, Error>)
    requires |fields| == FIELDS
    ensures r == TurnNamed(raw, magic, fields, nameStart)
  {
    if fields[NAME_SIZE] < 1 {
      return Err(EmptyName);
    }
    var nameEnd := nameStart + fields[NAME_SIZE];
    if nameEnd > |raw| || At(raw, nameEnd - 1) != Some(0) {
      return Err(BadName);
    }
    var name := Utf8.Decode(Slice(raw, nameStart, nameEnd - 1));
    if name.None? {
      return Err(NotUtf8);
    }
    r := ParseDataAt(raw, magic, name.value, fields, nameEnd);
  }

  /** What has been read, and what the loop will still make of the input. */
  ghost function After(entries: seq<Entry>, scan: Scan): Scan {
    match scan
    case Endless => Endless
    case Stopped(Err(e)) => Stopped(Err(e))
    case Stopped(Ok((more, next))) => Stopped(Ok((entries + more, next)))
  }

  lemma AfterNothing(scan: Scan)
    ensures After([], scan) == scan
  {
    if scan.Stopped? && scan.result.Ok? {
      assert [] + scan.result.value.0 == scan.result.value.0;
    }
  }

  lemma AfterOneMore(entries: seq<Entry>, entry: Entry, scan: Scan)
    ensures After(entries, Before(entry, scan)) == After(entries + [entry], scan)
  {
    if scan.Stopped? && scan.result.Ok? {
      Associative(entries, [entry], scan.result.value.0);
    }
  }

  method TakeTurn(raw: seq<byte>, offset: int, ghost turns: Turns) returns (r: Result<Step, Error>)
    requires turns == TurnsOf(raw)
    ensures r == turns(offset)
  {
    r := ParseEntryAt(raw, offset);
  }

  /** The loop. The offsets seen are not kept by the program; they tell when it would never end. */
  method ScanAll(raw: seq<byte>, ghost turns: Turns, ghost size: nat) returns (r: Scan)
    requires turns == TurnsOf(raw) && size == |raw| && Bounded(turns, size)
    ensures r == ScanFrom(turns, size, 0, {})
  {
    var entries: seq<Entry>, offset: int, last := [], 0, false;
    var seen: set<int> := {};
    ghost var all := ScanFrom(turns, size, 0, {});
    AfterNothing(all);
    while !last
      invariant !last ==> offset !in seen && all == After(entries, ScanFrom(turns, size, offset, seen))
      invariant last ==> all == Stopped(Ok((entries, offset)))
      decreases !last, |UpTo(size) - seen|
    {
      var step := TakeTurn(raw, offset, turns);
      if step.Err? {
        return Stopped(Err(step.error));
      }
      var entry, next := step.value.entry, step.value.next;
      OneOffsetLess(UpTo(size), seen, offset);
      if entry.name != TRAILER && next in seen + {offset} {
        return Endless;
      }
      if entry.name != TRAILER {
        AfterOneMore(entries, entry, ScanFrom(turns, size, next, seen + {offset}));
      }
      last := entry.name == TRAILER;
      seen := seen + {offset};
      entries, offset := entries + [entry], next;
    }
    r := Stopped(Ok((entries, offset)));
  }

  method Parse(raw: seq<byte>) returns (r: Outcome)
    ensures r == Parsed(raw)
  {
    TurnsAreBounded(raw);
    var scan := ScanAll(raw, TurnsOf(raw), |raw|);
    r := Judged(raw, scan);
  }

  // ---- what running for ever means

  /** Where the turn at `offset` leads, if the parser does not stop there. */
  function Onward(turns: Turns, offset: int): Option<int> {
    match turns(offset)
    case Err(_) => None
    case Ok(Step(entry, next)) => if entry.name == TRAILER then None else Some(next)
  }

  /** The offset after `n` turns, if there are that many before the parser stops. */
  function OffsetAfter(turns: Turns, offset: int, n: nat): Option<int>
    decreases n
  {
    if n == 0 then Some(offset)
    else
      var next := Onward(turns, offset);
      if next.None? then None else OffsetAfter(turns, next.value, n - 1)
  }

  predicate LeadsInto(turns: Turns, i: int, offsets: set<int>) {
    Onward(turns, i).Some? && Onward(turns, i).value in offsets
  }

  /** From every offset of the set, one more turn leads into the set. */
  ghost predicate Closed(turns: Turns, offsets: set<int>) {
    forall i :: i in offsets ==> LeadsInto(turns, i, offsets)
  }

  lemma {:induction false} ClosedNeverStops(turns: Turns, offset: int, all: set<int>, n: nat)
    requires Closed(turns, all) && offset in all
    ensures OffsetAfter(turns, offset, n).Some?
    decreases n
  {
    assert LeadsInto(turns, offset, all);
    if n > 0 {
      ClosedNeverStops(turns, Onward(turns, offset).value, all, n - 1);
    }
  }

  lemma ClosedWith(turns: Turns, offset: int, all: set<int>) returns (more: set<int>)
    requires Closed(turns, all) && LeadsInto(turns, offset, all)
    ensures offset in more && Closed(turns, more)
  {
    more := all + {offset};
    forall i | i in more
      ensures LeadsInto(turns, i, more)
    {
      assert i in all ==> LeadsInto(turns, i, all);
    }
  }

  lemma {:induction false} EndlessIsClosed(turns: Turns, size: nat, offset: int, seen: set<int>) returns (all: set<int>)
    requires Bounded(turns, size) && offset !in seen && ScanFrom(turns, size, offset, seen).Endless?
    requires forall i :: i in seen ==> LeadsInto(turns, i, seen + {offset})
    ensures offset in all && Closed(turns, all)
    decreases |UpTo(size) - seen|
  {
    var next := Onward(turns, offset).value;
    var more := seen + {offset};
    if next in more {
      all := more;
      assert forall i :: i in more ==> LeadsInto(turns, i, more);
    } else {
      OneOffsetLess(UpTo(size), seen, offset);
      assert forall i :: i in more ==> LeadsInto(turns, i, more + {next}) by {
        assert forall i :: i in seen ==> LeadsInto(turns, i, more);
      }
      all := EndlessIsClosed(turns, size, next, more);
      all := ClosedWith(turns, offset, all);
    }
  }

  lemma {:induction false} StoppedStops(turns: Turns, size: nat, offset: int, seen: set<int>) returns (n: nat)
    requires Bounded(turns, size) && offset !in seen && ScanFrom(turns, size, offset, seen).Stopped?
    ensures OffsetAfter(turns, offset, n) == None
    decreases |UpTo(size) - seen|
  {
    n := 1;
    var next := Onward(turns, offset);
    if next.Some? {
      OneOffsetLess(UpTo(size), seen, offset);
      var m := StoppedStops(turns, size, next.value, seen + {offset});
      n := m + 1;
      OneTurnFirst(turns, offset, next.value, m);
    } else {
      assert OffsetAfter(turns, offset, n) == None;
    }
  }

  lemma OneTurnFirst(turns: Turns, offset: int, next: int, m: nat)
    requires Onward(turns, offset) == Some(next)
    ensures OffsetAfter(turns, offset, m + 1) == OffsetAfter(turns, next, m)
  {
  }

  lemma ScanIsEndlessIff(turns: Turns, size: nat)
    requires Bounded(turns, size)
    ensures ScanFrom(turns, size, 0, {}) == Endless <==> forall n: nat :: OffsetAfter(turns, 0, n).Some?
  {
    if ScanFrom(turns, size, 0, {}).Endless? {
      var all := EndlessIsClosed(turns, size, 0, {});
      forall n: nat
        ensures OffsetAfter(turns, 0, n).Some?
      {
        ClosedNeverStops(turns, 0, all, n);
      }
    } else {
      var n := StoppedStops(turns, size, 0, {});
    }
  }

  lemma {:induction false} OneMoreTurn(turns: Turns, offset: int, n: nat)
    ensures OffsetAfter(turns, offset, n + 1) ==
              match OffsetAfter(turns, offset, n) case None => None case Some(i) => Onward(turns, i)
    decreases n
  {
    var next := Onward(turns, offset);
    if n > 0 && next.Some? {
      OneMoreTurn(turns, next.value, n - 1);
    } else if next.Some? {
      assert OffsetAfter(turns, next.value, 0) == next;
    }
  }

  /** Running for ever is what it says: after any number of turns there is another one. */
  lemma NoLastTurn(raw: seq<byte>)
    ensures Parsed(raw) == RunsForever <==> forall n: nat :: OffsetAfter(TurnsOf(raw), 0, n).Some?
  {
    TurnsAreBounded(raw);
    ScanIsEndlessIff(TurnsOf(raw), |raw|);
  }

  // ---- exactly when it runs for ever

  lemma {:induction false} UpToSize(n: nat)
    ensures |UpTo(n)| <= 2 * n + 1
  {
    if n > 0 {
      var top: int := n;
      UpToSize(n - 1);
      AddTwo(UpTo(n - 1), top, -top);
    }
  }

  lemma AddTwo(s: set<int>, a: int, b: int)
    ensures |s + {a, b}| <= |s| + 2
  {
    assert s + {a, b} == (s + {a}) + {b};
    assert a !in s ==> |s + {a}| == |s| + 1;
    assert a in s ==> s + {a} == s;
    assert b in s + {a} ==> (s + {a}) + {b} == s + {a};
  }

  /** After `n` turns the parser is back where it was after `m`. */
  ghost predicate ComesBack(turns: Turns, m: nat, n: nat) {
    m < n && OffsetAfter(turns, 0, m).Some? && OffsetAfter(turns, 0, m) == OffsetAfter(turns, 0, n)
  }

  lemma {:induction false} EarlierTurns(turns: Turns, m: nat, n: nat)
    requires m <= n && OffsetAfter(turns, 0, n).Some?
    ensures OffsetAfter(turns, 0, m).Some?
    decreases n
  {
    if m < n {
      OneMoreTurn(turns, 0, n - 1);
      EarlierTurns(turns, m, n - 1);
    }
  }

  /** Having come back once, it goes round and round. */
  lemma {:induction false} RoundAgain(turns: Turns, m: nat, n: nat, k: nat)
    requires ComesBack(turns, m, n)
    ensures OffsetAfter(turns, 0, n + k) == OffsetAfter(turns, 0, m + k)
    decreases k
  {
    if k > 0 {
      RoundAgain(turns, m, n, k - 1);
      OneMoreTurn(turns, 0, n + k - 1);
      OneMoreTurn(turns, 0, m + k - 1);
    }
  }

  lemma {:induction false} ComingBackNeverStops(turns: Turns, m: nat, n: nat, k: nat)
    requires ComesBack(turns, m, n)
    ensures OffsetAfter(turns, 0, k).Some?
    decreases k
  {
    if k <= n {
      EarlierTurns(turns, k, n);
    } else {
      RoundAgain(turns, m, n, k - n);
      ComingBackNeverStops(turns, m, n, m + (k - n));
    }
  }

  /** The offsets `seen` are those after fewer than `k` turns. */
  ghost predicate SeenBefore(turns: Turns, seen: set<int>, k: nat) {
    |seen| == k && forall i :: i in seen ==> exists j: nat :: j < k && OffsetAfter(turns, 0, j) == Some(i)
  }

  lemma OneMoreSeen(turns: Turns, offset: int, seen: set<int>, k: nat)
    requires SeenBefore(turns, seen, k) && offset !in seen && OffsetAfter(turns, 0, k) == Some(offset)
    ensures SeenBefore(turns, seen + {offset}, k + 1)
  {
  }

  lemma {:induction false} EndlessComesBack(turns: Turns, size: nat, offset: int, seen: set<int>, k: nat) returns (m: nat, n: nat)
    requires Bounded(turns, size) && offset !in seen && seen <= UpTo(size) && SeenBefore(turns, seen, k)
    requires OffsetAfter(turns, 0, k) == Some(offset) && ScanFrom(turns, size, offset, seen).Endless?
    ensures ComesBack(turns, m, n) && n <= |UpTo(size)|
    decreases |UpTo(size) - seen|
  {
    var next, more := EndlessStep(turns, size, offset, seen);
    OneMoreTurn(turns, 0, k);
    OneMoreSeen(turns, offset, seen, k);
    if next in more {
      m := WhenSeen(turns, more, k + 1, next);
      n := k + 1;
      SubsetIsSmaller(more, UpTo(size));
    } else {
      OneOffsetLess(UpTo(size), seen, offset);
      m, n := EndlessComesBack(turns, size, next, more, k + 1);
    }
  }

  /** One turn of a scan that never ends. */
  lemma EndlessStep(turns: Turns, size: nat, offset: int, seen: set<int>) returns (next: int, more: set<int>)
    requires Bounded(turns, size) && offset !in seen && seen <= UpTo(size)
    requires ScanFrom(turns, size, offset, seen).Endless?
    ensures Onward(turns, offset) == Some(next) && more == seen + {offset} && offset in UpTo(size) && more <= UpTo(size)
    ensures next !in more ==> ScanFrom(turns, size, next, more).Endless?
  {
    next, more := Onward(turns, offset).value, seen + {offset};
  }

  lemma WhenSeen(turns: Turns, seen: set<int>, k: nat, offset: int) returns (m: nat)
    requires SeenBefore(turns, seen, k) && offset in seen
    ensures m < k && OffsetAfter(turns, 0, m) == Some(offset)
  {
    m :| m < k && OffsetAfter(turns, 0, m) == Some(offset);
  }

  lemma SubsetIsSmaller(a: set<int>, b: set<int>)
    requires a <= b
    ensures |a| <= |b|
  {
    assert b == a + (b - a);
  }

  lemma EndlessFromStart(turns: Turns, size: nat) returns (m: nat, n: nat)
    requires Bounded(turns, size) && ScanFrom(turns, size, 0, {}).Endless?
    ensures ComesBack(turns, m, n) && n <= 2 * size + 1
  {
    m, n := EndlessComesBack(turns, size, 0, {}, 0);
    UpToSize(size);
  }

  /**
   The parser runs for ever exactly when it comes back to an offset where it has been; and it need be
   followed for no more than twice as many turns as the input has bytes, and one, to tell.
   */
  lemma RunsForeverIff(raw: seq<byte>)
    ensures Parsed(raw) == RunsForever <==>
              exists m: nat, n: nat :: n <= 2 * |raw| + 1 && ComesBack(TurnsOf(raw), m, n)
  {
    var turns := TurnsOf(raw);
    TurnsAreBounded(raw);
    if Parsed(raw) == RunsForever {
      var m, n := EndlessFromStart(turns, |raw|);
    }
    if m: nat, n: nat :| n <= 2 * |raw| + 1 && ComesBack(turns, m, n) {
      forall k: nat
        ensures OffsetAfter(turns, 0, k).Some?
      {
        ComingBackNeverStops(turns, m, n, k);
      }
      NoLastTurn(raw);
    }
  }

  // ---- sizes that are not negative

  predicate SizeFits(turn: Result<Step, Error>) {
    turn.Ok? && |turn.value.entry.fields| == FIELDS ==> turn.value.entry.fields[FILE_SIZE] >= 0
  }

  /** None of the entries that are met has a negative size. */
  ghost predicate NoNegativeSize(turns: Turns) {
    forall n: nat, i :: OffsetAfter(turns, 0, n) == Some(i) ==> SizeFits(turns(i))
  }

  /** Every turn over an entry whose size is not negative moves on. */
  ghost predicate Advancing(turns: Turns, size: nat) {
    && (forall i :: turns(i).Ok? && SizeFits(turns(i)) ==> turns(i).value.next > i)
    && (forall i :: i > size ==> turns(i).Err?)
  }

  lemma {:induction false} OffsetsGrow(turns: Turns, size: nat, n: nat, i: int)
    requires NoNegativeSize(turns) && Advancing(turns, size) && OffsetAfter(turns, 0, n) == Some(i)
    ensures i >= n
    decreases n
  {
    if n > 0 {
      OneMoreTurn(turns, 0, n - 1);
      var j := OffsetAfter(turns, 0, n - 1).value;
      assert SizeFits(turns(j));
      OffsetsGrow(turns, size, n - 1, j);
    }
  }

  lemma AdvancingEnds(turns: Turns, size: nat)
    requires NoNegativeSize(turns) && Advancing(turns, size)
    ensures exists n: nat :: OffsetAfter(turns, 0, n) == None
  {
    var n := size + 1;
    var last := OffsetAfter(turns, 0, n);
    if last.Some? {
      OffsetsGrow(turns, size, n, last.value);
      OneMoreTurn(turns, 0, n);
      assert OffsetAfter(turns, 0, n + 1) == None;
    }
  }

  lemma AlignIsAbove(n: int)
    ensures n <= Align4(n) < n + 4
  {
  }

  lemma DataAdvances(raw: seq<byte>, magic: seq<byte>, name: string, fields: seq<int>, dataStart: int)
    requires |fields| == FIELDS && TurnData(raw, magic, name, fields, dataStart).Ok?
    ensures TurnData(raw, magic, name, fields, dataStart).value.entry.fields == fields
    ensures fields[FILE_SIZE] >= 0 ==> TurnData(raw, magic, name, fields, dataStart).value.next >= dataStart
  {
    AlignIsAbove(dataStart + fields[FILE_SIZE]);
  }

  lemma NamedAdvances(raw: seq<byte>, magic: seq<byte>, fields: seq<int>, nameStart: int)
    requires |fields| == FIELDS && TurnNamed(raw, magic, fields, nameStart).Ok?
    ensures TurnNamed(raw, magic, fields, nameStart).value.entry.fields == fields
    ensures fields[FILE_SIZE] >= 0 ==> TurnNamed(raw, magic, fields, nameStart).value.next > nameStart
  {
    var nameEnd := nameStart + fields[NAME_SIZE];
    AlignIsAbove(nameEnd);
    DataAdvances(raw, magic, NameAt(raw, fields, nameStart).value, fields, Align4(nameEnd));
  }

  /** A turn over an entry whose size is not negative moves on by more than a header. */
  lemma TurnAdvances(raw: seq<byte>, offset: int, turn: Result<Step, Error>)
    requires turn == Turn(raw, offset) && turn.Ok?
    ensures |turn.value.entry.fields| == FIELDS
    ensures turn.value.entry.fields[FILE_SIZE] >= 0 ==> turn.value.next > offset + HEADER_SIZE
  {
    NamedAdvances(raw, Slice(raw, offset, offset + 6), FieldsAt(raw, offset + 6).value, offset + HEADER_SIZE);
  }

  lemma TurnsAdvance(raw: seq<byte>)
    ensures Advancing(TurnsOf(raw), |raw|)
  {
    forall i | TurnsOf(raw)(i).Ok? && SizeFits(TurnsOf(raw)(i))
      ensures TurnsOf(raw)(i).value.next > i
    {
      TurnAdvances(raw, i, Turn(raw, i));
    }
    forall i | i > |raw|
      ensures TurnsOf(raw)(i).Err?
    {
    }
  }

  /** If none of the entries that are met has a negative size, the parser comes to an end. */
  lemma ForwardEnds(raw: seq<byte>)
    requires NoNegativeSize(TurnsOf(raw))
    ensures Parsed(raw) != RunsForever
  {
    NoLastTurn(raw);
    TurnsAdvance(raw);
    AdvancingEnds(TurnsOf(raw), |raw|);
  }
}
