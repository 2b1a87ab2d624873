/** The string operations of Rust's standard library that the parsers are built from. */
module Text {
  import opened Basics

  // ---- searching

  /** The position of the first `c` in `s`, or `|s|`. */
  function IndexOf<T(==)>(s: seq<T>, c: T): (i: nat)
    ensures i <= |s| && (i < |s| ==> s[i] == c)
  {
    if s == [] || s[0] == c then 0 else 1 + IndexOf(s[1..], c)
  }

  lemma {:induction false} IndexOfIsFirst<T>(s: seq<T>, c: T)
    ensures c !in s[..IndexOf(s, c)]
  {
    if s != [] && s[0] != c {
      IndexOfIsFirst(s[1..], c);
      var i := IndexOf(s, c);
      assert s[..i] == [s[0]] + s[1..][..i - 1];
    }
  }

  lemma IndexOfUnique<T>(s: seq<T>, c: T, i: nat)
    requires i <= |s| && c !in s[..i] && (i < |s| ==> s[i] == c)
    ensures IndexOf(s, c) == i
  {
    var k := IndexOf(s, c);
    IndexOfIsFirst(s, c);
    assert forall j :: 0 <= j < i ==> s[j] == s[..i][j];
    assert forall j :: 0 <= j < k ==> s[j] == s[..k][j];
  }

  /** In `a + [c] + b` the first `c` is the one between, when `a` has none. */
  lemma IndexOfAfter<T>(a: seq<T>, c: T, b: seq<T>)
    requires c !in a
    ensures IndexOf(a + [c] + b, c) == |a|
  {
    assert (a + [c] + b)[..|a|] == a;
    IndexOfUnique(a + [c] + b, c, |a|);
  }

  /** What follows the last `c` of `s`: all of `s` when it has none. */
  function AfterLast<T(==)>(s: seq<T>, c: T): (t: seq<T>)
    ensures |t| <= |s|
  {
    if s == [] || s[|s| - 1] == c then [] else AfterLast(s[..|s| - 1], c) + [s[|s| - 1]]
  }

  lemma {:induction false} AfterLastHasNone<T>(s: seq<T>, c: T)
    ensures c !in AfterLast(s, c)
  {
    if s != [] && s[|s| - 1] != c {
      AfterLastHasNone(s[..|s| - 1], c);
    }
  }

  lemma {:induction false} AfterLastNone<T>(s: seq<T>, c: T)
    requires c !in s
    ensures AfterLast(s, c) == s
  {
    if s != [] {
      AfterLastNone(s[..|s| - 1], c);
    }
  }

  lemma {:induction false} AfterLastOf<T>(a: seq<T>, c: T, b: seq<T>)
    requires c !in b
    ensures AfterLast(a + [c] + b, c) == b
    decreases |b|
  {
    var s := a + [c] + b;
    if b == [] {
      assert s[|s| - 1] == c;
    } else {
      var b' := b[..|b| - 1];
      assert s[..|s| - 1] == a + [c] + b';
      AfterLastOf(a, c, b');
    }
  }

  predicate OccursAt<T(==)>(s: seq<T>, pat: seq<T>, i: nat) {
    i + |pat| <= |s| && s[i..i + |pat|] == pat
  }

  /** The first occurrence of `pat` is at `i`. */
  predicate FirstAt<T(==)>(s: seq<T>, pat: seq<T>, i: nat) {
    OccursAt(s, pat, i) && forall j :: 0 <= j < i ==> !OccursAt(s, pat, j)
  }

  lemma FindIff<T>(s: seq<T>, pat: seq<T>, i: nat)
    ensures Find(s, pat) == Some(i) <==> FirstAt(s, pat, i)
  {
    FindFromIsFirst(s, pat, 0);
  }

  /** The position of the first occurrence of `pat`, if there is one. */
  function Find<T(==)>(s: seq<T>, pat: seq<T>): Option<nat> {
    FindFrom(s, pat, 0)
  }

  function FindFrom<T(==)>(s: seq<T>, pat: seq<T>, i: nat): (r: Option<nat>)
    ensures r.Some? ==> i <= r.value <= r.value + |pat| <= |s|
    decreases |s| - i
  {
    if i + |pat| > |s| then None
    else if s[i..i + |pat|] == pat then Some(i)
    else FindFrom(s, pat, i + 1)
  }

  lemma {:induction false} FindFromIsFirst<T>(s: seq<T>, pat: seq<T>, i: nat)
    ensures
      var r := FindFrom(s, pat, i);
      && (r.Some? ==> OccursAt(s, pat, r.value))
      && forall j :: i <= j && (r.Some? ==> j < r.value) ==> !OccursAt(s, pat, j)
    decreases |s| - i
  {
    if i + |pat| <= |s| && s[i..i + |pat|] != pat {
      FindFromIsFirst(s, pat, i + 1);
    }
  }

  predicate Contains<T(==)>(s: seq<T>, pat: seq<T>) {
    Find(s, pat).Some?
  }

  lemma OccurrenceMeansContains<T>(s: seq<T>, pat: seq<T>, i: nat)
    requires OccursAt(s, pat, i)
    ensures Contains(s, pat)
  {
    FindFromIsFirst(s, pat, 0);
  }

  lemma NoOccurrence<T>(s: seq<T>, pat: seq<T>)
    requires forall i :: 0 <= i ==> !OccursAt(s, pat, i)
    ensures !Contains(s, pat)
  {
    FindFromIsFirst(s, pat, 0);
  }

  lemma FindUnique<T>(s: seq<T>, pat: seq<T>, i: nat)
    requires OccursAt(s, pat, i) && forall j :: 0 <= j < i ==> !OccursAt(s, pat, j)
    ensures Find(s, pat) == Some(i)
  {
    FindFromIsFirst(s, pat, 0);
  }

  /** Nothing before the first occurrence contains the pattern. */
  lemma BeforeFirst<T>(s: seq<T>, pat: seq<T>)
    requires pat != [] && Find(s, pat).Some?
    ensures !Contains(s[..Find(s, pat).value], pat)
  {
    FindFromIsFirst(s, pat, 0);
    var t := s[..Find(s, pat).value];
    forall j: nat
      ensures !OccursAt(t, pat, j)
    {
      if j + |pat| <= |t| {
        assert t[j..j + |pat|] == s[j..j + |pat|];
        assert !OccursAt(s, pat, j);
      }
    }
    NoOccurrence(t, pat);
  }

  // ---- white space

  /** The Unicode White_Space property, which `trim` goes by. */
  predicate IsSpace(c: char) {
    var n := c as int;
    || 9 <= n <= 13 || n == 0x20 || n == 0x85 || n == 0xA0 || n == 0x1680 || 0x2000 <= n <= 0x200A
    || n == 0x2028 || n == 0x2029 || n == 0x202F || n == 0x205F || n == 0x3000
  }

  /** The 25 characters of that property. */
  lemma SpacesByName(c: char)
    ensures IsSpace(c) <==> c in "\t\n\U{B}\U{C}\r \U{85}\U{A0}\U{1680}" +
                                "\U{2000}\U{2001}\U{2002}\U{2003}\U{2004}\U{2005}\U{2006}\U{2007}\U{2008}\U{2009}\U{200A}" +
                                "\U{2028}\U{2029}\U{202F}\U{205F}\U{3000}"
  {
  }

  function TrimStart(s: string): (t: string)
    ensures |t| <= |s|
  {
    if s == [] || !IsSpace(s[0]) then s else TrimStart(s[1..])
  }

  function TrimEnd(s: string): (t: string)
    ensures |t| <= |s|
  {
    if s == [] || !IsSpace(s[|s| - 1]) then s else TrimEnd(s[..|s| - 1])
  }

  function Trim(s: string): string {
    TrimEnd(TrimStart(s))
  }

  /** `s` has no white space at either end. */
  predicate Trimmed(s: string) {
    s == [] || (!IsSpace(s[0]) && !IsSpace(s[|s| - 1]))
  }

  lemma {:induction false} TrimStartFacts(s: string)
    ensures
      var t := TrimStart(s);
      && (t == [] || !IsSpace(t[0])) && t == s[|s| - |t|..]
      && forall i :: 0 <= i < |s| - |t| ==> IsSpace(s[i])
  {
    if s != [] && IsSpace(s[0]) {
      TrimStartFacts(s[1..]);
      var t := TrimStart(s);
      assert forall i :: 1 <= i < |s| - |t| ==> s[i] == s[1..][i - 1];
    }
  }

  lemma {:induction false} TrimEndFacts(s: string)
    ensures
      var t := TrimEnd(s);
      && (t == [] || !IsSpace(t[|t| - 1])) && t <= s
      && forall i :: |t| <= i < |s| ==> IsSpace(s[i])
  {
    if s != [] && IsSpace(s[|s| - 1]) {
      TrimEndFacts(s[..|s| - 1]);
    }
  }

  /** Exactly the strings without white space at their ends are left alone. */
  lemma TrimFixpoint(s: string)
    ensures Trim(s) == s <==> Trimmed(s)
  {
    TrimStartFacts(s);
    TrimEndFacts(TrimStart(s));
  }

  /** Trimming leaves a visible head alone and reaches only what follows it. */
  lemma {:induction false} TrimEndBehind(a: string, b: string)
    requires a != [] && !IsSpace(a[|a| - 1])
    ensures TrimEnd(a + b) == a + TrimEnd(b)
    decreases |b|
  {
    if b == [] || !IsSpace(b[|b| - 1]) {
      assert b == [] ==> a + b == a;
    } else {
      assert (a + b)[..|a + b| - 1] == a + b[..|b| - 1];
      TrimEndBehind(a, b[..|b| - 1]);
    }
  }

  lemma TrimBehind(a: string, b: string)
    requires a != [] && !IsSpace(a[0]) && !IsSpace(a[|a| - 1])
    ensures Trim(a + b) == a + TrimEnd(b)
  {
    TrimEndBehind(a, b);
    assert TrimStart(a + b) == a + b;
  }

  /** The properties of `TrimEnd` determine its result. */
  lemma TrimEndUnique(s: string, t: string)
    requires t <= s && (t == [] || !IsSpace(t[|t| - 1]))
    requires forall i :: |t| <= i < |s| ==> IsSpace(s[i])
    ensures TrimEnd(s) == t
  {
    var u := TrimEnd(s);
    TrimEndFacts(s);
    assert t != [] ==> s[|t| - 1] == t[|t| - 1];
    assert u != [] ==> s[|u| - 1] == u[|u| - 1];
  }

  /** Both ends can be trimmed in either order. */
  lemma {:induction false} TrimOfTrimEnd(s: string)
    ensures Trim(TrimEnd(s)) == Trim(s)
  {
    var t := TrimEnd(s);
    TrimEndFacts(s);
    if t == [] {
      AllSpace(s);
    } else if !IsSpace(s[0]) {
      assert TrimEnd(t) == t;
    } else {
      var rest := s[1..];
      TrimEndUnique(rest, t[1..]);
      TrimOfTrimEnd(rest);
    }
  }

  lemma {:induction false} AllSpace(s: string)
    requires forall i :: 0 <= i < |s| ==> IsSpace(s[i])
    ensures TrimStart(s) == []
  {
    if s != [] {
      AllSpace(s[1..]);
    }
  }

  // ---- splitting

  /** `str::split` on one character: always at least one piece. */
  function Split(s: string, c: char): (parts: seq<string>)
    ensures |parts| >= 1
    decreases |s|
  {
    var i := IndexOf(s, c);
    if i == |s| then [s] else [s[..i]] + Split(s[i + 1..], c)
  }

  lemma SplitAt(a: string, c: char, b: string)
    requires c !in a
    ensures Split(a + [c] + b, c) == [a] + Split(b, c)
  {
    IndexOfAfter(a, c, b);
    assert (a + [c] + b)[..|a|] == a && (a + [c] + b)[|a| + 1..] == b;
  }

  lemma SplitNone(a: string, c: char)
    requires c !in a
    ensures Split(a, c) == [a]
  {
    assert a[..|a|] == a;
    IndexOfUnique(a, c, |a|);
  }

  /** `str::splitn`: at most `n` pieces, the last holding the rest. */
  function SplitN(s: string, c: char, n: nat): (parts: seq<string>)
    requires n >= 1
    ensures 1 <= |parts| <= n
    decreases n
  {
    var i := IndexOf(s, c);
    if n == 1 || i == |s| then [s] else [s[..i]] + SplitN(s[i + 1..], c, n - 1)
  }

  lemma SplitNAt(a: string, c: char, b: string, n: nat)
    requires c !in a && n >= 2
    ensures SplitN(a + [c] + b, c, n) == [a] + SplitN(b, c, n - 1)
  {
    IndexOfAfter(a, c, b);
    assert (a + [c] + b)[..|a|] == a && (a + [c] + b)[|a| + 1..] == b;
  }

  /** The first piece, and what the others are pieces of. */
  lemma SplitNFront(s: string, c: char, n: nat, parts: seq<string>) returns (rest: string)
    requires n >= 2 && parts == SplitN(s, c, n) && |parts| >= 2
    ensures c !in parts[0] && s == parts[0] + [c] + rest && parts[1..] == SplitN(rest, c, n - 1)
  {
    var i := IndexOf(s, c);
    IndexOfIsFirst(s, c);
    rest := s[i + 1..];
    assert parts == [s[..i]] + SplitN(rest, c, n - 1);
    assert s == s[..i] + [c] + rest;
  }

  /**
   `str::lines`: a line that a newline ends loses a carriage return before it, and the text after the
   last newline is a line only if it is not empty.
   */
  function Lines(s: string): seq<string>
    decreases |s|
  {
    if s == [] then []
    else
      var i := IndexOf(s, '\n');
      if i == |s| then [s] else [WithoutLast(s[..i], '\r')] + Lines(s[i + 1..])
  }

  lemma LinesAt(a: string, b: string)
    requires '\n' !in a
    ensures Lines(a + ['\n'] + b) == [WithoutLast(a, '\r')] + Lines(b)
  {
    IndexOfAfter(a, '\n', b);
    assert (a + ['\n'] + b)[..|a|] == a && (a + ['\n'] + b)[|a| + 1..] == b;
  }

  lemma LinesLast(a: string)
    requires '\n' !in a
    ensures Lines(a) == if a == [] then [] else [a]
  {
    assert a[..|a|] == a;
    IndexOfUnique(a, '\n', |a|);
  }

  /** `str::split_once`. */
  function SplitOnce(s: string, c: char): Option<(string, string)> {
    var i := IndexOf(s, c);
    if i == |s| then None else Some((s[..i], s[i + 1..]))
  }

  lemma SplitOnceAt(a: string, c: char, b: string)
    requires c !in a
    ensures SplitOnce(a + [c] + b, c) == Some((a, b))
  {
    IndexOfAfter(a, c, b);
    assert (a + [c] + b)[..|a|] == a && (a + [c] + b)[|a| + 1..] == b;
  }

  predicate StartsWith<T(==)>(s: seq<T>, pat: seq<T>) {
    pat <= s
  }
}
