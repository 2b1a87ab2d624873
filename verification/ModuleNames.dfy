/** Module names and the lines of modules.dep that mention them. */
module ModuleNames {
  import opened Basics
  import opened ModuleGraph
  import opened Text

  const SLASH: byte := 0x2F
  const SPACE: byte := 0x20
  const TAB: byte := 0x09
  const COLON: byte := 0x3A
  const KO: seq<byte> := [0x2E, 0x6B, 0x6F]         // ".ko"
  const KO_DOT: seq<byte> := [0x2E, 0x6B, 0x6F, 0x2E] // ".ko."

  /** The file name in `path` up to its first ".ko", whatever directory and compression suffix it has. */
  function ShortName(path: seq<byte>): Name {
    var name := AfterLast(path, SLASH);
    var at := Find(name, KO);
    if at.None? then name else name[..at.value]
  }

  /** A short name has no directory and no ".ko" left in it. */
  lemma ShortNameIsClean(path: seq<byte>)
    ensures SLASH !in ShortName(path) && !Contains(ShortName(path), [0x2E, 0x6B, 0x6F])
  {
    var name := AfterLast(path, SLASH);
    AfterLastHasNone(path, SLASH);
    if Contains(name, KO) {
      BeforeFirst(name, KO);
    }
  }

  /** A name that is already short stays as it is. */
  lemma ShortNameIdempotent(path: seq<byte>)
    ensures ShortName(ShortName(path)) == ShortName(path)
  {
    ShortNameIsClean(path);
    AfterLastNone(ShortName(path), SLASH);
  }

  /** No ".ko" starts in a name that has none and runs into a ".ko" behind it. */
  lemma NoStraddle(base: Name, rest: seq<byte>, j: nat)
    requires !Contains(base, KO) && j < |base|
    ensures !OccursAt(base + KO + rest, KO, j)
  {
    var name := base + KO + rest;
    var w := name[j..j + 3];
    if w == KO {
      assert w[1] == name[j + 1] && w[2] == name[j + 2];
      assert base[j..j + 3] == w;
      OccurrenceMeansContains(base, KO, j);
    }
  }

  /** `dir/base.ko` and `base.ko`, plain or compressed, are called `base`; a file without ".ko" by its own name. */
  lemma ShortNameOfPath(dir: seq<byte>, base: Name, suffix: seq<byte>)
    requires SLASH !in base && SLASH !in suffix && !Contains(base, [0x2E, 0x6B, 0x6F])
    ensures ShortName(dir + [SLASH] + (base + [0x2E, 0x6B, 0x6F] + suffix)) == base
    ensures ShortName(base + [0x2E, 0x6B, 0x6F] + suffix) == base
    ensures ShortName(dir + [SLASH] + base) == base
  {
    var name := base + KO + suffix;
    AfterLastOf(dir, SLASH, name);
    AfterLastNone(name, SLASH);
    AfterLastOf(dir, SLASH, base);
    assert OccursAt(name, KO, |base|);
    forall j | 0 <= j < |base|
      ensures !OccursAt(name, KO, j)
    {
      NoStraddle(base, suffix, j);
    }
    FindUnique(name, KO, |base|);
    assert name[..|base|] == base;
  }

  // ---- dependency lists

  predicate IsBlank(b: byte) {
    b == SPACE || b == TAB
  }

  /** The pieces of `s` between blanks, empty ones included. */
  function SplitBlank(s: seq<byte>): (words: seq<seq<byte>>)
    ensures |words| >= 1
  {
    if s == [] then [[]]
    else
      var rest := SplitBlank(s[1..]);
      if IsBlank(s[0]) then [[]] + rest else [[s[0]] + rest[0]] + rest[1..]
  }

  /** The dependency a word names, if any. */
  function DepName(word: seq<byte>): seq<Name> {
    if word == [] || ShortName(word) == [] then [] else [ShortName(word)]
  }

  /** What `f` makes of every word, in order. */
  function Collect(words: seq<seq<byte>>, f: seq<byte> -> seq<Name>): seq<Name> {
    if words == [] then [] else f(words[0]) + Collect(words[1..], f)
  }

  /** The dependencies that the part of a modules.dep line behind the colon lists. */
  function DepNames(list: seq<byte>): seq<Name> {
    Collect(SplitBlank(list), DepName)
  }

  lemma CollectCons(w: seq<byte>, words: seq<seq<byte>>, f: seq<byte> -> seq<Name>)
    ensures Collect([w] + words, f) == f(w) + Collect(words, f)
  {
    assert ([w] + words)[1..] == words;
  }

  lemma {:induction false} CollectSnoc(words: seq<seq<byte>>, w: seq<byte>, f: seq<byte> -> seq<Name>)
    ensures Collect(words + [w], f) == Collect(words, f) + f(w)
  {
    if words == [] {
      assert words + [w] == [w] + words;
      CollectCons(w, words, f);
    } else {
      CollectSnoc(words[1..], w, f);
      assert (words + [w])[1..] == words[1..] + [w];
      Associative(f(words[0]), Collect(words[1..], f), f(w));
    }
  }

  lemma CollectPrefix(words: seq<seq<byte>>, i: nat, f: seq<byte> -> seq<Name>)
    requires i < |words|
    ensures Collect(words[..i + 1], f) == Collect(words[..i], f) + f(words[i])
  {
    CollectSnoc(words[..i], words[i], f);
    assert words[..i] + [words[i]] == words[..i + 1];
  }

  /** Spaces and tabs. */
  predicate IsGap(g: seq<byte>) {
    forall i :: 0 <= i < |g| ==> g[i] == 0x20 || g[i] == 0x09
  }

  /** A dependency list: every path behind its gap, and a gap at the end. */
  function PrintDeps(paths: seq<seq<byte>>, gaps: seq<seq<byte>>, end: seq<byte>): seq<byte>
    requires |gaps| == |paths|
  {
    if paths == [] then end else gaps[0] + paths[0] + PrintDeps(paths[1..], gaps[1..], end)
  }

  /** All gaps are spaces and tabs, and only the first and the last may be missing. */
  ghost predicate GapsOk(paths: seq<seq<byte>>, gaps: seq<seq<byte>>, end: seq<byte>) {
    && |gaps| == |paths| && IsGap(end)
    && (forall k :: 0 <= k < |gaps| ==> IsGap(gaps[k]))
    && forall k :: 0 < k < |gaps| ==> gaps[k] != []
  }

  lemma {:induction false} SplitWord(w: seq<byte>, rest: seq<byte>)
    requires forall i :: 0 <= i < |w| ==> !IsBlank(w[i])
    requires rest == [] || IsBlank(rest[0])
    ensures SplitBlank(w + rest) == [w] + SplitBlank(rest)[1..]
  {
    if w == [] {
      assert w + rest == rest;
    } else {
      SplitWord(w[1..], rest);
      assert (w + rest)[1..] == w[1..] + rest;
      assert [w[0]] + w[1..] == w;
    }
  }

  lemma CollectWord(w: seq<byte>, rest: seq<byte>, f: seq<byte> -> seq<Name>)
    requires f([]) == [] && forall i :: 0 <= i < |w| ==> !IsBlank(w[i])
    requires rest == [] || IsBlank(rest[0])
    ensures Collect(SplitBlank(w + rest), f) == f(w) + Collect(SplitBlank(rest), f)
  {
    var tail := SplitBlank(rest)[1..];
    SplitWord(w, rest);
    CollectCons(w, tail, f);
    SplitAtBlank(rest);
    CollectCons([], tail, f);
  }

  /** A gap adds empty words, which name nothing. */
  lemma {:induction false} CollectGap(gap: seq<byte>, s: seq<byte>, f: seq<byte> -> seq<Name>)
    requires f([]) == [] && IsGap(gap)
    ensures Collect(SplitBlank(gap + s), f) == Collect(SplitBlank(s), f)
  {
    if gap == [] {
      assert gap + s == s;
    } else {
      assert (gap + s)[1..] == gap[1..] + s;
      CollectGap(gap[1..], s, f);
      CollectCons([], SplitBlank(gap[1..] + s), f);
    }
  }

  lemma SplitAtBlank(rest: seq<byte>)
    requires rest == [] || IsBlank(rest[0])
    ensures SplitBlank(rest) == [[]] + SplitBlank(rest)[1..]
  {
  }

  lemma BeginsBlank(paths: seq<seq<byte>>, gaps: seq<seq<byte>>, end: seq<byte>)
    requires GapsOk(paths, gaps, end) && (gaps != [] ==> gaps[0] != [])
    ensures PrintDeps(paths, gaps, end) == [] || IsBlank(PrintDeps(paths, gaps, end)[0])
  {
  }

  lemma CollectEnd(end: seq<byte>, f: seq<byte> -> seq<Name>)
    requires f([]) == [] && IsGap(end)
    ensures Collect(SplitBlank(end), f) == []
  {
    CollectGap(end, [], f);
    assert end + [] == end;
    assert SplitBlank([])[1..] == [];
  }

  lemma {:induction false} CollectPrinted(paths: seq<seq<byte>>, gaps: seq<seq<byte>>, end: seq<byte>, f: seq<byte> -> seq<Name>)
    requires f([]) == [] && forall k, i :: 0 <= k < |paths| && 0 <= i < |paths[k]| ==> !IsBlank(paths[k][i])
    requires GapsOk(paths, gaps, end)
    ensures Collect(SplitBlank(PrintDeps(paths, gaps, end)), f) == Collect(paths, f)
  {
    if paths == [] {
      CollectEnd(end, f);
    } else {
      var rest, restGaps := paths[1..], gaps[1..];
      var more := PrintDeps(rest, restGaps, end);
      CollectPrinted(rest, restGaps, end, f);
      BeginsBlank(rest, restGaps, end);
      CollectWord(paths[0], more, f);
      CollectGap(gaps[0], paths[0] + more, f);
      Associative(gaps[0], paths[0], more);
    }
  }

  /** The short names of these paths, without the empty ones. */
  function NamesOf(paths: seq<seq<byte>>): seq<Name> {
    if paths == [] then []
    else
      var name := ShortName(paths[0]);
      (if name == [] then [] else [name]) + NamesOf(paths[1..])
  }

  lemma {:induction false} NamesAreCollected(paths: seq<seq<byte>>)
    ensures Collect(paths, DepName) == NamesOf(paths)
  {
    if paths != [] {
      NamesAreCollected(paths[1..]);
      EmptyPathHasNoName(paths[0]);
    }
  }

  /** Reading a dependency list gives the short name of every path, in order, whatever separates them. */
  lemma DepNamesOfPrinted(paths: seq<seq<byte>>, gaps: seq<seq<byte>>, end: seq<byte>)
    requires forall k, i :: 0 <= k < |paths| && 0 <= i < |paths[k]| ==> paths[k][i] != 0x20 && paths[k][i] != 0x09
    requires GapsOk(paths, gaps, end)
    ensures DepNames(PrintDeps(paths, gaps, end)) == NamesOf(paths)
  {
    CollectPrinted(paths, gaps, end, DepName);
    NamesAreCollected(paths);
  }

  lemma EmptyPathHasNoName(path: seq<byte>)
    ensures path == [] ==> ShortName(path) == []
  {
  }
}
