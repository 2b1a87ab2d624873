/** The tables that modules.dep and modules.builtin are read into, and the load order they give. */
module Modules {
  import opened Basics
  import opened ModuleGraph
  import opened ModuleNames
  import opened LoadOrderSearch
  import opened Text

  /** The contents of a `ModulesInfo`. */
  datatype Tables = Tables(deps: map<Name, seq<Name>>, builtin: set<Name>, paths: map<Name, seq<byte>>)

  const EMPTY_TABLES := Tables(map[], {}, map[])

  /** A line `path/to/module.ko: dep1.ko dep2.ko` records the module's path and dependencies. */
  function WithDepLine(t: Tables, line: seq<byte>): Tables {
    var colon := IndexOf(line, COLON);
    if colon == |line| then t
    else
      var path := line[..colon];
      t.(paths := t.paths[ShortName(path) := path], deps := t.deps[ShortName(path) := DepNames(line[colon + 1..])])
  }

  /** A line `kernel/fs/ext4/ext4.ko` records a built-in module. */
  function WithBuiltinLine(t: Tables, line: seq<byte>): Tables {
    if ShortName(line) == [] then t else t.(builtin := t.builtin + {ShortName(line)})
  }

  function WithDepLines(t: Tables, lines: seq<seq<byte>>): Tables {
    if lines == [] then t else WithDepLine(WithDepLines(t, lines[..|lines| - 1]), lines[|lines| - 1])
  }

  function WithBuiltinLines(t: Tables, lines: seq<seq<byte>>): Tables {
    if lines == [] then t else WithBuiltinLine(WithBuiltinLines(t, lines[..|lines| - 1]), lines[|lines| - 1])
  }

  /** A line printed for a module makes exactly that module's entry: its path, and its dependencies by name. */
  lemma DepLineOfPrinted(t: Tables, path: seq<byte>, deps: seq<seq<byte>>, gaps: seq<seq<byte>>, end: seq<byte>)
    requires 0x3A !in path
    requires forall k, i :: 0 <= k < |deps| && 0 <= i < |deps[k]| ==> deps[k][i] != 0x20 && deps[k][i] != 0x09
    requires GapsOk(deps, gaps, end)
    ensures
      var t' := WithDepLine(t, path + [0x3A] + PrintDeps(deps, gaps, end));
      && t'.paths == t.paths[ShortName(path) := path]
      && t'.deps == t.deps[ShortName(path) := NamesOf(deps)]
      && t'.builtin == t.builtin
  {
    var list := PrintDeps(deps, gaps, end);
    var line := path + [COLON] + list;
    IndexOfAfter(path, COLON, list);
    assert line[..|path|] == path && line[|path| + 1..] == list;
    DepNamesOfPrinted(deps, gaps, end);
  }

  /** A line for a module in modules.builtin adds exactly its name, whatever compression suffix it has. */
  lemma BuiltinLineOfPath(t: Tables, dir: seq<byte>, base: Name, suffix: seq<byte>)
    requires SLASH !in base && SLASH !in suffix && !Contains(base, [0x2E, 0x6B, 0x6F]) && base != []
    ensures WithBuiltinLine(t, dir + [SLASH] + (base + [0x2E, 0x6B, 0x6F] + suffix)) == Tables(t.deps, t.builtin + {base}, t.paths)
    ensures WithBuiltinLine(t, base + [0x2E, 0x6B, 0x6F] + suffix) == Tables(t.deps, t.builtin + {base}, t.paths)
  {
    ShortNameOfPath(dir, base, suffix);
  }

  // ---- what whole files come to

  /** A line of modules.builtin that names `n`. */
  predicate NamesBuiltin(line: seq<byte>, n: Name) {
    n != [] && ShortName(line) == n
  }

  /** A line of modules.dep that is about `n`: its first colon stands behind `path`, which is called `n`. */
  predicate IsAbout(line: seq<byte>, n: Name, path: seq<byte>) {
    0x3A !in path && path + [0x3A] <= line && ShortName(path) == n
  }

  /** The last line about `n` is line `i`, with this path and this list. */
  ghost predicate LastAbout(lines: seq<seq<byte>>, n: Name, i: nat, path: seq<byte>, list: seq<byte>) {
    && i < |lines| && lines[i] == path + [0x3A] + list && IsAbout(lines[i], n, path)
    && forall j, p :: i < j < |lines| ==> !IsAbout(lines[j], n, p)
  }

  lemma {:induction false} BuiltinLinesName(t: Tables, lines: seq<seq<byte>>, n: Name)
    ensures
      var u := WithBuiltinLines(t, lines);
      && u.deps == t.deps && u.paths == t.paths
      && (n in u.builtin <==> n in t.builtin || exists i :: 0 <= i < |lines| && NamesBuiltin(lines[i], n))
  {
    if lines != [] {
      var k := |lines| - 1;
      BuiltinLinesName(t, lines[..k], n);
      assert forall i :: 0 <= i < k ==> lines[..k][i] == lines[i];
      assert NamesBuiltin(lines[k], n) <==> n != [] && ShortName(lines[k]) == n;
    }
  }

  /** If a line is about `n` there is a last one. */
  lemma {:induction false} OneIsLast(lines: seq<seq<byte>>, n: Name, i: nat, path: seq<byte>)
    requires i < |lines| && IsAbout(lines[i], n, path)
    ensures exists j, p, list :: LastAbout(lines, n, j, p, list)
    decreases |lines| - i
  {
    if j, p :| i < j < |lines| && IsAbout(lines[j], n, p) {
      OneIsLast(lines, n, j, p);
    } else {
      assert lines[i] == path + [COLON] + lines[i][|path| + 1..];
      assert LastAbout(lines, n, i, path, lines[i][|path| + 1..]);
    }
  }

  /** Any line has at most one reading as an entry. */
  lemma OnePath(line: seq<byte>, path: seq<byte>)
    requires COLON !in path && path + [COLON] <= line
    ensures IndexOf(line, COLON) == |path|
  {
    assert line[..|path|] == path && line[|path|] == (path + [COLON])[|path|];
    IndexOfUnique(line, COLON, |path|);
  }

  /** A line about `n` makes its entry. */
  lemma LineAbout(t: Tables, line: seq<byte>, n: Name, path: seq<byte>, list: seq<byte>)
    requires line == path + [COLON] + list && IsAbout(line, n, path)
    ensures n in WithDepLine(t, line).paths && WithDepLine(t, line).paths[n] == path
    ensures n in WithDepLine(t, line).deps && WithDepLine(t, line).deps[n] == DepNames(list)
  {
    OnePath(line, path);
    assert line[..|path|] == path && line[|path| + 1..] == list;
  }

  /** The entry of `n` is the same in both tables, or missing in both. */
  predicate SameEntry(t: Tables, u: Tables, n: Name) {
    && (n in u.paths <==> n in t.paths) && (n in t.paths ==> u.paths[n] == t.paths[n])
    && (n in u.deps <==> n in t.deps) && (n in t.deps ==> u.deps[n] == t.deps[n])
  }

  /** Any other line leaves it alone. */
  lemma LineElsewhere(t: Tables, line: seq<byte>, n: Name)
    requires forall path :: !IsAbout(line, n, path)
    ensures SameEntry(t, WithDepLine(t, line), n)
  {
    var colon := IndexOf(line, COLON);
    if colon < |line| {
      IndexOfIsFirst(line, COLON);
      assert line[..colon] + [COLON] <= line;
      assert !IsAbout(line, n, line[..colon]);
    }
  }

  /** After a whole file the entry of a name is that of its last line. */
  lemma {:induction false} LastLineCounts(t: Tables, lines: seq<seq<byte>>, n: Name, i: nat, path: seq<byte>, list: seq<byte>)
    requires LastAbout(lines, n, i, path, list)
    ensures var u := WithDepLines(t, lines);
      n in u.paths && u.paths[n] == path && n in u.deps && u.deps[n] == DepNames(list)
  {
    var k := |lines| - 1;
    var front, line := lines[..k], lines[k];
    if i == k {
      LineAbout(WithDepLines(t, front), line, n, path, list);
    } else {
      assert forall j :: 0 <= j < k ==> front[j] == lines[j];
      LastLineCounts(t, front, n, i, path, list);
      LineElsewhere(WithDepLines(t, front), line, n);
    }
  }

  /** A name that no line is about keeps the entry that it had, or none. */
  lemma {:induction false} OthersKeep(t: Tables, lines: seq<seq<byte>>, n: Name)
    requires forall i, path :: 0 <= i < |lines| ==> !IsAbout(lines[i], n, path)
    ensures SameEntry(t, WithDepLines(t, lines), n)
  {
    if lines != [] {
      var k := |lines| - 1;
      assert forall j :: 0 <= j < k ==> lines[..k][j] == lines[j];
      OthersKeep(t, lines[..k], n);
      LineElsewhere(WithDepLines(t, lines[..k]), lines[k], n);
    }
  }

  lemma {:induction false} DepLinesKeepBuiltin(t: Tables, lines: seq<seq<byte>>)
    ensures WithDepLines(t, lines).builtin == t.builtin
  {
    if lines != [] {
      DepLinesKeepBuiltin(t, lines[..|lines| - 1]);
    }
  }

  class ModulesInfo {
    var deps: map<Name, seq<Name>>
    var builtin: set<Name>
    var paths: map<Name, seq<byte>>

    constructor ()
      ensures Contents() == EMPTY_TABLES
    {
      deps, builtin, paths := map[], {}, map[];
    }

    function Contents(): Tables
      reads this
    {
      Tables(deps, builtin, paths)
    }

    function AsGraph(): Graph
      reads this
    {
      Graph(deps, builtin)
    }

    /** One turn of the loop: a word that is or names nothing is passed over. */
    static method AddDependency(names: seq<Name>, word: seq<byte>) returns (more: seq<Name>)
      ensures more == names + DepName(word)
    {
      more := names;
      if word == [] {
        return;
      }
      var name := ShortName(word);
      if name == [] {
        return;
      }
      more := names + [name];
    }

    static method DepVector(list: seq<byte>) returns (names: seq<Name>)
      ensures names == DepNames(list)
    {
      names := [];
      var words := SplitBlank(list);
      for i := 0 to |words|
        invariant names == Collect(words[..i], DepName)
      {
        CollectPrefix(words, i, DepName);
        names := AddDependency(names, words[i]);
      }
      assert words[..|words|] == words;
    }

    method FeedModulesDepLine(line: seq<byte>)
      modifies this
      ensures Contents() == WithDepLine(old(Contents()), line)
    {
      var colon := IndexOf(line, COLON);
      if colon == |line| {
        return;
      }
      var path := line[..colon];
      var name := ShortName(path);
      var depsVec := DepVector(line[colon + 1..]);
      paths := paths[name := path];
      deps := deps[name := depsVec];
    }

    method FeedModulesBuiltinLine(line: seq<byte>)
      modifies this
      ensures Contents() == WithBuiltinLine(old(Contents()), line)
      ensures builtin == old(builtin) + (if ShortName(line) == [] then {} else {ShortName(line)})
      ensures deps == old(deps) && paths == old(paths)
    {
      var name := ShortName(line);
      if name == [] {
        return;
      }
      builtin := builtin + {name};
    }

    /**
     Either a load order for `root` or the news that a dependency cycle lies below it, and never
     the one in place of the other. Each name is pushed at most once, which bounds the search.
     */
    method ResolveLoadOrder(root: Name) returns (r: Result<seq<Name>, string>)
      ensures r.Ok? ==> LoadOrder(AsGraph(), root, r.value)
      ensures r.Err? <==> CycleBelow(AsGraph(), root)
      ensures r.Err? ==> r.error == "dependency cycle detected"
    {
      ghost var g := AsGraph();
      var marks: map<Name, Mark> := map[root := Unvisited];
      var order: seq<Name> := [];
      var stack := [Frame(root, 0)];
      while |stack| > 0
        invariant Inv(g, root, marks, stack, order)
        decreases Universe(g, root) - marks.Keys, Work(g, stack)
      {
        var top := stack[|stack| - 1];
        var cur := top.name;
        if cur in builtin {
          PopBuiltinKeepsInv(g, root, marks, stack, order);
          marks := marks[cur := Done];
          stack := stack[..|stack| - 1];
          continue;
        }
        if MarkOf(marks, cur) == Unvisited {
          VisitKeepsInv(g, root, marks, stack, order);
          marks := marks[cur := Visiting];
        }
        if cur !in deps || top.next >= |deps[cur]| {
          FinishKeepsInv(g, root, marks, stack, order);
          // The duplicate check never suppresses anything.
          assert cur !in order;
          marks := marks[cur := Done];
          if cur !in order {
            order := order + [cur];
          }
          stack := stack[..|stack| - 1];
          continue;
        }
        var dep := deps[cur][top.next];
        match MarkOf(marks, dep) {
          case Unvisited =>
            PushKeepsInv(g, root, marks, stack, order, dep);
            stack := Bumped(stack);
            marks := marks[dep := Unvisited];
            stack := stack + [Frame(dep, 0)];
          case Visiting =>
            VisitingMeansCycle(g, root, marks, stack, dep);
            return Err(CYCLE);
          case Done =>
            AdvanceKeepsInv(g, root, marks, stack, order);
            stack := Bumped(stack);
        }
      }
      EmptyStackMeansLoadOrder(g, root, marks, order);
      return Ok(order);
    }
  }
}
