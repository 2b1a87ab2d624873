/** Checking that everything a module needs is present, and loading it in order. */
module Modprobe {
  import opened Basics
  import opened FileLines
  import opened ModuleGraph
  import opened ModuleNames
  import opened Modules
  import opened LoadOrderSearch
  import opened Text

  datatype ModprobeError =
    | PushStrFailed
    | ModuleNotFound(name: seq<byte>)
    | ModuleCompressed(name: Name)
    | DependencyNotFound(dependency: Name, forModule: Name)
    | ModuleLoadFailed(name: Name, error: string)

  /** Capacities of the fixed-size strings and vectors. */
  const NAME_MAX: nat := 128
  const LIST_MAX: nat := 512
  const PATH_MAX: nat := 512

  // ---- reading the tables

  /** The lines of a file that may be missing. */
  function LinesIn(chunks: Option<Reads>): seq<seq<byte>> {
    if chunks.Some? then LinesOf(Flatten(chunks.value)).lines else []
  }

  /**
   A name is built in exactly if a line of modules.builtin has it as its short name. The path and the
   dependencies of a name are those of the last line of modules.dep about it; a name that no line is
   about has neither.
   */
  ghost predicate Represents(info: Tables, dep: seq<seq<byte>>, builtin: seq<seq<byte>>) {
    && (forall n :: n in info.builtin <==> exists i :: 0 <= i < |builtin| && NamesBuiltin(builtin[i], n))
    && (forall n, i, path, list :: LastAbout(dep, n, i, path, list) ==>
          n in info.paths && info.paths[n] == path && n in info.deps && info.deps[n] == DepNames(list))
    && (forall n :: n in info.paths <==> exists i, path :: 0 <= i < |dep| && IsAbout(dep[i], n, path))
    && info.deps.Keys == info.paths.Keys
  }

  lemma TablesRepresentFiles(dep: seq<seq<byte>>, builtin: seq<seq<byte>>)
    ensures Represents(WithBuiltinLines(WithDepLines(EMPTY_TABLES, dep), builtin), dep, builtin)
  {
    var t := WithDepLines(EMPTY_TABLES, dep);
    var u := WithBuiltinLines(t, builtin);
    DepLinesKeepBuiltin(EMPTY_TABLES, dep);
    forall n
      ensures u.deps == t.deps && u.paths == t.paths
      ensures n in u.builtin <==> exists i :: 0 <= i < |builtin| && NamesBuiltin(builtin[i], n)
    {
      BuiltinLinesName(t, builtin, n);
    }
    BuiltinLinesName(t, builtin, []);
    forall n, i, path, list | LastAbout(dep, n, i, path, list)
      ensures n in u.paths && u.paths[n] == path && n in u.deps && u.deps[n] == DepNames(list)
    {
      LastLineCounts(EMPTY_TABLES, dep, n, i, path, list);
    }
    forall n
      ensures n in u.deps <==> n in u.paths
      ensures n in u.paths <==> exists i, path :: 0 <= i < |dep| && IsAbout(dep[i], n, path)
    {
      if i, path :| 0 <= i < |dep| && IsAbout(dep[i], n, path) {
        OneIsLast(dep, n, i, path);
        var j, p, list :| LastAbout(dep, n, j, p, list);
        LastLineCounts(EMPTY_TABLES, dep, n, j, p, list);
      } else {
        OthersKeep(EMPTY_TABLES, dep, n);
      }
    }
  }

  /** Reads both files and feeds every line; a line too long for the buffer is an error. */
  method LoadModulesInfo(depChunks: Reads, builtinChunks: Option<Reads>)
    returns (info: ModulesInfo, ok: bool)
    ensures fresh(info)
    ensures ok <==>
            (!LinesOf(Flatten(depChunks)).overflow &&
             (builtinChunks.Some? ==> !LinesOf(Flatten(builtinChunks.value)).overflow))
    ensures ok ==> Represents(info.Contents(), LinesOf(Flatten(depChunks)).lines, LinesIn(builtinChunks))
  {
    info := new ModulesInfo();
    TablesRepresentFiles(LinesOf(Flatten(depChunks)).lines, LinesIn(builtinChunks));
    var d := ForEachFileLine(depChunks);
    FeedDepLines(info, d.lines);
    if d.overflow {
      return info, false;
    }
    if builtinChunks.Some? {
      var b := ForEachFileLine(builtinChunks.value);
      FeedBuiltinLines(info, b.lines);
      if b.overflow {
        return info, false;
      }
    }
    ok := true;
  }

  method FeedDepLines(info: ModulesInfo, lines: seq<seq<byte>>)
    modifies info
    ensures info.Contents() == WithDepLines(old(info.Contents()), lines)
  {
    for i := 0 to |lines|
      invariant info.Contents() == WithDepLines(old(info.Contents()), lines[..i])
    {
      info.FeedModulesDepLine(lines[i]);
      assert lines[..i + 1][..i] == lines[..i];
    }
    assert lines[..|lines|] == lines;
  }

  method FeedBuiltinLines(info: ModulesInfo, lines: seq<seq<byte>>)
    modifies info
    ensures info.Contents() == WithBuiltinLines(old(info.Contents()), lines)
  {
    for i := 0 to |lines|
      invariant info.Contents() == WithBuiltinLines(old(info.Contents()), lines[..i])
    {
      info.FeedModulesBuiltinLine(lines[i]);
      assert lines[..i + 1][..i] == lines[..i];
    }
    assert lines[..|lines|] == lines;
  }

  // ---- the path check

  /** How many of these dependencies are loadable, counting repetitions. */
  ghost function Loadable(g: Graph, deps: seq<Name>): nat {
    if deps == [] then 0
    else Loadable(g, deps[..|deps| - 1]) + (if deps[|deps| - 1] in g.builtin then 0 else 1)
  }

  /** The number of dependencies of `n` that the check looks into. */
  ghost function Fan(g: Graph, n: Name): nat {
    if n in g.builtin then 0 else Loadable(g, DepsOf(g, n))
  }

  ghost function FanSum(g: Graph, ns: seq<Name>): nat {
    if ns == [] then 0 else FanSum(g, ns[..|ns| - 1]) + Fan(g, ns[|ns| - 1])
  }

  /** `n` is the root or something the root needs. */
  ghost predicate Needed(g: Graph, root: Name, n: Name) {
    n == root || Reaches(g, root, n)
  }

  /** A needed name is too long, or the needed modules list too many dependencies for the work list. */
  ghost predicate TooBig(g: Graph, root: Name) {
    || (exists n :: Needed(g, root, n) && |n| > 128)
    || (exists ns: seq<Name> :: NeedTooMuch(g, root, ns))
  }

  ghost predicate NeedTooMuch(g: Graph, root: Name, ns: seq<Name>) {
    Distinct(ns) && (forall n :: n in ns ==> Needed(g, root, n)) && 1 + FanSum(g, ns) > 512
  }

  /** What an error of the check says about the tables. */
  ghost predicate Explains(g: Graph, paths: map<Name, seq<byte>>, root: Name, e: ModprobeError) {
    match e
    case PushStrFailed => TooBig(g, root)
    case ModuleNotFound(n) => n == root && root !in g.builtin && root !in paths
    case DependencyNotFound(d, o) => Reaches(g, root, o) && Edge(g, o, d) && d !in paths
    case _ => false
  }

  ghost predicate Queued(g: Graph, paths: map<Name, seq<byte>>, root: Name, stack: seq<Name>) {
    forall n :: n in stack ==>
      && Needed(g, root, n) && n in Universe(g, root) && |n| <= NAME_MAX
      && (n != root ==> n !in g.builtin && n in paths)
  }

  ghost predicate Checked(g: Graph, paths: map<Name, seq<byte>>, root: Name, visited: seq<Name>) {
    Distinct(visited) && forall n :: n in visited ==>
      Needed(g, root, n) && n in Universe(g, root) && (n !in g.builtin ==> n in paths)
  }

  /** Each loadable dependency of a visited module has been visited or waits on the stack. */
  ghost predicate Covered(g: Graph, visited: seq<Name>, stack: seq<Name>) {
    forall a, b :: a in visited && Edge(g, a, b) ==> b in visited || b in stack
  }

  lemma FanSumSnoc(g: Graph, ns: seq<Name>, n: Name)
    ensures FanSum(g, ns + [n]) == FanSum(g, ns) + Fan(g, n)
  {
    assert (ns + [n])[..|ns|] == ns;
  }

  lemma LoadableSnoc(g: Graph, deps: seq<Name>, k: nat)
    requires k < |deps|
    ensures Loadable(g, deps[..k + 1]) == Loadable(g, deps[..k]) + (if deps[k] in g.builtin then 0 else 1)
  {
    assert deps[..k + 1][..k] == deps[..k];
  }

  lemma {:induction false} LoadableMonotone(g: Graph, deps: seq<Name>, k: nat)
    requires k <= |deps|
    ensures Loadable(g, deps[..k]) <= Loadable(g, deps)
    decreases |deps| - k
  {
    if k == |deps| {
      assert deps[..k] == deps;
    } else {
      LoadableSnoc(g, deps, k);
      LoadableMonotone(g, deps, k + 1);
    }
  }

  /** Everything needed has been visited once the work list is empty. */
  lemma AllVisited(g: Graph, paths: map<Name, seq<byte>>, root: Name, visited: seq<Name>)
    requires CheckInv(g, paths, root, visited, [])
    ensures forall n :: Reaches(g, root, n) ==> n in paths
  {
    var s := set n | n in visited;
    forall n | Reaches(g, root, n)
      ensures n in paths
    {
      var p :| WalkFromTo(g, p, root, n);
      ReachableInClosed(g, s, root, p);
      BuiltinReachesNothing(g, root, n);
    }
  }

  lemma NeededStep(g: Graph, root: Name, a: Name, b: Name)
    requires Needed(g, root, a) && Edge(g, a, b)
    ensures Reaches(g, root, a) && Reaches(g, root, b)
  {
    if a == root {
      ReachesSelf(g, root);
    }
    ReachesStep(g, root, a, b);
  }

  lemma PushKeepsQueued(g: Graph, paths: map<Name, seq<byte>>, root: Name, stack: seq<Name>, owner: Name, dep: Name)
    requires Queued(g, paths, root, stack) && Reaches(g, root, dep) && Edge(g, owner, dep)
    requires dep in paths && |dep| <= NAME_MAX
    ensures Queued(g, paths, root, stack + [dep])
  {
    DependencyInUniverse(g, root, owner, dep);
  }

  lemma ListFull(g: Graph, paths: map<Name, seq<byte>>, root: Name, visited: seq<Name>)
    requires Checked(g, paths, root, visited) && 1 + FanSum(g, visited) > LIST_MAX
    ensures TooBig(g, root)
  {
    assert NeedTooMuch(g, root, visited);
  }

  /** One loadable dependency: it must have a path, and there must be room for its name. */
  method CheckDependency(g: Graph, paths: map<Name, seq<byte>>, root: Name, owner: Name, dep: Name, stack: seq<Name>, ghost visited: seq<Name>)
    returns (e: Option<ModprobeError>)
    requires owner !in g.builtin && Needed(g, root, owner) && Edge(g, owner, dep)
    requires Queued(g, paths, root, stack) && Checked(g, paths, root, visited)
    requires visited != [] && |stack| + |visited| <= FanSum(g, visited)
    ensures e.Some? ==> Explains(g, paths, root, e.value)
    ensures e.None? ==> Queued(g, paths, root, stack + [dep])
  {
    NeededStep(g, root, owner, dep);
    if dep !in paths {
      return Some(DependencyNotFound(dep, owner));
    }
    if |dep| > NAME_MAX {
      assert Needed(g, root, dep);
      return Some(PushStrFailed);
    }
    if |stack| == LIST_MAX {
      ListFull(g, paths, root, visited);
      return Some(PushStrFailed);
    }
    PushKeepsQueued(g, paths, root, stack, owner, dep);
    e := None;
  }

  /** The first `k` dependencies are on the stack, if they are loadable. */
  ghost predicate AllQueued(g: Graph, deps: seq<Name>, k: nat, stack: seq<Name>) {
    forall j :: 0 <= j < k && j < |deps| && deps[j] !in g.builtin ==> deps[j] in stack
  }

  lemma QueuedNext(g: Graph, deps: seq<Name>, k: nat, stack: seq<Name>)
    requires k < |deps| && AllQueued(g, deps, k, stack)
    ensures AllQueued(g, deps, k + 1, stack + [deps[k]])
  {
    assert stack <= stack + [deps[k]];
  }

  /** The dependencies of one module: each loadable one must have a path, and is put on the stack. */
  method PushDependencies(g: Graph, paths: map<Name, seq<byte>>, root: Name, owner: Name, stack0: seq<Name>, ghost visited: seq<Name>)
    returns (stack: seq<Name>, e: Option<ModprobeError>)
    requires owner !in g.builtin && Needed(g, root, owner)
    requires Queued(g, paths, root, stack0)
    requires Checked(g, paths, root, visited) && visited != []
    requires |stack0| + |visited| + Fan(g, owner) <= 1 + FanSum(g, visited)
    ensures e.Some? ==> Explains(g, paths, root, e.value)
    ensures e.None? ==> Queued(g, paths, root, stack)
    ensures e.None? ==> |stack| + |visited| <= 1 + FanSum(g, visited)
    ensures e.None? ==> stack0 <= stack && forall b :: Edge(g, owner, b) ==> b in stack
  {
    stack, e := stack0, None;
    var deps := DepsOf(g, owner);
    for k := 0 to |deps|
      invariant e == None && Queued(g, paths, root, stack) && stack0 <= stack
      invariant AllQueued(g, deps, k, stack)
      invariant |stack| == |stack0| + Loadable(g, deps[..k])
    {
      var dep := deps[k];
      LoadableSnoc(g, deps, k);
      if dep in g.builtin {
        continue;
      }
      LoadableMonotone(g, deps, k + 1);
      e := CheckDependency(g, paths, root, owner, dep, stack, visited);
      if e.Some? {
        return;
      }
      QueuedNext(g, deps, k, stack);
      stack := stack + [dep];
    }
    assert deps[..|deps|] == deps;
  }

  ghost predicate CheckInv(g: Graph, paths: map<Name, seq<byte>>, root: Name, visited: seq<Name>, stack: seq<Name>) {
    && Queued(g, paths, root, stack)
    && Checked(g, paths, root, visited)
    && Covered(g, visited, stack)
    && (root in visited || root in stack)
    && |stack| + |visited| <= 1 + FanSum(g, visited)
  }

  lemma StartInv(g: Graph, paths: map<Name, seq<byte>>, root: Name)
    requires |root| <= NAME_MAX
    ensures CheckInv(g, paths, root, [], [root])
  {
  }

  /** What is known of the module on top of the stack. */
  lemma TopOfStack(g: Graph, paths: map<Name, seq<byte>>, root: Name, visited: seq<Name>, stack: seq<Name>, owner: Name)
    requires CheckInv(g, paths, root, visited, stack + [owner]) && owner !in visited
    ensures Needed(g, root, owner) && Queued(g, paths, root, stack)
    ensures owner in g.builtin || owner in paths ==> Checked(g, paths, root, visited + [owner])
    ensures owner !in g.builtin && owner !in paths ==> owner == root
    ensures Universe(g, root) - Names(visited + [owner]) < Universe(g, root) - Names(visited)
  {
    assert owner in stack + [owner];
    assert forall n :: n in stack ==> n in stack + [owner];
    assert owner in Universe(g, root) - Names(visited);
    assert owner in Names(visited + [owner]);
  }

  ghost function Names(ns: seq<Name>): set<Name> {
    set n | n in ns
  }

  /** Taking a module off the stack that was visited before. */
  lemma SkipKeepsInv(g: Graph, paths: map<Name, seq<byte>>, root: Name, visited: seq<Name>, stack: seq<Name>, owner: Name)
    requires CheckInv(g, paths, root, visited, stack + [owner]) && owner in visited
    ensures CheckInv(g, paths, root, visited, stack)
  {
    assert forall n :: n in stack ==> n in stack + [owner];
    assert forall n :: n in stack + [owner] ==> n in stack || n == owner;
  }

  /** Visiting a module for the first time; `more` has everything its dependencies put on the stack. */
  lemma VisitKeepsInv(g: Graph, paths: map<Name, seq<byte>>, root: Name, visited: seq<Name>, stack: seq<Name>, owner: Name, more: seq<Name>)
    requires CheckInv(g, paths, root, visited, stack + [owner]) && owner !in visited
    requires owner in g.builtin || owner in paths
    requires Queued(g, paths, root, more) && stack <= more
    requires forall b :: Edge(g, owner, b) ==> b in more
    requires |more| + |visited| + 1 <= 1 + FanSum(g, visited + [owner])
    ensures CheckInv(g, paths, root, visited + [owner], more)
  {
    assert owner in stack + [owner];
    VisitCovers(g, visited, stack, owner, more);
  }

  lemma VisitCovers(g: Graph, visited: seq<Name>, stack: seq<Name>, owner: Name, more: seq<Name>)
    requires Covered(g, visited, stack + [owner]) && stack <= more
    requires forall b :: Edge(g, owner, b) ==> b in more
    ensures Covered(g, visited + [owner], more)
  {
    forall a, b | a in visited + [owner] && Edge(g, a, b)
      ensures b in visited + [owner] || b in more
    {
      assert a != owner ==> b in visited || b in stack + [owner];
    }
  }

  /** A module that is taken off the stack for the first time. */
  method Visit(g: Graph, paths: map<Name, seq<byte>>, root: Name, ghost visited: seq<Name>, stack: seq<Name>, owner: Name)
    returns (more: seq<Name>, e: Option<ModprobeError>)
    requires CheckInv(g, paths, root, visited, stack + [owner]) && owner !in visited
    ensures e.Some? ==> Explains(g, paths, root, e.value)
    ensures e.None? ==> CheckInv(g, paths, root, visited + [owner], more)
    ensures owner in Universe(g, root) - Names(visited) && Names(visited + [owner]) == Names(visited) + {owner}
  {
    more, e := stack, None;
    FanSumSnoc(g, visited, owner);
    TopOfStack(g, paths, root, visited, stack, owner);
    if owner in g.builtin {
      VisitKeepsInv(g, paths, root, visited, stack, owner, stack);
      return;
    }
    if owner !in paths {
      return stack, Some(ModuleNotFound(owner));
    }
    more, e := PushDependencies(g, paths, root, owner, stack, visited + [owner]);
    if e.None? {
      VisitKeepsInv(g, paths, root, visited, stack, owner, more);
    }
  }

  /**
   Accepts only if every loadable module that `root` needs has a path; every refusal names a module
   that is really missing, or comes from a graph that is too big for the fixed-size lists.
   */
  method ValidateDependencyPaths(g: Graph, paths: map<Name, seq<byte>>, root: Name) returns (r: Result<(), ModprobeError>)
    ensures r.Ok? ==> forall n :: Reaches(g, root, n) ==> n in paths
    ensures r.Err? ==> Explains(g, paths, root, r.error)
  {
    if |root| > NAME_MAX {
      assert Needed(g, root, root);
      return Err(PushStrFailed);
    }
    var stack := [root];
    var visited: seq<Name> := [];
    StartInv(g, paths, root);
    while |stack| > 0
      invariant CheckInv(g, paths, root, visited, stack)
      decreases Universe(g, root) - Names(visited), |stack|
    {
      var owner := stack[|stack| - 1];
      assert stack == stack[..|stack| - 1] + [owner];
      stack := stack[..|stack| - 1];
      if owner in visited {
        SkipKeepsInv(g, paths, root, visited, stack, owner);
        continue;
      }
      if |visited| == LIST_MAX {
        ListFull(g, paths, root, visited);
        return Err(PushStrFailed);
      }
      var more, e := Visit(g, paths, root, visited, stack, owner);
      if e.Some? {
        return Err(e.value);
      }
      stack, visited := more, visited + [owner];
    }
    assert stack == [];
    AllVisited(g, paths, root, visited);
    return Ok(());
  }

  // ---- loading

  /** One `finit_module` call. */
  datatype LoadCall = LoadCall(name: Name, path: seq<byte>, params: seq<byte>)

  /** The kernel, as a log of load calls; `verdict(k)` is the error of the k-th call, if it has one. */
  class Kernel {
    const verdict: nat -> Option<ModprobeError>
    var calls: seq<LoadCall>

    constructor (verdict: nat -> Option<ModprobeError>)
      ensures calls == [] && this.verdict == verdict
    {
      this.verdict := verdict;
      calls := [];
    }

    method FinitModule(name: Name, path: seq<byte>, params: seq<byte>) returns (e: Option<ModprobeError>)
      modifies this
      ensures calls == old(calls) + [LoadCall(name, path, params)]
      ensures e == verdict(old(|calls|))
    {
      e := verdict(|calls|);
      calls := calls + [LoadCall(name, path, params)];
    }
  }

  function JoinPath(base: seq<byte>, name: seq<byte>): seq<byte> {
    base + (if base != [] && base[|base| - 1] == SLASH then [] else [SLASH]) + name
  }

  /** The name a request is about: the same short form under which modules.dep lines are filed. */
  /** One slash between the two, whether or not the directory is given with one at its end. */
  lemma PathIsJoined(dir: seq<byte>, name: seq<byte>)
    ensures JoinPath(dir + [0x2F], name) == dir + [0x2F] + name
    ensures dir == [] || dir[|dir| - 1] != 0x2F ==> JoinPath(dir, name) == dir + [0x2F] + name
  {
  }

  function NormalizeModuleName(request: seq<byte>): Result<Name, ModprobeError> {
    var name := ShortName(request);
    if name == [] then Err(ModuleNotFound([]))
    else if |name| > NAME_MAX then Err(PushStrFailed)
    else Ok(name)
  }

  /** The calls that load the first `m` modules of an order: the parameters go to the last of the whole order. */
  function Plan(paths: map<Name, seq<byte>>, dir: seq<byte>, order: seq<Name>, params: seq<byte>, m: nat): (plan: seq<LoadCall>)
    requires m <= |order| && forall n :: n in order ==> n in paths
    ensures |plan| == m
  {
    seq(m, i requires 0 <= i < m =>
      LoadCall(order[i], JoinPath(dir, paths[order[i]]), if i == |order| - 1 then params else []))
  }

  /** Why loading stopped after `done` modules: a fact about the tables, or the kernel's own answer. */
  predicate Stopped(paths: map<Name, seq<byte>>, dir: seq<byte>, n: Name, e: ModprobeError)
    requires n in paths
  {
    var compressed := Contains(paths[n], [0x2E, 0x6B, 0x6F, 0x2E]);
    || (compressed && e == ModuleCompressed(n))
    || (!compressed && |JoinPath(dir, paths[n])| > 512 && e == PushStrFailed)
  }

  /** The kernel accepted the first `n` calls. */
  ghost predicate Accepted(verdicts: nat -> Option<ModprobeError>, n: int) {
    forall j: nat :: j < n ==> verdicts(j).None?
  }

  /** The answers of the kernel from the call numbered `start` on. */
  function From(verdict: nat -> Option<ModprobeError>, start: nat): nat -> Option<ModprobeError> {
    (k: nat) => verdict(start + k)
  }

  /**
   How loading ends: with every call made and accepted; before a call, for a reason in the tables, all
   earlier calls having been accepted; or with the first call that the kernel refuses.
   */
  ghost predicate Ended(paths: map<Name, seq<byte>>, dir: seq<byte>, order: seq<Name>, attempted: nat,
                        verdicts: nat -> Option<ModprobeError>, r: Result<(), ModprobeError>)
    requires attempted <= |order| && forall n :: n in order ==> n in paths
  {
    match r
    case Ok(_) => attempted == |order| && Accepted(verdicts, attempted)
    case Err(e) =>
      || (attempted < |order| && Stopped(paths, dir, order[attempted], e) && Accepted(verdicts, attempted))
      || (attempted > 0 && verdicts(attempted - 1) == Some(e) && Accepted(verdicts, attempted - 1))
  }

  /** Loads an order that passed the path check. No module of it lacks a path or is built in. */
  method LoadInOrder(g: Graph, paths: map<Name, seq<byte>>, dir: seq<byte>, name: Name, params: seq<byte>,
                     order: seq<Name>, kernel: Kernel)
    returns (r: Result<(), ModprobeError>, ghost attempted: nat)
    requires name !in g.builtin && LoadOrder(g, name, order) && forall n :: n in order ==> n in paths
    modifies kernel
    ensures attempted <= |order|
    ensures kernel.calls == old(kernel.calls) + Plan(paths, dir, order, params, attempted)
    ensures Ended(paths, dir, order, attempted, From(kernel.verdict, old(|kernel.calls|)), r)
  {
    attempted := 0;
    ghost var before := kernel.calls;
    ghost var verdicts := From(kernel.verdict, |before|);
    for i := 0 to |order|
      invariant attempted == i && Accepted(verdicts, i)
      invariant kernel.calls == before + Plan(paths, dir, order, params, i)
    {
      var n := order[i];
      assert n in order;
      BuiltinReachesNothing(g, name, n);
      // Neither the built-in test nor the missing-path error of the loop can apply.
      assert n !in g.builtin && n in paths;
      if Contains(paths[n], KO_DOT) {
        return Err(ModuleCompressed(n)), i;
      }
      var path := JoinPath(dir, paths[n]);
      if |path| > PATH_MAX {
        return Err(PushStrFailed), i;
      }
      assert n == name <==> i == |order| - 1;
      var e := kernel.FinitModule(n, path, if n == name then params else []);
      PlanSnoc(paths, dir, order, params, i);
      attempted := i + 1;
      if e.Some? {
        return Err(e.value), i + 1;
      }
    }
    return Ok(()), |order|;
  }

  lemma PlanSnoc(paths: map<Name, seq<byte>>, dir: seq<byte>, order: seq<Name>, params: seq<byte>, m: nat)
    requires m < |order| && forall n :: n in order ==> n in paths
    ensures Plan(paths, dir, order, params, m + 1) ==
            Plan(paths, dir, order, params, m)
            + [LoadCall(order[m], JoinPath(dir, paths[order[m]]), if m == |order| - 1 then params else [])]
  {
  }

  /**
   A run that reached the loading stage: it had a load order with a path for every module, made the
   calls for its first `attempted` modules, and ended for one of the three reasons.
   */
  ghost predicate Loaded(g: Graph, paths: map<Name, seq<byte>>, dir: seq<byte>, name: Name, params: seq<byte>,
                         order: seq<Name>, attempted: nat, verdicts: nat -> Option<ModprobeError>,
                         calls: seq<LoadCall>, r: Result<(), ModprobeError>)
  {
    && LoadOrder(g, name, order)
    && (forall n :: n in order ==> n in paths)
    && attempted <= |order|
    && calls == Plan(paths, dir, order, params, attempted)
    && Ended(paths, dir, order, attempted, verdicts, r)
  }

  /** What happens to a request for a module that is not built in, and which `calls` it makes. */
  ghost predicate Handled(g: Graph, paths: map<Name, seq<byte>>, dir: seq<byte>, name: Name, params: seq<byte>,
                          order: seq<Name>, attempted: nat, verdicts: nat -> Option<ModprobeError>,
                          calls: seq<LoadCall>, r: Result<(), ModprobeError>)
  {
    || (name !in paths && calls == [] && r == Err(ModuleNotFound(name)))
    || (name in paths && calls == [] && r.Err? && Explains(g, paths, name, r.error))
    || (CycleBelow(g, name) && calls == [] && r == Err(ModuleLoadFailed(name, "dependency cycle detected")))
    || Loaded(g, paths, dir, name, params, order, attempted, verdicts, calls, r)
  }

  /** The whole of `modprobe`: nothing is attempted before the path check and the cycle check have passed. */
  method ModprobeWithParams(info: ModulesInfo, dir: seq<byte>, request: seq<byte>, params: seq<byte>, kernel: Kernel)
    returns (r: Result<(), ModprobeError>, ghost order: seq<Name>, ghost attempted: nat)
    modifies kernel
    ensures |old(kernel.calls)| <= |kernel.calls| && kernel.calls[..|old(kernel.calls)|] == old(kernel.calls)
    ensures ShortName(request) == [] ==> kernel.calls == old(kernel.calls) && r == Err(ModuleNotFound([]))
    ensures |ShortName(request)| > 128 ==> kernel.calls == old(kernel.calls) && r == Err(PushStrFailed)
    ensures 0 < |ShortName(request)| <= 128 && ShortName(request) in info.builtin ==>
              kernel.calls == old(kernel.calls) && r == Ok(())
    ensures 0 < |ShortName(request)| <= 128 && ShortName(request) !in info.builtin ==>
              Handled(info.AsGraph(), info.paths, dir, ShortName(request), params, order, attempted,
                      From(kernel.verdict, old(|kernel.calls|)), kernel.calls[|old(kernel.calls)|..], r)
  {
    order, attempted := [], 0;
    var normal := NormalizeModuleName(request);
    if normal.Err? {
      return Err(normal.error), [], 0;
    }
    var name := normal.value;
    if name in info.builtin {
      return Ok(()), [], 0;
    }
    if name !in info.paths {
      return Err(ModuleNotFound(name)), [], 0;
    }
    var g := info.AsGraph();
    var checked := ValidateDependencyPaths(g, info.paths, name);
    if checked.Err? {
      return Err(checked.error), [], 0;
    }
    var resolved := info.ResolveLoadOrder(name);
    if resolved.Err? {
      return Err(ModuleLoadFailed(name, resolved.error)), [], 0;
    }
    order := resolved.value;
    r, attempted := LoadInOrder(g, info.paths, dir, name, params, resolved.value, kernel);
  }

  /** A module is in the kernel at the time of call `k`: an earlier call for it was accepted. */
  ghost predicate LoadedBefore(calls: seq<LoadCall>, verdicts: nat -> Option<ModprobeError>, k: nat, n: Name) {
    exists j: nat :: j < k && j < |calls| && calls[j].name == n && verdicts(j).None?
  }

  /**
   At every moment of a run: by the time the call for a module is made, the kernel has accepted all that
   it needs, directly or through others, and the parameters go to the requested module alone.
   */
  lemma EveryMomentIsSafe(g: Graph, paths: map<Name, seq<byte>>, dir: seq<byte>, name: Name, params: seq<byte>,
                          order: seq<Name>, attempted: nat, verdicts: nat -> Option<ModprobeError>,
                          calls: seq<LoadCall>, r: Result<(), ModprobeError>, k: nat)
    requires Loaded(g, paths, dir, name, params, order, attempted, verdicts, calls, r)
    requires name !in g.builtin && k < |calls|
    ensures forall d :: Reaches(g, calls[k].name, d) && d != calls[k].name ==> LoadedBefore(calls, verdicts, k, d)
    ensures calls[k].params == (if calls[k].name == name then params else [])
    ensures calls[k].name == name <==> k == |order| - 1
    ensures calls[k].name in paths && calls[k].path == JoinPath(dir, paths[calls[k].name])
  {
    assert calls[k].name == order[k];
    forall d | Reaches(g, calls[k].name, d) && d != calls[k].name
      ensures LoadedBefore(calls, verdicts, k, d)
    {
      assert order[..k + 1] == order[..k] + [order[k]];
      PrefixIsSelfSufficient(g, name, order, k + 1, order[k], d);
      var j :| 0 <= j < k && order[j] == d;
      assert calls[j].name == d && verdicts(j).None?;
    }
  }

  /** A run that succeeds has loaded everything that the requested module needs, and that itself. */
  lemma SuccessLoadsEverything(g: Graph, paths: map<Name, seq<byte>>, dir: seq<byte>, name: Name, params: seq<byte>,
                               order: seq<Name>, attempted: nat, verdicts: nat -> Option<ModprobeError>,
                               calls: seq<LoadCall>, r: Result<(), ModprobeError>, n: Name)
    requires Loaded(g, paths, dir, name, params, order, attempted, verdicts, calls, r)
    requires r.Ok? && Reaches(g, name, n)
    ensures LoadedBefore(calls, verdicts, |calls|, n)
  {
    var j :| 0 <= j < |order| && order[j] == n;
    assert calls[j].name == n && verdicts(j).None?;
  }
}
