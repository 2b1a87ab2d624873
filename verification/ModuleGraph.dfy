/** The graph that modules.dep and modules.builtin describe, and what a correct load order is. */
module ModuleGraph {
  // Nothing here mentions how an order is computed.

  import opened Basics

  /** A module name, as the bytes of its UTF-8 text. */
  type Name = seq<byte>

  /** `deps` has an entry per line of modules.dep; `builtin` holds the names in modules.builtin. */
  datatype Graph = Graph(deps: map<Name, seq<Name>>, builtin: set<Name>)

  function DepsOf(g: Graph, n: Name): seq<Name> {
    if n in g.deps then g.deps[n] else []
  }

  /** `a` is a loadable module and depends directly on the loadable module `b`. */
  predicate Edge(g: Graph, a: Name, b: Name) {
    a !in g.builtin && b in DepsOf(g, a) && b !in g.builtin
  }

  /** A non-empty walk through loadable modules. */
  ghost predicate Walk(g: Graph, p: seq<Name>) {
    |p| >= 1 && p[0] !in g.builtin && forall i :: 0 <= i < |p| - 1 ==> Edge(g, p[i], p[i + 1])
  }

  ghost predicate WalkFromTo(g: Graph, p: seq<Name>, a: Name, b: Name) {
    Walk(g, p) && p[0] == a && p[|p| - 1] == b
  }

  ghost predicate Reaches(g: Graph, a: Name, b: Name) {
    exists p :: WalkFromTo(g, p, a, b)
  }

  /** `n` depends on itself, through one or more loadable modules. */
  ghost predicate OnCycle(g: Graph, n: Name) {
    exists p :: |p| >= 2 && WalkFromTo(g, p, n, n)
  }

  ghost predicate CycleBelow(g: Graph, root: Name) {
    exists n :: Reaches(g, root, n) && OnCycle(g, n)
  }

  /** Every loadable dependency of a listed module is listed before it. */
  ghost predicate DepsFirst(g: Graph, order: seq<Name>) {
    forall i, d :: 0 <= i < |order| && Edge(g, order[i], d) ==> d in order[..i]
  }

  /**
   A load order for `root`: each loadable module that `root` needs, once, after everything it
   depends on, with `root` itself last. A built-in `root` needs nothing.
   */
  ghost predicate LoadOrder(g: Graph, root: Name, order: seq<Name>) {
    && Distinct(order)
    && (forall n :: n in order <==> Reaches(g, root, n))
    && DepsFirst(g, order)
    && (root !in g.builtin ==> |order| > 0 && order[|order| - 1] == root)
  }

  /** All the names a traversal from `root` can meet. */
  function Universe(g: Graph, root: Name): set<Name> {
    {root} + set a, b | a in g.deps && b in g.deps[a] :: b
  }

  lemma DependencyInUniverse(g: Graph, root: Name, a: Name, b: Name)
    requires b in DepsOf(g, a)
    ensures b in Universe(g, root)
  {
  }

  lemma ReachesSelf(g: Graph, n: Name)
    requires n !in g.builtin
    ensures Reaches(g, n, n)
  {
    assert WalkFromTo(g, [n], n, n);
  }

  lemma ReachesStep(g: Graph, a: Name, b: Name, c: Name)
    requires Reaches(g, a, b) && Edge(g, b, c)
    ensures Reaches(g, a, c)
  {
    var p :| WalkFromTo(g, p, a, b);
    assert WalkFromTo(g, p + [c], a, c);
  }

  lemma BuiltinReachesNothing(g: Graph, a: Name, b: Name)
    ensures Reaches(g, a, b) ==> a !in g.builtin && b !in g.builtin
  {
    if Reaches(g, a, b) {
      var p :| WalkFromTo(g, p, a, b);
      assert |p| >= 2 ==> Edge(g, p[|p| - 2], p[|p| - 1]);
    }
  }

  /** A set that holds `root` and is closed under edges holds everything `root` reaches. */
  lemma {:induction false} ReachableInClosed(g: Graph, s: set<Name>, root: Name, p: seq<Name>)
    requires root in s && forall a, b :: a in s && Edge(g, a, b) ==> b in s
    requires Walk(g, p) && p[0] == root
    ensures p[|p| - 1] in s
    decreases |p|
  {
    if |p| > 1 {
      var q := p[..|p| - 1];
      assert Walk(g, q);
      ReachableInClosed(g, s, root, q);
      assert Edge(g, p[|p| - 2], p[|p| - 1]);
    }
  }

  /** A walk moves strictly towards the front of a list in which dependencies come first. */
  lemma {:induction false} WalkDescends(g: Graph, order: seq<Name>, p: seq<Name>, k: nat)
    requires DepsFirst(g, order) && Walk(g, p)
    requires k <= |order| && p[0] in order[..k]
    ensures |p| <= k && p[|p| - 1] in order[..k - |p| + 1]
    decreases |p|
  {
    if |p| > 1 {
      var q := p[..|p| - 1];
      assert Walk(g, q);
      WalkDescends(g, order, q, k);
      var i :| 0 <= i < k - |q| + 1 && order[i] == q[|q| - 1];
      assert Edge(g, order[i], p[|p| - 1]);
      assert p[|p| - 1] in order[..i];
    }
  }

  /** A module that has a load order has no cycle below it. */
  lemma LoadOrderExcludesCycle(g: Graph, root: Name, order: seq<Name>)
    requires LoadOrder(g, root, order)
    ensures !CycleBelow(g, root)
  {
    if CycleBelow(g, root) {
      var n :| Reaches(g, root, n) && OnCycle(g, n);
      var p :| |p| >= 2 && WalkFromTo(g, p, n, n);
      var i :| 0 <= i < |order| && order[i] == n;
      WalkDescends(g, order, p, i + 1);
      assert false;
    }
  }

  /** Every prefix of a load order holds all that its members need, directly or through others. */
  lemma PrefixIsSelfSufficient(g: Graph, root: Name, order: seq<Name>, k: nat, a: Name, b: Name)
    requires LoadOrder(g, root, order) && k <= |order|
    requires a in order[..k] && Reaches(g, a, b)
    ensures b in order[..k]
  {
    var held := set n | n in order[..k];
    forall x, y | x in held && Edge(g, x, y)
      ensures y in held
    {
      var i :| 0 <= i < k && order[i] == x;
      assert y in order[..i];
    }
    var p :| WalkFromTo(g, p, a, b);
    ReachableInClosed(g, held, a, p);
  }
}
