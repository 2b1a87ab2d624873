/** The explicit-stack depth-first traversal that turns a dependency graph into a load order. */
module LoadOrderSearch {
  import opened Basics
  import opened ModuleGraph

  datatype Mark = Unvisited | Visiting | Done

  datatype Frame = Frame(name: Name, next: nat)

  const CYCLE := "dependency cycle detected"

  function MarkOf(marks: map<Name, Mark>, n: Name): Mark {
    if n in marks then marks[n] else Unvisited
  }

  /** A frame below the top: it is waiting for the module in the frame above it. */
  ghost predicate Waiting(g: Graph, marks: map<Name, Mark>, f: Frame, above: Name) {
    && f.name !in g.builtin
    && MarkOf(marks, f.name) == Visiting
    && 1 <= f.next <= |DepsOf(g, f.name)|
    && DepsOf(g, f.name)[f.next - 1] == above
    && forall j :: 0 <= j < f.next - 1 ==> MarkOf(marks, DepsOf(g, f.name)[j]) == Done
  }

  /** The top frame: just pushed, or some of its dependencies are done already. */
  ghost predicate Active(g: Graph, marks: map<Name, Mark>, f: Frame) {
    && f.name in marks
    && (marks[f.name] == Unvisited ==> f.next == 0)
    && (marks[f.name] == Visiting ==> f.name !in g.builtin)
    && marks[f.name] != Done
    && f.next <= |DepsOf(g, f.name)|
    && forall j :: 0 <= j < f.next ==> MarkOf(marks, DepsOf(g, f.name)[j]) == Done
  }

  ghost predicate StackInv(g: Graph, root: Name, marks: map<Name, Mark>, stack: seq<Frame>) {
    && (stack != [] ==> stack[0].name == root && Active(g, marks, stack[|stack| - 1]))
    && (stack == [] <==> MarkOf(marks, root) == Done)
    && (forall i :: 0 <= i < |stack| - 1 ==> Waiting(g, marks, stack[i], stack[i + 1].name))
    && (forall i, j :: 0 <= i < j < |stack| ==> stack[i].name != stack[j].name)
  }

  ghost predicate MarkInv(g: Graph, root: Name, marks: map<Name, Mark>, stack: seq<Frame>) {
    && marks.Keys <= Universe(g, root)
    && (forall n :: n in marks && marks[n] == Visiting ==> exists i :: 0 <= i < |stack| && stack[i].name == n)
    && (forall n :: n in marks && marks[n] == Unvisited ==> stack != [] && stack[|stack| - 1].name == n)
  }

  ghost predicate OrderInv(g: Graph, root: Name, marks: map<Name, Mark>, order: seq<Name>) {
    && Distinct(order)
    && DepsFirst(g, order)
    && (forall n :: n in order <==> MarkOf(marks, n) == Done && n !in g.builtin)
    && (forall n :: n in order ==> Reaches(g, root, n))
    && (MarkOf(marks, root) == Done && root !in g.builtin ==> order != [] && order[|order| - 1] == root)
    && (MarkOf(marks, root) != Done ==> root !in order)
  }

  ghost predicate Inv(g: Graph, root: Name, marks: map<Name, Mark>, stack: seq<Frame>, order: seq<Name>) {
    && StackInv(g, root, marks, stack)
    && MarkInv(g, root, marks, stack)
    && OrderInv(g, root, marks, order)
  }

  /** What is left to do on the stack: one pop per frame and one look per remaining dependency. */
  ghost function Work(g: Graph, stack: seq<Frame>): nat {
    if stack == [] then 0
    else
      var f := stack[|stack| - 1];
      var left := |DepsOf(g, f.name)| - f.next;
      (if left > 0 then left else 0) + 1 + Work(g, stack[..|stack| - 1])
  }

  /** The stack after the top frame has taken its next dependency. */
  function Bumped(stack: seq<Frame>): (s: seq<Frame>)
    requires stack != []
    ensures |s| == |stack|
  {
    var top := stack[|stack| - 1];
    stack[..|stack| - 1] + [Frame(top.name, top.next + 1)]
  }

  /** Every loadable module on the stack is reachable from the root. */
  lemma {:induction false} StackReaches(g: Graph, root: Name, marks: map<Name, Mark>, stack: seq<Frame>, i: nat)
    requires StackInv(g, root, marks, stack)
    requires i < |stack| && stack[i].name !in g.builtin
    ensures Reaches(g, root, stack[i].name)
  {
    if i == 0 {
      ReachesSelf(g, root);
    } else {
      assert Waiting(g, marks, stack[i - 1], stack[i].name);
      StackReaches(g, root, marks, stack, i - 1);
      ReachesStep(g, root, stack[i - 1].name, stack[i].name);
    }
  }

  /** The names on the stack from `i` up form a walk. */
  lemma StackWalk(g: Graph, root: Name, marks: map<Name, Mark>, stack: seq<Frame>, i: nat) returns (p: seq<Name>)
    requires StackInv(g, root, marks, stack)
    requires i < |stack| && stack[|stack| - 1].name !in g.builtin
    ensures WalkFromTo(g, p, stack[i].name, stack[|stack| - 1].name)
  {
    p := seq(|stack| - i, k requires 0 <= k < |stack| - i => stack[i + k].name);
    forall k | 0 <= k < |p| - 1
      ensures Edge(g, p[k], p[k + 1])
    {
      assert Waiting(g, marks, stack[i + k], stack[i + k + 1].name);
      assert i + k + 1 < |stack| - 1 ==> Waiting(g, marks, stack[i + k + 1], stack[i + k + 2].name);
    }
    assert |p| > 1 ==> Edge(g, p[0], p[1]);
  }

  /** Meeting a module that is still being visited closes a cycle that the root reaches. */
  lemma VisitingMeansCycle(g: Graph, root: Name, marks: map<Name, Mark>, stack: seq<Frame>, dep: Name)
    requires StackInv(g, root, marks, stack) && MarkInv(g, root, marks, stack)
    requires stack != [] && stack[|stack| - 1].name !in g.builtin && dep in DepsOf(g, stack[|stack| - 1].name)
    requires MarkOf(marks, dep) == Visiting
    ensures CycleBelow(g, root)
  {
    var k :| 0 <= k < |stack| && stack[k].name == dep;
    if k < |stack| - 1 {
      assert Waiting(g, marks, stack[k], stack[k + 1].name);
    }
    StackReaches(g, root, marks, stack, k);
    var p := StackWalk(g, root, marks, stack, k);
    ClosedWalk(g, p, dep);
  }

  lemma ClosedWalk(g: Graph, p: seq<Name>, n: Name)
    requires Walk(g, p) && p[0] == n && Edge(g, p[|p| - 1], n)
    ensures OnCycle(g, n)
  {
    assert WalkFromTo(g, p + [n], n, n);
  }

  /** Popping a finished top frame: the frame below it, if any, becomes active. */
  lemma PopKeepsStack(g: Graph, root: Name, marks: map<Name, Mark>, stack: seq<Frame>)
    requires StackInv(g, root, marks, stack) && stack != []
    ensures StackInv(g, root, marks[stack[|stack| - 1].name := Done], stack[..|stack| - 1])
  {
    var top := stack[|stack| - 1].name;
    var below := stack[..|stack| - 1];
    var marks' := marks[top := Done];
    forall i | 0 <= i < |below| - 1
      ensures Waiting(g, marks', below[i], below[i + 1].name)
    {
      assert Waiting(g, marks, stack[i], stack[i + 1].name);
    }
    if below != [] {
      assert Waiting(g, marks, stack[|stack| - 2], top);
      assert Active(g, marks', below[|below| - 1]);
    }
  }

  lemma PopKeepsMarks(g: Graph, root: Name, marks: map<Name, Mark>, stack: seq<Frame>)
    requires MarkInv(g, root, marks, stack) && stack != [] && stack[|stack| - 1].name in marks
    ensures MarkInv(g, root, marks[stack[|stack| - 1].name := Done], stack[..|stack| - 1])
  {
    var top := stack[|stack| - 1].name;
    var below := stack[..|stack| - 1];
    var marks' := marks[top := Done];
    assert marks'.Keys == marks.Keys;
    forall n | n in marks' && marks'[n] == Visiting
      ensures exists i :: 0 <= i < |below| && below[i].name == n
    {
      var i :| 0 <= i < |stack| && stack[i].name == n;
      assert below[i].name == n;
    }
  }

  /** A built-in module on top is done at once and contributes nothing to the order. */
  lemma PopBuiltinKeepsInv(g: Graph, root: Name, marks: map<Name, Mark>, stack: seq<Frame>, order: seq<Name>)
    requires Inv(g, root, marks, stack, order)
    requires stack != [] && stack[|stack| - 1].name in g.builtin
    ensures Inv(g, root, marks[stack[|stack| - 1].name := Done], stack[..|stack| - 1], order)
    ensures marks[stack[|stack| - 1].name := Done].Keys == marks.Keys && Work(g, stack[..|stack| - 1]) < Work(g, stack)
  {
    PopKeepsStack(g, root, marks, stack);
    PopKeepsMarks(g, root, marks, stack);
  }

  lemma VisitKeepsInv(g: Graph, root: Name, marks: map<Name, Mark>, stack: seq<Frame>, order: seq<Name>)
    requires Inv(g, root, marks, stack, order)
    requires stack != [] && stack[|stack| - 1].name !in g.builtin
    ensures Inv(g, root, marks[stack[|stack| - 1].name := Visiting], stack, order)
    ensures marks[stack[|stack| - 1].name := Visiting].Keys == marks.Keys
  {
    assert stack[|stack| - 1].name in marks;
  }

  lemma FinishKeepsOrder(g: Graph, root: Name, marks: map<Name, Mark>, stack: seq<Frame>, order: seq<Name>)
    requires OrderInv(g, root, marks, order)
    requires stack != [] && Active(g, marks, stack[|stack| - 1])
    requires stack[|stack| - 1].next >= |DepsOf(g, stack[|stack| - 1].name)|
    requires Reaches(g, root, stack[|stack| - 1].name) && stack[|stack| - 1].name !in g.builtin
    requires MarkOf(marks, root) != Done
    ensures stack[|stack| - 1].name !in order
    ensures OrderInv(g, root, marks[stack[|stack| - 1].name := Done], order + [stack[|stack| - 1].name])
  {
    var cur := stack[|stack| - 1].name;
    var longer := order + [cur];
    forall i, d | 0 <= i < |longer| && Edge(g, longer[i], d)
      ensures d in longer[..i]
    {
      assert longer[..i] == order[..i];
      if i == |order| {
        assert order[..i] == order;
      }
    }
  }

  /** A module whose dependencies are all done is not in the order yet, and may be appended to it. */
  lemma FinishKeepsInv(g: Graph, root: Name, marks: map<Name, Mark>, stack: seq<Frame>, order: seq<Name>)
    requires Inv(g, root, marks, stack, order)
    requires stack != [] && stack[|stack| - 1].name !in g.builtin
    requires stack[|stack| - 1].next >= |DepsOf(g, stack[|stack| - 1].name)|
    ensures stack[|stack| - 1].name !in order
    ensures Inv(g, root, marks[stack[|stack| - 1].name := Done], stack[..|stack| - 1], order + [stack[|stack| - 1].name])
    ensures marks[stack[|stack| - 1].name := Done].Keys == marks.Keys && Work(g, stack[..|stack| - 1]) < Work(g, stack)
  {
    PopKeepsStack(g, root, marks, stack);
    PopKeepsMarks(g, root, marks, stack);
    StackReaches(g, root, marks, stack, |stack| - 1);
    FinishKeepsOrder(g, root, marks, stack, order);
  }

  /** Looking at a dependency that is done moves the top frame on. */
  lemma AdvanceKeepsInv(g: Graph, root: Name, marks: map<Name, Mark>, stack: seq<Frame>, order: seq<Name>)
    requires Inv(g, root, marks, stack, order)
    requires stack != [] && stack[|stack| - 1].next < |DepsOf(g, stack[|stack| - 1].name)|
    requires MarkOf(marks, stack[|stack| - 1].name) == Visiting
    requires MarkOf(marks, DepsOf(g, stack[|stack| - 1].name)[stack[|stack| - 1].next]) == Done
    ensures Inv(g, root, marks, Bumped(stack), order)
    ensures Work(g, Bumped(stack)) < Work(g, stack)
  {
    var s := Bumped(stack);
    assert s[..|s| - 1] == stack[..|stack| - 1];
    assert forall i :: 0 <= i < |stack| ==> s[i].name == stack[i].name;
  }

  lemma PushKeepsStack(g: Graph, root: Name, marks: map<Name, Mark>, stack: seq<Frame>, dep: Name)
    requires StackInv(g, root, marks, stack)
    requires stack != [] && stack[|stack| - 1].next < |DepsOf(g, stack[|stack| - 1].name)|
    requires MarkOf(marks, stack[|stack| - 1].name) == Visiting
    requires dep == DepsOf(g, stack[|stack| - 1].name)[stack[|stack| - 1].next]
    requires dep !in marks
    ensures StackInv(g, root, marks[dep := Unvisited], Bumped(stack) + [Frame(dep, 0)])
  {
    var marks' := marks[dep := Unvisited];
    var s := Bumped(stack) + [Frame(dep, 0)];
    forall i | 0 <= i < |s| - 1
      ensures Waiting(g, marks', s[i], s[i + 1].name) && s[i].name in marks
    {
      if i < |stack| - 1 {
        assert Waiting(g, marks, stack[i], stack[i + 1].name);
      }
    }
  }

  /** Pushing a module that was never pushed before uses up one name of the universe. */
  lemma PushKeepsInv(g: Graph, root: Name, marks: map<Name, Mark>, stack: seq<Frame>, order: seq<Name>, dep: Name)
    requires Inv(g, root, marks, stack, order)
    requires stack != [] && stack[|stack| - 1].next < |DepsOf(g, stack[|stack| - 1].name)|
    requires MarkOf(marks, stack[|stack| - 1].name) == Visiting
    requires dep == DepsOf(g, stack[|stack| - 1].name)[stack[|stack| - 1].next]
    requires MarkOf(marks, dep) == Unvisited
    ensures dep !in marks && dep in Universe(g, root)
    ensures Inv(g, root, marks[dep := Unvisited], Bumped(stack) + [Frame(dep, 0)], order)
  {
    PushKeepsStack(g, root, marks, stack, dep);
    DependencyInUniverse(g, root, stack[|stack| - 1].name, dep);
    var s := Bumped(stack) + [Frame(dep, 0)];
    forall n | n in marks && marks[n] == Visiting
      ensures exists i :: 0 <= i < |s| && s[i].name == n
    {
      var i :| 0 <= i < |stack| && stack[i].name == n;
      assert s[i].name == n;
    }
    assert MarkInv(g, root, marks[dep := Unvisited], s);
    assert OrderInv(g, root, marks[dep := Unvisited], order);
  }

  /** When the stack is empty the order is complete: nothing reachable is missing. */
  lemma EmptyStackMeansLoadOrder(g: Graph, root: Name, marks: map<Name, Mark>, order: seq<Name>)
    requires Inv(g, root, marks, [], order)
    ensures LoadOrder(g, root, order)
    ensures !CycleBelow(g, root)
  {
    var found := set n | n in order;
    forall a, b | a in found && Edge(g, a, b)
      ensures b in found
    {
      var i :| 0 <= i < |order| && order[i] == a;
      assert b in order[..i];
    }
    forall n | Reaches(g, root, n)
      ensures n in order
    {
      BuiltinReachesNothing(g, root, n);
      var p :| WalkFromTo(g, p, root, n);
      ReachableInClosed(g, found, root, p);
    }
    LoadOrderExcludesCycle(g, root, order);
  }
}
