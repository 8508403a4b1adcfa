/**
 Reachability in a finite graph, and the invariant of a worklist that marks
 exactly the reachable nodes.
 */
module Reachability {

  type Node = nat
  type Graph = map<Node, set<Node>>

  function Succ(g: Graph, n: Node): set<Node> {
    if n in g then g[n] else {}
  }

  ghost predicate IsPath(g: Graph, roots: set<Node>, path: seq<Node>) {
    && |path| > 0 && path[0] in roots
    && forall i :: 0 <= i < |path| - 1 ==> path[i + 1] in Succ(g, path[i])
  }

  ghost predicate Reach(g: Graph, roots: set<Node>, n: Node) {
    exists path :: IsPath(g, roots, path) && path[|path| - 1] == n
  }

  lemma ReachRoot(g: Graph, roots: set<Node>, n: Node)
    requires n in roots
    ensures Reach(g, roots, n)
  {
    assert IsPath(g, roots, [n]) && [n][|[n]| - 1] == n;
  }

  lemma ReachStep(g: Graph, roots: set<Node>, n: Node, m: Node)
    requires Reach(g, roots, n) && m in Succ(g, n)
    ensures Reach(g, roots, m)
  {
    var path :| IsPath(g, roots, path) && path[|path| - 1] == n;
    var longer := path + [m];
    forall i | 0 <= i < |longer| - 1 ensures longer[i + 1] in Succ(g, longer[i]) {
      if i < |path| - 1 { assert path[i + 1] in Succ(g, path[i]); }
    }
    assert IsPath(g, roots, longer) && longer[|longer| - 1] == m;
  }

  ghost predicate Closed(g: Graph, s: set<Node>) {
    forall n :: n in s ==> Succ(g, n) <= s
  }

  lemma {:induction false} PathStaysInside(g: Graph, roots: set<Node>, s: set<Node>, path: seq<Node>, i: nat)
    requires roots <= s && Closed(g, s) && IsPath(g, roots, path) && i < |path|
    ensures path[i] in s
  {
    if i > 0 {
      PathStaysInside(g, roots, s, path, i - 1);
      assert path[i - 1 + 1] in Succ(g, path[i - 1]);
    }
  }

  lemma ClosedContainsReach(g: Graph, roots: set<Node>, s: set<Node>, n: Node)
    requires roots <= s && Closed(g, s) && Reach(g, roots, n)
    ensures n in s
  {
    var path :| IsPath(g, roots, path) && path[|path| - 1] == n;
    PathStaysInside(g, roots, s, path, |path| - 1);
  }

  /** The nodes marked so far are those listed, each once; every one is reachable;
      the first done of them have had all their successors marked. */
  ghost predicate Tracing(g: Graph, roots: set<Node>, list: seq<Node>, done: nat) {
    && done <= |list|
    && roots <= Marked(list)
    && (forall i, j :: 0 <= i < j < |list| ==> list[i] != list[j])
    && (forall i :: 0 <= i < |list| ==> Reach(g, roots, list[i]))
    && (forall i :: 0 <= i < done ==> Succ(g, list[i]) <= Marked(list))
  }

  function Marked(list: seq<Node>): set<Node> {
    set i | 0 <= i < |list| :: list[i]
  }

  lemma MarkedAppend(list: seq<Node>, n: Node)
    ensures Marked(list + [n]) == Marked(list) + {n}
  {
    assert (list + [n])[|list|] == n;
    forall m | m in Marked(list) ensures m in Marked(list + [n]) {
      var i :| 0 <= i < |list| && list[i] == m;
      assert (list + [n])[i] == m;
    }
  }

  lemma TracePush(g: Graph, roots: set<Node>, list: seq<Node>, done: nat, m: Node)
    requires Tracing(g, roots, list, done) && done < |list|
    requires m in Succ(g, list[done]) && m !in Marked(list)
    ensures Tracing(g, roots, list + [m], done)
    ensures (list + [m])[done] == list[done]
  {
    MarkedAppend(list, m);
    ReachStep(g, roots, list[done], m);
    var longer := list + [m];
    forall i | 0 <= i < |list| ensures list[i] in Marked(list) {}
    forall i | 0 <= i < |longer| ensures Reach(g, roots, longer[i]) {
      if i < |list| { assert longer[i] == list[i]; }
    }
    forall i | 0 <= i < done ensures Succ(g, longer[i]) <= Marked(longer) {
      assert longer[i] == list[i];
    }
  }

  lemma TraceAdvance(g: Graph, roots: set<Node>, list: seq<Node>, done: nat)
    requires Tracing(g, roots, list, done) && done < |list| && Succ(g, list[done]) <= Marked(list)
    ensures Tracing(g, roots, list, done + 1)
  {
  }

  /** A finished trace has marked exactly the reachable nodes. */
  lemma TraceComplete(g: Graph, roots: set<Node>, list: seq<Node>, n: Node)
    requires Tracing(g, roots, list, |list|)
    ensures n in Marked(list) <==> Reach(g, roots, n)
  {
    forall m | m in Marked(list) ensures Succ(g, m) <= Marked(list) {
      var i :| 0 <= i < |list| && list[i] == m;
    }
    if Reach(g, roots, n) {
      ClosedContainsReach(g, roots, Marked(list), n);
    }
  }
}
