/** Reachability along edges of one transition type: the search the hydrogen
    mapper uses to avoid redundant HydrogenGroup edges (hasPath). */
module Paths {
  import opened Common
  import opened AtnTypes

  /** Every edge joins nodes of the graph, as networkx maintains. */
  ghost predicate EdgesWithin(nodes: set<string>, edges: map<EdgeKey, EdgeAttrs>)
  {
    forall k :: k in edges ==> k <= nodes
  }

  /** G[v]: the neighbours of `v`, whatever the type of the joining edge. */
  function Neighbours(nodes: set<string>, edges: map<EdgeKey, EdgeAttrs>, v: string): (r: set<string>)
    ensures r <= nodes
  {
    set u | u in nodes && Key(v, u) in edges
  }

  /** `u` and `v` are joined by an edge whose transition is `ty`. */
  predicate TypedEdge(edges: map<EdgeKey, EdgeAttrs>, u: string, v: string, ty: Transition)
  {
    Key(u, v) in edges && edges[Key(u, v)].transition == Some(ty)
  }

  ghost predicate IsPath(edges: map<EdgeKey, EdgeAttrs>, p: seq<string>, ty: Transition)
  {
    |p| >= 1 && forall i :: 0 <= i < |p| - 1 ==> TypedEdge(edges, p[i], p[i + 1], ty)
  }

  /** `t` can be reached from `s` along edges of type `ty` only (in zero or more steps). */
  ghost predicate Reachable(edges: map<EdgeKey, EdgeAttrs>, s: string, t: string, ty: Transition)
  {
    exists p :: IsPath(edges, p, ty) && p[0] == s && p[|p| - 1] == t
  }

  /** The neighbours of `s`, other than `s`, joined to it by an edge of type `ty`. */
  function OtherTypedNeighbours(nodes: set<string>, edges: map<EdgeKey, EdgeAttrs>, s: string, ty: Transition): set<string>
  {
    set u | u in nodes && u != s && TypedEdge(edges, s, u, ty)
  }

  lemma ReachableRefl(edges: map<EdgeKey, EdgeAttrs>, s: string, ty: Transition)
    ensures Reachable(edges, s, s, ty)
  {
    assert IsPath(edges, [s], ty);
  }

  lemma ReachableStep(edges: map<EdgeKey, EdgeAttrs>, s: string, v: string, w: string, ty: Transition)
    requires Reachable(edges, s, v, ty) && TypedEdge(edges, v, w, ty)
    ensures Reachable(edges, s, w, ty)
  {
    var p :| IsPath(edges, p, ty) && p[0] == s && p[|p| - 1] == v;
    var q := p + [w];
    forall i | 0 <= i < |q| - 1 ensures TypedEdge(edges, q[i], q[i + 1], ty) {
      if i < |p| - 1 {
        assert q[i] == p[i] && q[i + 1] == p[i + 1];
      }
    }
    assert IsPath(edges, q, ty) && q[0] == s && q[|q| - 1] == w;
  }

  lemma {:induction false} PathStaysInside(edges: map<EdgeKey, EdgeAttrs>, p: seq<string>, ty: Transition, r: set<string>, i: nat)
    requires IsPath(edges, p, ty) && p[0] in r && i < |p|
    requires forall v, u :: v in r && TypedEdge(edges, v, u, ty) ==> u in r
    ensures p[i] in r
  {
    if i > 0 {
      PathStaysInside(edges, p, ty, r, i - 1);
      assert TypedEdge(edges, p[i - 1], p[i], ty);
    }
  }

  /** A node set that holds `s` and is closed under typed edges holds every
      node reachable from `s`. */
  lemma ClosedSetBlocks(edges: map<EdgeKey, EdgeAttrs>, s: string, t: string, ty: Transition, r: set<string>)
    requires s in r && t !in r
    requires forall v, u :: v in r && TypedEdge(edges, v, u, ty) ==> u in r
    ensures !Reachable(edges, s, t, ty)
  {
    forall p | IsPath(edges, p, ty) && p[0] == s ensures p[|p| - 1] != t {
      PathStaysInside(edges, p, ty, r, |p| - 1);
    }
  }

  lemma ShrinkByOne(nodes: set<string>, visited: set<string>, x: string)
    requires x in nodes && x !in visited
    ensures |nodes - (visited + {x})| + 1 == |nodes - visited|
  {
    assert nodes - (visited + {x}) == (nodes - visited) - {x};
  }

  lemma AddOneNew(visited0: set<string>, visited: set<string>, x: string)
    requires visited0 <= visited && x !in visited
    ensures |(visited + {x}) - visited0| == |visited - visited0| + 1
  {
    assert (visited + {x}) - visited0 == (visited - visited0) + {x};
  }

  lemma SubsetCard(a: set<string>, b: set<string>)
    requires a <= b
    ensures |a| <= |b|
  {
    assert b == a + (b - a);
  }

  /** The search keeps, for each stack entry, a visited node and its unexamined neighbours. */
  ghost predicate StackInside(stack: seq<(string, set<string>)>, visited: set<string>, nodes: set<string>)
  {
    forall i :: 0 <= i < |stack| ==> stack[i].0 in visited && stack[i].1 <= nodes
  }

  ghost predicate AllReachable(edges: map<EdgeKey, EdgeAttrs>, s: string, visited: set<string>, ty: Transition)
  {
    forall v :: v in visited ==> Reachable(edges, s, v, ty)
  }

  /** What the inner for-loop of hasPath keeps while it has not met the target:
      the nodes it marked visited are new, reachable, typed neighbours of
      `parent`, each pushed once onto the stack above the entries it had. */
  ghost predicate Scanned(nodes: set<string>, edges: map<EdgeKey, EdgeAttrs>, s: string, t: string, ty: Transition,
                          parent: string, children: set<string>, visited: set<string>, stack: seq<(string, set<string>)>,
                          visited': set<string>, stack': seq<(string, set<string>)>)
  {
    visited <= visited' <= nodes && t !in visited'
    && StackInside(stack', visited', nodes) && AllReachable(edges, s, visited', ty)
    && |stack'| == |stack| + |visited' - visited| && stack'[..|stack|] == stack
    && |nodes - visited'| + |visited' - visited| == |nodes - visited|
    && visited' - visited <= children
    && forall x :: x in visited' - visited ==> x != parent && TypedEdge(edges, parent, x, ty)
  }

  /** Pushing one more unvisited typed neighbour keeps Scanned. */
  lemma PushChild(nodes: set<string>, edges: map<EdgeKey, EdgeAttrs>, s: string, t: string, ty: Transition,
                  parent: string, children: set<string>, visited: set<string>, stack: seq<(string, set<string>)>,
                  visited': set<string>, stack': seq<(string, set<string>)>, child: string)
    requires Scanned(nodes, edges, s, t, ty, parent, children, visited, stack, visited', stack')
    requires children <= nodes && parent in visited
    requires child in children && child !in visited' && child != t
    requires TypedEdge(edges, parent, child, ty) && Reachable(edges, s, child, ty)
    ensures Scanned(nodes, edges, s, t, ty, parent, children, visited, stack,
                    visited' + {child}, stack' + [(child, Neighbours(nodes, edges, child))])
  {
    ShrinkByOne(nodes, visited', child);
    AddOneNew(visited, visited', child);
    var v2, s2 := visited' + {child}, stack' + [(child, Neighbours(nodes, edges, child))];
    assert s2[..|stack|] == stack' [..|stack|];
    forall i | 0 <= i < |s2| ensures s2[i].0 in v2 && s2[i].1 <= nodes {
      if i < |stack'| {
        assert s2[i] == stack'[i];
      }
    }
  }

  /** The inner for-loop of hasPath: examines every child of `parent`, pushes
      each unvisited typed neighbour, and returns as soon as it meets `t`. */
  method ScanChildren(nodes: set<string>, edges: map<EdgeKey, EdgeAttrs>, s: string, t: string, ty: Transition,
                      parent: string, children: set<string>, visited: set<string>, stack: seq<(string, set<string>)>)
    returns (found: bool, visited': set<string>, stack': seq<(string, set<string>)>)
    requires EdgesWithin(nodes, edges)
    requires children <= nodes && visited <= nodes && t !in visited && parent in visited
    requires StackInside(stack, visited, nodes) && AllReachable(edges, s, visited, ty)
    ensures found ==> Reachable(edges, s, t, ty)
    ensures found ==> t in children && TypedEdge(edges, parent, t, ty)
    ensures t in children && TypedEdge(edges, parent, t, ty) ==> found
    ensures !found ==> visited <= visited' <= nodes && t !in visited'
    ensures !found ==> StackInside(stack', visited', nodes) && AllReachable(edges, s, visited', ty)
    ensures !found ==> |stack'| == |stack| + |visited' - visited| && stack'[..|stack|] == stack
    ensures !found ==> |nodes - visited'| + |visited' - visited| == |nodes - visited|
    ensures !found ==> visited' - visited <= children
    ensures !found ==> |visited' - visited| <= |OtherTypedNeighbours(nodes, edges, parent, ty)|
    ensures !found ==> forall x :: x in visited' - visited ==> x != parent && TypedEdge(edges, parent, x, ty)
  {
    var todo := children;
    visited', stack' := visited, stack;
    assert stack'[..|stack|] == stack;
    while todo != {}
      invariant todo <= children
      invariant Scanned(nodes, edges, s, t, ty, parent, children, visited, stack, visited', stack')
      invariant t in children && TypedEdge(edges, parent, t, ty) ==> t in todo
      decreases todo
    {
      var child :| child in todo;
      todo := todo - {child};
      if child !in visited' && TypedEdge(edges, parent, child, ty) {
        ReachableStep(edges, s, parent, child, ty);
        if child == t {
          return true, visited', stack';
        }
        PushChild(nodes, edges, s, t, ty, parent, children, visited, stack, visited', stack', child);
        visited' := visited' + {child};
        stack' := stack' + [(child, Neighbours(nodes, edges, child))];
      }
    }
    found := false;
    assert visited' - visited <= OtherTypedNeighbours(nodes, edges, parent, ty);
    SubsetCard(visited' - visited, OtherTypedNeighbours(nodes, edges, parent, ty));
  }

  /** What both searches keep: the visited nodes are reachable and do not
      include the target, and every stack entry is a visited node. */
  ghost predicate SearchState(nodes: set<string>, edges: map<EdgeKey, EdgeAttrs>, s: string, t: string, ty: Transition,
                              visited: set<string>, stack: seq<(string, set<string>)>)
  {
    visited <= nodes && s in visited && t !in visited
    && StackInside(stack, visited, nodes) && AllReachable(edges, s, visited, ty)
  }

  /** In the case hasPath gets right, a round starts from the single exhausted
      entry of `s` and pushes at most one child, which it then pops. */
  lemma SpecialRound(stack0: seq<(string, set<string>)>, stack: seq<(string, set<string>)>, pushed: nat)
    requires |stack0| == 1 && stack0[0].1 == {} && pushed <= 1
    requires |stack| == |stack0| + pushed && stack[..|stack0|] == stack0
    ensures |stack[..|stack| - 1]| <= 1
    ensures |stack[..|stack| - 1]| == 1 ==> stack[..|stack| - 1][0].1 == {}
  {
    assert stack[0] == stack[..|stack0|][0];
  }

  /** hasPath as written. After the inner for-loop it pops the LAST stack entry,
      which is the most recently pushed child whenever the parent pushed one, so
      that child is never expanded. What it does promise: it is sound, it finds
      a target that is a direct typed neighbour of `s`, and when `s` has at most
      one other typed neighbour it finds nothing farther away. */
  method HasPath(nodes: set<string>, edges: map<EdgeKey, EdgeAttrs>, s: string, t: string, ty: Transition)
    returns (found: bool)
    requires s in nodes
    requires EdgesWithin(nodes, edges)
    ensures s == t ==> found
    ensures found ==> Reachable(edges, s, t, ty)
    ensures s != t && TypedEdge(edges, s, t, ty) ==> found
    ensures s != t && !TypedEdge(edges, s, t, ty) && |OtherTypedNeighbours(nodes, edges, s, ty)| <= 1 ==> !found
  {
    if s == t {
      ReachableRefl(edges, s, ty);
      return true;
    }
    ghost var special := !TypedEdge(edges, s, t, ty) && |OtherTypedNeighbours(nodes, edges, s, ty)| <= 1;
    var visited := {s};
    var stack := [(s, Neighbours(nodes, edges, s))];
    ghost var round: nat := 0;
    ReachableRefl(edges, s, ty);
    while stack != []
      invariant visited <= nodes && s in visited && t !in visited
      invariant StackInside(stack, visited, nodes) && AllReachable(edges, s, visited, ty)
      invariant round == 0 ==> |stack| == 1 && stack[0] == (s, Neighbours(nodes, edges, s)) && visited == {s}
      invariant special && round > 0 ==> |stack| <= 1 && (|stack| == 1 ==> stack[0].1 == {})
      invariant TypedEdge(edges, s, t, ty) ==> round == 0
      decreases |nodes - visited|, |stack|
    {
      var parent, children := stack[|stack| - 1].0, stack[|stack| - 1].1;
      assert special && round > 0 ==> children == {} by {
        if special && round > 0 {
          assert |stack| == 1;
          assert children == stack[0].1;
        }
      }
      if TypedEdge(edges, s, t, ty) {
        assert Key(s, t) <= nodes;
        assert parent == s && t in children;
      }
      // the for-loop exhausts this entry's iterator
      stack := stack[|stack| - 1 := (parent, {})];
      ghost var visited0, stack0 := visited, stack;
      found, visited, stack := ScanChildren(nodes, edges, s, t, ty, parent, children, visited, stack);
      if found {
        return;
      }
      if special {
        assert |visited - visited0| <= 1 by {
          if round > 0 {
            assert visited - visited0 == {};
          }
        }
        SpecialRound(stack0, stack, |visited - visited0|);
      }
      StackAfterPop(stack, visited, nodes);
      stack := stack[..|stack| - 1];
      round := round + 1;
    }
    return false;
  }

  /** An edge of `v` to `u` still waits on the stack to be examined. */
  ghost predicate Pending(stack: seq<(string, set<string>)>, v: string, u: string)
  {
    exists i :: 0 <= i < |stack| && stack[i].0 == v && u in stack[i].1
  }

  /** Every typed edge out of a visited node leads to a visited node or is still pending. */
  ghost predicate Closure(edges: map<EdgeKey, EdgeAttrs>, ty: Transition, visited: set<string>, stack: seq<(string, set<string>)>)
  {
    forall v, u :: v in visited && TypedEdge(edges, v, u, ty) ==> u in visited || Pending(stack, v, u)
  }

  lemma ClosureAfterPop(edges: map<EdgeKey, EdgeAttrs>, ty: Transition, visited: set<string>, stack: seq<(string, set<string>)>)
    requires |stack| > 0 && stack[|stack| - 1].1 == {}
    requires Closure(edges, ty, visited, stack)
    ensures Closure(edges, ty, visited, stack[..|stack| - 1])
  {
    var stack' := stack[..|stack| - 1];
    forall v, u | v in visited && TypedEdge(edges, v, u, ty) && Pending(stack, v, u)
      ensures Pending(stack', v, u)
    {
      var i :| 0 <= i < |stack| && stack[i].0 == v && u in stack[i].1;
      assert stack'[i] == stack[i];
    }
  }

  lemma ClosureAfterTake(edges: map<EdgeKey, EdgeAttrs>, ty: Transition, visited: set<string>,
                         stack: seq<(string, set<string>)>, child: string)
    requires |stack| > 0 && child in stack[|stack| - 1].1
    requires Closure(edges, ty, visited, stack)
    requires child in visited || !TypedEdge(edges, stack[|stack| - 1].0, child, ty)
    ensures Closure(edges, ty, visited, stack[|stack| - 1 := (stack[|stack| - 1].0, stack[|stack| - 1].1 - {child})])
  {
    var top := |stack| - 1;
    var stack' := stack[top := (stack[top].0, stack[top].1 - {child})];
    forall v, u | v in visited && TypedEdge(edges, v, u, ty) && u !in visited
      ensures Pending(stack', v, u)
    {
      var i :| 0 <= i < |stack| && stack[i].0 == v && u in stack[i].1;
      assert stack'[i].0 == v && u in stack'[i].1;
    }
  }

  lemma ClosureAfterPush(nodes: set<string>, edges: map<EdgeKey, EdgeAttrs>, ty: Transition, visited: set<string>,
                         stack: seq<(string, set<string>)>, child: string)
    requires EdgesWithin(nodes, edges)
    requires |stack| > 0 && child in stack[|stack| - 1].1
    requires Closure(edges, ty, visited, stack)
    ensures Closure(edges, ty, visited + {child},
                    stack[|stack| - 1 := (stack[|stack| - 1].0, stack[|stack| - 1].1 - {child})]
                    + [(child, Neighbours(nodes, edges, child))])
  {
    var top := |stack| - 1;
    var after := stack[top := (stack[top].0, stack[top].1 - {child})] + [(child, Neighbours(nodes, edges, child))];
    forall v, u | v in visited + {child} && TypedEdge(edges, v, u, ty) && u !in visited + {child}
      ensures Pending(after, v, u)
    {
      if v == child {
        assert Key(child, u) <= nodes;
        assert after[|stack|].0 == child && u in after[|stack|].1;
      } else {
        var i :| 0 <= i < |stack| && stack[i].0 == v && u in stack[i].1;
        assert after[i].0 == v && u in after[i].1;
      }
    }
  }

  lemma StackAfterPop(stack: seq<(string, set<string>)>, visited: set<string>, nodes: set<string>)
    requires |stack| > 0 && StackInside(stack, visited, nodes)
    ensures StackInside(stack[..|stack| - 1], visited, nodes)
  {
  }

  lemma StackAfterTake(stack: seq<(string, set<string>)>, visited: set<string>, nodes: set<string>, child: string)
    requires |stack| > 0 && StackInside(stack, visited, nodes)
    ensures StackInside(stack[|stack| - 1 := (stack[|stack| - 1].0, stack[|stack| - 1].1 - {child})], visited, nodes)
  {
  }

  lemma StackAfterPush(stack: seq<(string, set<string>)>, visited: set<string>, nodes: set<string>,
                       child: string, children: set<string>)
    requires StackInside(stack, visited, nodes) && children <= nodes
    ensures StackInside(stack + [(child, children)], visited + {child}, nodes)
  {
  }

  lemma ReachableAfterVisit(edges: map<EdgeKey, EdgeAttrs>, s: string, visited: set<string>, ty: Transition,
                            parent: string, child: string)
    requires AllReachable(edges, s, visited, ty) && parent in visited && TypedEdge(edges, parent, child, ty)
    ensures AllReachable(edges, s, visited + {child}, ty)
  {
    ReachableStep(edges, s, parent, child, ty);
  }

  /** What the depth-first search keeps: every visited node is reachable, the
      target is not among them, and every typed edge out of a visited node is
      either followed or still pending on the stack. */
  ghost predicate DfsState(nodes: set<string>, edges: map<EdgeKey, EdgeAttrs>, s: string, t: string, ty: Transition,
                           visited: set<string>, stack: seq<(string, set<string>)>)
  {
    SearchState(nodes, edges, s, t, ty, visited, stack) && Closure(edges, ty, visited, stack)
  }

  /** The search starts from `s` alone, with all its neighbours pending. */
  lemma DfsStart(nodes: set<string>, edges: map<EdgeKey, EdgeAttrs>, s: string, t: string, ty: Transition)
    requires s in nodes && s != t && EdgesWithin(nodes, edges)
    ensures DfsState(nodes, edges, s, t, ty, {s}, [(s, Neighbours(nodes, edges, s))])
  {
    var stack := [(s, Neighbours(nodes, edges, s))];
    ReachableRefl(edges, s, ty);
    forall u | TypedEdge(edges, s, u, ty) ensures Pending(stack, s, u) {
      assert Key(s, u) <= nodes;
      assert stack[0].0 == s && u in stack[0].1;
    }
  }

  /** Popping an exhausted entry. */
  lemma DfsPop(nodes: set<string>, edges: map<EdgeKey, EdgeAttrs>, s: string, t: string, ty: Transition,
               visited: set<string>, stack: seq<(string, set<string>)>)
    requires DfsState(nodes, edges, s, t, ty, visited, stack)
    requires |stack| > 0 && stack[|stack| - 1].1 == {}
    ensures DfsState(nodes, edges, s, t, ty, visited, stack[..|stack| - 1])
  {
    ClosureAfterPop(edges, ty, visited, stack);
    StackAfterPop(stack, visited, nodes);
  }

  /** Passing over a child that is visited or not joined by a typed edge. */
  lemma DfsSkip(nodes: set<string>, edges: map<EdgeKey, EdgeAttrs>, s: string, t: string, ty: Transition,
                visited: set<string>, stack: seq<(string, set<string>)>, child: string)
    requires DfsState(nodes, edges, s, t, ty, visited, stack)
    requires |stack| > 0 && child in stack[|stack| - 1].1
    requires child in visited || !TypedEdge(edges, stack[|stack| - 1].0, child, ty)
    ensures DfsState(nodes, edges, s, t, ty, visited,
                     stack[|stack| - 1 := (stack[|stack| - 1].0, stack[|stack| - 1].1 - {child})])
  {
    ClosureAfterTake(edges, ty, visited, stack, child);
    StackAfterTake(stack, visited, nodes, child);
  }

  /** Visiting a new typed neighbour other than the target and pushing it. */
  lemma DfsPush(nodes: set<string>, edges: map<EdgeKey, EdgeAttrs>, s: string, t: string, ty: Transition,
                visited: set<string>, stack: seq<(string, set<string>)>, child: string)
    requires EdgesWithin(nodes, edges)
    requires DfsState(nodes, edges, s, t, ty, visited, stack)
    requires |stack| > 0 && child in stack[|stack| - 1].1 && child != t
    requires child !in visited && TypedEdge(edges, stack[|stack| - 1].0, child, ty)
    ensures DfsState(nodes, edges, s, t, ty, visited + {child},
                     stack[|stack| - 1 := (stack[|stack| - 1].0, stack[|stack| - 1].1 - {child})]
                     + [(child, Neighbours(nodes, edges, child))])
    ensures |nodes - (visited + {child})| < |nodes - visited|
  {
    var top := |stack| - 1;
    var parent, children := stack[top].0, stack[top].1;
    ReachableAfterVisit(edges, s, visited, ty, parent, child);
    ClosureAfterPush(nodes, edges, ty, visited, stack, child);
    StackAfterTake(stack, visited, nodes, child);
    StackAfterPush(stack[top := (parent, children - {child})], visited, nodes, child, Neighbours(nodes, edges, child));
    ShrinkByOne(nodes, visited, child);
  }

  /** The depth-first search hasPath evidently intends: an entry is popped only
      once its iterator is exhausted. It answers exactly whether `t` is
      reachable from `s` along edges of type `ty`. */
  method HasPathDfs(nodes: set<string>, edges: map<EdgeKey, EdgeAttrs>, s: string, t: string, ty: Transition)
    returns (found: bool)
    requires s in nodes
    requires EdgesWithin(nodes, edges)
    ensures found <==> Reachable(edges, s, t, ty)
  {
    ReachableRefl(edges, s, ty);
    if s == t {
      return true;
    }
    var visited := {s};
    var stack := [(s, Neighbours(nodes, edges, s))];
    DfsStart(nodes, edges, s, t, ty);
    while stack != []
      invariant DfsState(nodes, edges, s, t, ty, visited, stack)
      decreases |nodes - visited|, |stack|, if stack == [] then 0 else |stack[|stack| - 1].1|
    {
      var top := |stack| - 1;
      var parent, children := stack[top].0, stack[top].1;
      if children == {} {
        DfsPop(nodes, edges, s, t, ty, visited, stack);
        stack := stack[..top];
      } else {
        var child :| child in children;
        if child !in visited && TypedEdge(edges, parent, child, ty) {
          if child == t {
            ReachableStep(edges, s, parent, child, ty);
            return true;
          }
          DfsPush(nodes, edges, s, t, ty, visited, stack, child);
          visited := visited + {child};
          stack := stack[top := (parent, children - {child})] + [(child, Neighbours(nodes, edges, child))];
        } else {
          DfsSkip(nodes, edges, s, t, ty, visited, stack, child);
          stack := stack[top := (parent, children - {child})];
        }
      }
    }
    ClosedSetBlocks(edges, s, t, ty, visited);
    return false;
  }

  // ---------------------------------------------------------------------------
  // The discrepancy, on a three-node chain s - a - t of HydrogenGroup edges
  // ---------------------------------------------------------------------------

  const ChainNodes: set<string> := {"s", "a", "t"}
  const ChainEdges: map<EdgeKey, EdgeAttrs> :=
    map[Key("s", "a") := NoAttrs.(transition := Some(HydrogenGroup)),
        Key("a", "t") := NoAttrs.(transition := Some(HydrogenGroup))]

  /** hasPath as written answers False for s and t on the chain although t is
      reachable from s in two steps. */
  method MissedPath() returns (found: bool)
    ensures Reachable(ChainEdges, "s", "t", HydrogenGroup)
    ensures !found
  {
    assert "t" in Key("s", "t") && "t" !in Key("s", "a");
    assert "s" in Key("s", "t") && "s" !in Key("a", "t");
    assert !TypedEdge(ChainEdges, "s", "t", HydrogenGroup);
    assert TypedEdge(ChainEdges, "s", "a", HydrogenGroup);
    assert OtherTypedNeighbours(ChainNodes, ChainEdges, "s", HydrogenGroup) == {"a"};
    found := HasPath(ChainNodes, ChainEdges, "s", "t", HydrogenGroup);
    var p := ["s", "a", "t"];
    assert TypedEdge(ChainEdges, "a", "t", HydrogenGroup);
    assert IsPath(ChainEdges, p, HydrogenGroup);
  }
}
