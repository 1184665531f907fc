/** The connectivity test Reverse-Delete calls (`nx.is_connected`): a
    traversal from node 0 whose count of reached nodes is compared with the
    node count. */
module Connectivity {
  import opened Graphs
  import opened Walks

  /** The traversal's bookkeeping: every seen node is a node reachable from
      0, and the stack holds distinct seen nodes still to be expanded. */
  ghost predicate Frontier(n: nat, es: seq<Edge>, seen: set<nat>, stack: seq<nat>)
  {
    && 0 in seen
    && (forall x :: x in seen ==> x < n && Reach(es, 0, x))
    && (forall i :: 0 <= i < |stack| ==> stack[i] in seen)
    && (forall i, j :: 0 <= i < j < |stack| ==> stack[i] != stack[j])
  }

  /** Every edge at an expanded node (seen, not pending) leads to a seen node. */
  ghost predicate ClosedExcept(es: seq<Edge>, seen: set<nat>, pending: seq<nat>)
  {
    forall e :: e in es ==>
      && (e.u in seen && e.u !in pending ==> e.v in seen)
      && (e.v in seen && e.v !in pending ==> e.u in seen)
  }

  /** Expands `x`: every neighbour not yet seen is marked and pushed. */
  method Expand(n: nat, es: seq<Edge>, x: nat, seen: set<nat>, stack: seq<nat>)
    returns (seen': set<nat>, stack': seq<nat>)
    requires ValidEdges(n, es)
    requires Frontier(n, es, seen, stack) && x in seen && x !in stack
    requires ClosedExcept(es, seen, stack + [x])
    ensures Frontier(n, es, seen', stack') && ClosedExcept(es, seen', stack')
    ensures seen <= seen' && (seen' == seen ==> stack' == stack)
  {
    seen', stack' := seen, stack;
    for j := 0 to |es|
      invariant Frontier(n, es, seen', stack') && x !in stack'
      invariant seen <= seen' && (seen' == seen ==> stack' == stack)
      invariant ClosedExcept(es, seen', stack' + [x])
      invariant forall k :: 0 <= k < j && Touches(es[k], x) ==> es[k].u in seen' && es[k].v in seen'
    {
      var e := es[j];
      assert e in es;
      if e.u == x && e.v !in seen' {
        ReachStep(es, 0, x, e.v);
        seen', stack' := seen' + {e.v}, stack' + [e.v];
      } else if e.v == x && e.u !in seen' {
        ReachStep(es, 0, x, e.u);
        seen', stack' := seen' + {e.u}, stack' + [e.u];
      }
    }
  }

  /** True exactly when every two nodes below `n` are joined by a walk. */
  method IsConnected(n: nat, es: seq<Edge>) returns (connected: bool)
    requires n > 0 && ValidEdges(n, es)
    ensures connected <==> Connected(n, es)
  {
    var seen: set<nat> := {0};
    var stack: seq<nat> := [0];
    ReachRefl(es, 0);
    while stack != []
      invariant Frontier(n, es, seen, stack) && ClosedExcept(es, seen, stack)
      decreases Nodes(n) - seen, |stack|
    {
      var x := stack[|stack| - 1];
      var rest := stack[..|stack| - 1];
      assert x !in rest;
      assert rest + [x] == stack;
      var seen' := seen;
      seen', stack := Expand(n, es, x, seen, rest);
      if seen' != seen {
        var y :| y in seen' && y !in seen;
        assert y in Nodes(n) - seen;
      }
      seen := seen';
    }
    connected := |seen| == n;
    TraversalResult(n, es, seen);
  }

  /** A closed set of nodes reachable from 0 decides connectivity by its size. */
  lemma TraversalResult(n: nat, es: seq<Edge>, seen: set<nat>)
    requires n > 0 && Frontier(n, es, seen, []) && ClosedExcept(es, seen, [])
    ensures |seen| == n <==> Connected(n, es)
  {
    assert seen <= Nodes(n);
    if |seen| == n {
      FullNodeSet(n, seen);
      ConnectedFromZero(n, es);
    } else {
      assert seen != Nodes(n);
      var b :| b in Nodes(n) && b !in seen;
      if Reach(es, 0, b) {
        ReachClosed(es, seen, 0, b);
      }
    }
  }
}
