/** `kruskal_mst` of kruskal.py: sort the edges by weight (stably), then keep
    each edge on which `union` reports a merge. */
module Kruskal {
  import opened Graphs
  import opened Walks
  import opened Partition
  import opened Sorting
  import opened UnionFind

  /** The greedy rule over an edge order: an edge is kept exactly when the
      edges kept before it do not already connect its endpoints. */
  ghost function Greedy(s: seq<Edge>): seq<Edge>
  {
    if s == [] then []
    else
      var kept := Greedy(s[..|s| - 1]);
      var e := s[|s| - 1];
      if Reach(kept, e.u, e.v) then kept else kept + [e]
  }

  /** `kruskal_mst(G)`: the edges kept by the greedy rule over the
      weight-sorted edge list, and their total weight. */
  method KruskalMst(n: nat, edges: seq<Edge>) returns (mst: seq<Edge>, total: int)
    requires ValidGraph(n, edges)
    ensures mst == Greedy(SortByKey(edges, false))
    ensures total == SumW(mst)
  {
    var sorted := SortByKey(edges, false);
    SortedMembers(edges, false);
    var dsu := new DSU(n);
    mst := [];
    total := 0;
    assert Exact(n, dsu.Sets(), mst) by {
      forall a: nat, b: nat | a < n && b < n && dsu.Sets()[a] == dsu.Sets()[b]
        ensures Reach(mst, a, b)
      {
        ReachRefl(mst, a);
      }
    }
    for i := 0 to |sorted|
      invariant dsu.Valid() && |dsu.parent| == n
      invariant mst == Greedy(sorted[..i])
      invariant Exact(n, dsu.Sets(), mst)
      invariant total == SumW(mst)
    {
      var e := sorted[i];
      assert e in edges;
      GreedyNext(sorted, i);
      mst, total := UnionEdge(n, dsu, e, mst, total);
    }
    assert sorted[..|sorted|] == sorted;
  }

  /** Lines 47-49: `union` the endpoints and keep the edge when it merged
      two sets, which happens exactly when the kept edges do not yet
      connect its endpoints. */
  method UnionEdge(n: nat, dsu: DSU, e: Edge, mst: seq<Edge>, total: int) returns (mst': seq<Edge>, total': int)
    requires dsu.Valid() && |dsu.parent| == n && e.u < n && e.v < n
    requires Exact(n, dsu.Sets(), mst) && total == SumW(mst)
    modifies dsu
    ensures dsu.Valid() && |dsu.parent| == n
    ensures mst' == if Reach(mst, e.u, e.v) then mst else mst + [e]
    ensures Exact(n, dsu.Sets(), mst') && total' == SumW(mst')
  {
    ghost var sets, rank := dsu.Sets(), dsu.rank;
    var merged := dsu.Union(e.u, e.v);
    AcceptExact(n, sets, dsu.Sets(), mst, e, merged, Loser(rank, sets[e.u], sets[e.v]), Winner(rank, sets[e.u], sets[e.v]));
    mst', total' := mst, total;
    if merged {
      SumWAppend(mst, e);
      mst' := mst + [e];
      total' := total + e.w;
    }
  }

  /** What one `union` call means for the kept edges: it merges exactly when
      they do not connect the endpoints, and the sets stay their components
      once the edge is kept on a merge. */
  lemma AcceptExact(n: nat, sets: seq<nat>, sets': seq<nat>, mst: seq<Edge>, e: Edge, merged: bool, lo: nat, hi: nat)
    requires Exact(n, sets, mst) && e.u < n && e.v < n
    requires merged <==> sets[e.u] != sets[e.v]
    requires !merged ==> sets' == sets
    requires merged ==> sets' == Relabel(sets, lo, hi)
    requires (lo == sets[e.u] && hi == sets[e.v]) || (lo == sets[e.v] && hi == sets[e.u])
    ensures merged <==> !Reach(mst, e.u, e.v)
    ensures merged ==> Exact(n, sets', mst + [e])
    ensures !merged ==> Exact(n, sets', mst)
  {
    ExactReach(n, sets, mst, e.u, e.v);
    if merged {
      MergeExact(n, sets, mst, e, lo, hi);
    }
  }

  /** One more scanned edge: kept exactly when the kept edges do not yet
      connect its endpoints. */
  lemma GreedyNext(s: seq<Edge>, i: nat)
    requires i < |s|
    ensures Greedy(s[..i + 1]) == if Reach(Greedy(s[..i]), s[i].u, s[i].v) then Greedy(s[..i]) else Greedy(s[..i]) + [s[i]]
  {
    assert s[..i + 1][..i] == s[..i];
  }

  /** Every kept edge joins two nodes the earlier kept edges do not connect. */
  lemma {:induction false} GreedyForest(s: seq<Edge>)
    ensures IsForest(Greedy(s))
  {
    if s != [] {
      var t := s[..|s| - 1];
      GreedyForest(t);
      var g := Greedy(t);
      var e := s[|s| - 1];
      if !Reach(g, e.u, e.v) {
        ForestAppend(g, e);
      }
    }
  }

  /** The kept edges are edges of the scanned list, in the scan's order. */
  lemma {:induction false} GreedyMembers(s: seq<Edge>, descending: bool)
    ensures SubEdges(Greedy(s), s)
    ensures SortedByKey(s, descending) ==> SortedByKey(Greedy(s), descending)
  {
    if s != [] {
      var t := s[..|s| - 1];
      GreedyMembers(t, descending);
      var g := Greedy(t);
      var e := s[|s| - 1];
      assert s == t + [e];
      if SortedByKey(s, descending) && !Reach(g, e.u, e.v) {
        var f := g + [e];
        forall i, j | 0 <= i < j < |f|
          ensures Key(f[i], descending) <= Key(f[j], descending)
        {
          if j == |g| {
            assert f[i] in t;
            var k :| 0 <= k < |t| && t[k] == f[i];
            assert s[k] == f[i];
          } else {
            assert f[i] == g[i] && f[j] == g[j];
          }
        }
      }
    }
  }

  /** Every scanned edge ends with its endpoints connected by kept edges. */
  lemma {:induction false} GreedySpans(s: seq<Edge>)
    ensures forall e :: e in s ==> Reach(Greedy(s), e.u, e.v)
  {
    if s != [] {
      var t := s[..|s| - 1];
      GreedySpans(t);
      var g := Greedy(t);
      var e := s[|s| - 1];
      var f := Greedy(s);
      assert SubEdges(g, f);
      forall x | x in s
        ensures Reach(f, x.u, x.v)
      {
        if x in t {
          ReachMono(g, f, x.u, x.v);
        } else {
          assert x == e;
          if !Reach(g, e.u, e.v) {
            ReachEdge(f, e);
          }
        }
      }
    }
  }

  /** What `kruskal_mst` returns: a forest of input edges in non-decreasing
      weight order with at most `n - 1` edges, connecting every two nodes
      the input connects; on a connected graph a spanning tree of `n - 1`
      edges. */
  lemma KruskalSpanningForest(n: nat, edges: seq<Edge>)
    requires ValidGraph(n, edges)
    ensures var mst := Greedy(SortByKey(edges, false));
      && IsForest(mst)
      && SubEdges(mst, edges)
      && (forall i, j :: 0 <= i < j < |mst| ==> mst[i].w <= mst[j].w)
      && (n > 0 ==> |mst| <= n - 1)
      && (forall a: nat, b: nat :: Reach(edges, a, b) ==> Reach(mst, a, b))
      && (n > 0 && Connected(n, edges) ==> Connected(n, mst) && |mst| == n - 1)
  {
    var sorted := SortByKey(edges, false);
    var mst := Greedy(sorted);
    SortedMembers(edges, false);
    GreedyForest(sorted);
    GreedyMembers(sorted, false);
    GreedySpans(sorted);
    assert ValidEdges(n, mst);
    ForestEdgeCount(n, mst);
    forall a: nat, b: nat | Reach(edges, a, b)
      ensures Reach(mst, a, b)
    {
      ReachSubsume(edges, mst, a, b);
    }
    if n > 0 && Connected(n, edges) {
      ConnectedSubsume(n, edges, mst);
    }
  }
}
