/** `reverse_delete_mst` of reverse.py: scan the edges heaviest first (a
    stable sort on the negated weight), remove each from a working copy of
    the graph and put it back, as a kept edge, exactly when its removal
    disconnects the copy. */
module ReverseDelete {
  import opened Graphs
  import opened Walks
  import opened Partition
  import opened Sorting
  import opened Connectivity

  /** `graph.remove_edge(u, v)`: the edge list without the edge joining the
      endpoints of `e`, in either orientation. */
  function RemovePair(es: seq<Edge>, e: Edge): (r: seq<Edge>)
    ensures forall f :: f in r <==> f in es && !SamePair(f, e)
  {
    if es == [] then []
    else (if SamePair(es[0], e) then [] else [es[0]]) + RemovePair(es[1..], e)
  }

  /** The working graph and the kept edges after some edges are scanned. */
  datatype Pass = Pass(work: seq<Edge>, kept: seq<Edge>)

  /** The scan as a fold over the scanned edges `s`, starting from the whole
      graph: each edge is removed, and added back and kept exactly when the
      rest of the working graph is no longer connected. */
  ghost function Sweep(n: nat, edges: seq<Edge>, s: seq<Edge>): Pass
  {
    if s == [] then Pass(edges, [])
    else
      var p := Sweep(n, edges, s[..|s| - 1]);
      var e := s[|s| - 1];
      var removed := RemovePair(p.work, e);
      if Connected(n, removed) then Pass(removed, p.kept) else Pass(removed + [e], p.kept + [e])
  }

  /** `reverse_delete_mst(G)`: the kept edges, in scan order, and their total
      weight. */
  method ReverseDeleteMst(n: nat, edges: seq<Edge>) returns (mst: seq<Edge>, total: int)
    requires ValidGraph(n, edges)
    ensures mst == Sweep(n, edges, SortByKey(edges, true)).kept
    ensures total == SumW(mst)
  {
    var graph := edges;
    var sorted := SortByKey(edges, true);
    SortedMembers(edges, true);
    mst, total := [], 0;
    for i := 0 to |sorted|
      invariant Sweep(n, edges, sorted[..i]) == Pass(graph, mst)
      invariant SubEdges(graph, edges)
      invariant total == SumW(mst)
    {
      assert sorted[i] in edges;
      SweepNext(n, edges, sorted, i);
      graph, mst, total := DeleteEdge(n, graph, sorted[i], mst, total);
    }
    assert sorted[..|sorted|] == sorted;
  }

  /** Lines 20-27: remove the edge, and add it back and keep it when the
      working graph is no longer connected. */
  method DeleteEdge(n: nat, graph: seq<Edge>, e: Edge, mst: seq<Edge>, total: int)
    returns (graph': seq<Edge>, mst': seq<Edge>, total': int)
    requires ValidEdges(n, graph) && e.u < n && e.v < n && total == SumW(mst)
    ensures var removed := RemovePair(graph, e);
      Pass(graph', mst') == if Connected(n, removed) then Pass(removed, mst) else Pass(removed + [e], mst + [e])
    ensures total' == SumW(mst')
    ensures SubEdges(graph', graph + [e])
  {
    graph' := RemovePair(graph, e);
    mst', total' := mst, total;
    var connected := IsConnected(n, graph');
    if !connected {
      graph' := graph' + [e];
      SumWAppend(mst, e);
      mst' := mst + [e];
      total' := total + e.w;
    }
  }

  /** One more scanned edge, as one step of the fold. */
  lemma SweepNext(n: nat, edges: seq<Edge>, s: seq<Edge>, i: nat)
    requires i < |s|
    ensures var p := Sweep(n, edges, s[..i]);
      var removed := RemovePair(p.work, s[i]);
      Sweep(n, edges, s[..i + 1]) == if Connected(n, removed) then Pass(removed, p.kept) else Pass(removed + [s[i]], p.kept + [s[i]])
  {
    assert s[..i + 1][..i] == s[..i];
  }

  /** No edge of `s` joins the endpoints of `f`: `f`'s pair is not scanned. */
  ghost predicate Unscanned(f: Edge, s: seq<Edge>)
  {
    forall j :: 0 <= j < |s| ==> !SamePair(f, s[j])
  }

  /** The kept edges are scanned edges, in scan order. */
  lemma {:induction false} SweepKept(n: nat, edges: seq<Edge>, s: seq<Edge>)
    ensures SubEdges(Sweep(n, edges, s).kept, s)
    ensures SortedByKey(s, true) ==> SortedByKey(Sweep(n, edges, s).kept, true)
  {
    if s != [] {
      var t := s[..|s| - 1];
      var e := s[|s| - 1];
      SweepKept(n, edges, t);
      var k := Sweep(n, edges, t).kept;
      assert s == t + [e];
      if SortedByKey(s, true) && Sweep(n, edges, s).kept == k + [e] {
        var f := k + [e];
        forall i, j | 0 <= i < j < |f|
          ensures Key(f[i], true) <= Key(f[j], true)
        {
          if j == |k| {
            assert f[i] in t;
            var m :| 0 <= m < |t| && t[m] == f[i];
            assert s[m] == f[i];
          } else {
            assert f[i] == k[i] && f[j] == k[j];
          }
        }
      }
    }
  }

  /** What the working graph holds after scanning `s`: the kept edges and
      the edges not yet scanned. The kept edges are a simple list. */
  lemma {:induction false} SweepMembers(n: nat, edges: seq<Edge>, s: seq<Edge>)
    requires Simple(s)
    ensures var p := Sweep(n, edges, s);
      && (forall f :: f in p.work <==> f in p.kept || (f in edges && Unscanned(f, s)))
      && Simple(p.kept)
  {
    if s != [] {
      var t := s[..|s| - 1];
      var e := s[|s| - 1];
      assert Simple(t) by {
        forall i, j | 0 <= i < j < |t|
          ensures !SamePair(t[i], t[j])
        {
          assert t[i] == s[i] && t[j] == s[j];
        }
      }
      SweepMembers(n, edges, t);
      SweepKept(n, edges, t);
      var p := Sweep(n, edges, t);
      // No kept edge shares `e`'s pair, since the scanned list is simple.
      forall g | g in p.kept
        ensures !SamePair(g, e)
      {
        var m :| 0 <= m < |t| && t[m] == g;
        assert s[m] == g;
      }
      forall f
        ensures Unscanned(f, s) <==> Unscanned(f, t) && !SamePair(f, e)
      {
        if Unscanned(f, t) && !SamePair(f, e) {
          forall j | 0 <= j < |s|
            ensures !SamePair(f, s[j])
          {
            if j < |t| {
              assert s[j] == t[j];
            }
          }
        }
        if Unscanned(f, s) {
          forall j | 0 <= j < |t|
            ensures !SamePair(f, t[j])
          {
            assert s[j] == t[j];
          }
          assert SamePair(f, e) ==> !Unscanned(f, s);
        }
      }
      if !Connected(n, RemovePair(p.work, e)) {
        AppendSimple(p.kept, e);
      }
    }
  }

  /** Each `remove_edge` call finds its edge: the `i`-th scanned edge is
      still in the working graph when it is removed. */
  lemma SweepRemoves(n: nat, edges: seq<Edge>, s: seq<Edge>, i: nat)
    requires Simple(s) && SubEdges(s, edges) && i < |s|
    ensures s[i] in Sweep(n, edges, s[..i]).work
  {
    var t := s[..i];
    assert Simple(t) by {
      forall a, b | 0 <= a < b < |t|
        ensures !SamePair(t[a], t[b])
      {
        assert t[a] == s[a] && t[b] == s[b];
      }
    }
    SweepMembers(n, edges, t);
    assert s[i] in s;
    forall j | 0 <= j < |t|
      ensures !SamePair(s[i], t[j])
    {
      assert t[j] == s[j];
    }
  }

  /** On a connected graph the working graph stays connected: an edge is
      only dropped when the rest stays connected. */
  lemma {:induction false} SweepConnected(n: nat, edges: seq<Edge>, s: seq<Edge>)
    requires Connected(n, edges)
    ensures Connected(n, Sweep(n, edges, s).work)
  {
    if s != [] {
      var t := s[..|s| - 1];
      var e := s[|s| - 1];
      SweepConnected(n, edges, t);
      var w := Sweep(n, edges, t).work;
      var removed := RemovePair(w, e);
      if !Connected(n, removed) {
        var back := removed + [e];
        forall f | f in w
          ensures Reach(back, f.u, f.v)
        {
          if SamePair(f, e) {
            ReachEdge(back, e);
          } else {
            ReachEdge(back, f);
          }
        }
        ConnectedSubsume(n, w, back);
      }
    }
  }

  /** On a disconnected graph no removal leaves the working graph connected,
      so every edge is kept. */
  lemma {:induction false} SweepDisconnected(n: nat, edges: seq<Edge>, s: seq<Edge>)
    requires !Connected(n, edges) && SubEdges(s, edges)
    ensures Sweep(n, edges, s).kept == s
    ensures SubEdges(Sweep(n, edges, s).work, edges)
  {
    if s != [] {
      var t := s[..|s| - 1];
      var e := s[|s| - 1];
      assert s == t + [e] && e in s;
      SweepDisconnected(n, edges, t);
      var removed := RemovePair(Sweep(n, edges, t).work, e);
      if Connected(n, removed) {
        ConnectedMono(n, removed, edges);
      }
      assert Sweep(n, edges, s) == Pass(removed + [e], t + [e]);
    }
  }

  /** Removing the edge `e` from a connected graph disconnects it only when
      nothing else joins its endpoints: `e` is then a bridge. */
  lemma BridgeCut(n: nat, work: seq<Edge>, e: Edge)
    requires Connected(n, work) && !Connected(n, RemovePair(work, e))
    ensures !Reach(RemovePair(work, e), e.u, e.v)
  {
    var removed := RemovePair(work, e);
    if Reach(removed, e.u, e.v) {
      forall f | f in work
        ensures Reach(removed, f.u, f.v)
      {
        if SamePair(f, e) {
          if f.u != e.u {
            ReachSym(removed, e.u, e.v);
          }
        } else {
          ReachEdge(removed, f);
        }
      }
      ConnectedSubsume(n, work, removed);
    }
  }

  /** Every kept edge is a bridge of the working graph. */
  ghost predicate Bridges(work: seq<Edge>, kept: seq<Edge>)
  {
    forall k :: 0 <= k < |kept| ==> !Reach(RemovePair(work, kept[k]), kept[k].u, kept[k].v)
  }

  /** On a connected graph every kept edge stays a bridge: the working
      graph only loses edges, apart from putting back the edge just kept. */
  lemma {:induction false} SweepBridges(n: nat, edges: seq<Edge>, s: seq<Edge>)
    requires Connected(n, edges) && Simple(s) && SubEdges(s, edges)
    ensures Bridges(Sweep(n, edges, s).work, Sweep(n, edges, s).kept)
  {
    if s != [] {
      var t := s[..|s| - 1];
      var e := s[|s| - 1];
      SweepRemoves(n, edges, s, |s| - 1);
      assert Simple(t) && SubEdges(t, edges) by {
        forall a, b | 0 <= a < b < |t|
          ensures !SamePair(t[a], t[b])
        {
          assert t[a] == s[a] && t[b] == s[b];
        }
      }
      SweepBridges(n, edges, t);
      SweepConnected(n, edges, t);
      SweepMembers(n, edges, s);
      var p := Sweep(n, edges, t);
      var removed := RemovePair(p.work, e);
      if Connected(n, removed) {
        BridgesShrink(p.work, removed, p.kept);
      } else {
        BridgeCut(n, p.work, e);
        BridgesAppend(p.work, removed, p.kept, e);
      }
    }
  }

  /** Bridges stay bridges in a graph with fewer edges. */
  lemma BridgesShrink(work: seq<Edge>, work': seq<Edge>, kept: seq<Edge>)
    requires Bridges(work, kept) && SubEdges(work', work)
    ensures Bridges(work', kept)
  {
    forall k | 0 <= k < |kept|
      ensures !Reach(RemovePair(work', kept[k]), kept[k].u, kept[k].v)
    {
      var g := kept[k];
      if Reach(RemovePair(work', g), g.u, g.v) {
        ReachMono(RemovePair(work', g), RemovePair(work, g), g.u, g.v);
      }
    }
  }

  /** Putting back a bridge `e` of `work` and keeping it keeps every kept
      edge a bridge, `e` included. */
  lemma BridgesAppend(work: seq<Edge>, removed: seq<Edge>, kept: seq<Edge>, e: Edge)
    requires Bridges(work, kept) && removed == RemovePair(work, e) && e in work
    requires !Reach(removed, e.u, e.v)
    ensures Bridges(removed + [e], kept + [e])
  {
    var back := removed + [e];
    BridgesShrink(work, back, kept);
    var f := kept + [e];
    forall k | 0 <= k < |f|
      ensures !Reach(RemovePair(back, f[k]), f[k].u, f[k].v)
    {
      if k < |kept| {
        assert f[k] == kept[k];
      } else if Reach(RemovePair(back, e), e.u, e.v) {
        ReachMono(RemovePair(back, e), removed, e.u, e.v);
      }
    }
  }

  /** Edges that are all bridges of a graph holding them form a forest. */
  lemma BridgesForest(work: seq<Edge>, kept: seq<Edge>)
    requires Bridges(work, kept) && SubEdges(kept, work) && Simple(kept)
    ensures IsForest(kept)
  {
    forall k | 0 <= k < |kept|
      ensures !Reach(kept[..k], kept[k].u, kept[k].v)
    {
      var g := kept[k];
      forall f | f in kept[..k]
        ensures f in RemovePair(work, g)
      {
        var j :| 0 <= j < k && kept[j] == f;
      }
      if Reach(kept[..k], g.u, g.v) {
        ReachMono(kept[..k], RemovePair(work, g), g.u, g.v);
      }
    }
  }

  /** What `reverse_delete_mst` returns: input edges, heaviest first. On a
      disconnected graph every edge, in scan order (no removal leaves the
      copy connected); on a connected one a spanning tree of `n - 1`
      edges. */
  lemma ReverseDeleteResult(n: nat, edges: seq<Edge>)
    requires ValidGraph(n, edges)
    ensures var s := SortByKey(edges, true);
      var kept := Sweep(n, edges, s).kept;
      && SubEdges(kept, edges)
      && SortedByKey(kept, true)
      && (!Connected(n, edges) ==> kept == s)
      && (n > 0 && Connected(n, edges) ==> IsForest(kept) && Connected(n, kept) && |kept| == n - 1)
  {
    var s := SortByKey(edges, true);
    SortedMembers(edges, true);
    SortSimple(edges, true);
    SweepKept(n, edges, s);
    var p := Sweep(n, edges, s);
    assert ValidEdges(n, p.kept);
    if !Connected(n, edges) {
      SweepDisconnected(n, edges, s);
    } else if n > 0 {
      SweepMembers(n, edges, s);
      forall f | f in p.work
        ensures f in p.kept
      {
        if f in edges {
          assert f in s;
          var j :| 0 <= j < |s| && s[j] == f;
          assert SamePair(f, s[j]);
        }
      }
      SweepConnected(n, edges, s);
      ConnectedMono(n, p.work, p.kept);
      SweepBridges(n, edges, s);
      BridgesForest(p.work, p.kept);
      ForestEdgeCount(n, p.kept);
    }
  }
}
