/** `karger_min_cut` of karger.py: while more than two nodes remain, pick an
    edge of the current graph and contract it with `nx.contracted_nodes(G,
    u, v, self_loops=False)`, recording the edges after every contraction.
    The random pick is the parameter `choose`: the `k`-th contraction takes
    the edge at index `choose(k) % |edges|`.

    The graph is a simple `Graph`, so a contraction that redirects `v`'s
    edge to `w` onto an existing `u`-`w` edge keeps a single edge for the
    pair. `KargerMinCut` models that; `KargerMinCutMulti` is the multigraph
    contraction the cut weight calls for, where every crossing edge
    survives. */
module Karger {
  import opened Graphs
  import opened Walks
  import opened Partition

  /** The contraction steps, the final edges and their total weight. */
  datatype Cut = Cut(steps: seq<seq<Edge>>, cutEdges: seq<Edge>, cutWeight: int)

  /** `Found`, or the `IndexError` of `random.choice` on an empty edge
      list while more than two nodes remain. */
  datatype Outcome = Found(cut: Cut) | NoEdgeToPick

  /** Node `x` once `v` is merged into `u`. */
  function Image(x: nat, u: nat, v: nat): nat
  {
    if x == v then u else x
  }

  /** The end of `f` that is not `v`. */
  function Other(f: Edge, v: nat): nat
  {
    if f.u == v then f.v else f.u
  }

  /** The edge joining `a` and `b` as `G.edges()` lists it: the nodes are
      kept in id order, so every pair comes smaller id first. */
  function Listed(a: nat, b: nat, w: int): (e: Edge)
    ensures Joins(e, a, b) && (a != b ==> e.u < e.v)
  {
    if a < b then Edge(a, b, w) else Edge(b, a, w)
  }

  /** The ends of the picked edge `(u, v)` as `G.edges()` lists it, smaller
      id first: `contracted_nodes(G, u, v)` keeps `u`. */
  function Lower(e: Edge): nat
  {
    if e.u < e.v then e.u else e.v
  }

  function Upper(e: Edge): nat
  {
    if e.u < e.v then e.v else e.u
  }

  /** The picked edge joins the two ends it is listed with. */
  lemma PickPair(es: seq<Edge>, e: Edge)
    requires e in es
    ensures HasPair(es, Lower(e), Upper(e))
  {
    assert Joins(e, Lower(e), Upper(e));
  }

  /** Some edge of `es` joins `a` and `b`. */
  predicate HasPair(es: seq<Edge>, a: nat, b: nat)
  {
    exists h :: h in es && Joins(h, a, b)
  }

  /** Every edge joins two different nodes of `nodes`. */
  ghost predicate ValidOn(nodes: set<nat>, es: seq<Edge>)
  {
    forall e :: e in es ==> e.u in nodes && e.v in nodes && e.u != e.v
  }

  /** The edges that do not touch `v`, in order. */
  function Without(es: seq<Edge>, v: nat): (r: seq<Edge>)
    ensures forall f :: f in r <==> f in es && !Touches(f, v)
  {
    if es == [] then []
    else (if Touches(es[0], v) then [] else [es[0]]) + Without(es[1..], v)
  }

  /** Each edge of `es` from `v` to some `w` other than `u` becomes an edge
      between `u` and `w` with its weight, unless the pair `u`-`w` is
      already present, in which case the edge already there is kept. */
  function Redirect(es: seq<Edge>, acc: seq<Edge>, u: nat, v: nat): seq<Edge>
  {
    if es == [] then acc
    else
      var f := es[0];
      var w := Other(f, v);
      var acc' := if Touches(f, v) && w != u && !HasPair(acc, u, w) then acc + [Listed(u, w, f.w)] else acc;
      Redirect(es[1..], acc', u, v)
  }

  /** `h` is made from an edge `g` of `es` between `v` and some `w` other
      than `u`: it joins `u` and `w`, smaller id first, with `g`'s weight,
      and only because no edge of `acc` joins `u` and `w` yet. */
  ghost predicate RedirectedFrom(es: seq<Edge>, acc: seq<Edge>, u: nat, v: nat, h: Edge)
  {
    && h.u < h.v
    && exists g :: g in es && Touches(g, v) && Other(g, v) != u && Joins(h, u, Other(g, v)) && h.w == g.w
                   && !HasPair(acc, u, Other(g, v))
  }

  /** `nx.contracted_nodes(G, u, v, self_loops=False)` on a simple graph:
      every edge away from `v` stays as it is; each edge from `v` to some
      `w` other than `u` leaves an edge between `u` and `w`, which is the
      redirected edge with its weight only when no edge away from `v`
      already joins `u` and `w` (otherwise the existing edge is kept); the
      `u`-`v` edge is dropped, so no self loop is made. */
  function Contract(es: seq<Edge>, u: nat, v: nat): (r: seq<Edge>)
    ensures forall h :: h in es && !Touches(h, v) ==> h in r
    ensures forall g :: g in es && Touches(g, v) && Other(g, v) != u ==> HasPair(r, u, Other(g, v))
    ensures forall h :: h in r ==> (h in es && !Touches(h, v)) || RedirectedFrom(es, Without(es, v), u, v, h)
  {
    RedirectKeeps(es, Without(es, v), u, v);
    RedirectCovers(es, Without(es, v), u, v);
    RedirectSources(es, Without(es, v), u, v);
    Redirect(es, Without(es, v), u, v)
  }

  lemma {:induction false} RedirectKeeps(es: seq<Edge>, acc: seq<Edge>, u: nat, v: nat)
    ensures forall h :: h in acc ==> h in Redirect(es, acc, u, v)
  {
    if es != [] {
      var f := es[0];
      var w := Other(f, v);
      var acc' := if Touches(f, v) && w != u && !HasPair(acc, u, w) then acc + [Listed(u, w, f.w)] else acc;
      RedirectKeeps(es[1..], acc', u, v);
    }
  }

  lemma {:induction false} RedirectSources(es: seq<Edge>, acc: seq<Edge>, u: nat, v: nat)
    ensures forall h :: h in Redirect(es, acc, u, v) ==> h in acc || RedirectedFrom(es, acc, u, v, h)
  {
    if es != [] {
      var f := es[0];
      var w := Other(f, v);
      var acc' := if Touches(f, v) && w != u && !HasPair(acc, u, w) then acc + [Listed(u, w, f.w)] else acc;
      RedirectSources(es[1..], acc', u, v);
      forall h | h in Redirect(es, acc, u, v) && h !in acc
        ensures RedirectedFrom(es, acc, u, v, h)
      {
        if h in acc' {
          assert h == Listed(u, w, f.w) && f in es;
        } else {
          assert RedirectedFrom(es[1..], acc', u, v, h);
          var g :| g in es[1..] && Touches(g, v) && Other(g, v) != u && Joins(h, u, Other(g, v)) && h.w == g.w
                   && !HasPair(acc', u, Other(g, v));
          assert g in es;
        }
      }
    }
  }

  lemma {:induction false} RedirectCovers(es: seq<Edge>, acc: seq<Edge>, u: nat, v: nat)
    ensures forall g :: g in es && Touches(g, v) && Other(g, v) != u ==> HasPair(Redirect(es, acc, u, v), u, Other(g, v))
  {
    if es != [] {
      var f := es[0];
      var w := Other(f, v);
      var acc' := if Touches(f, v) && w != u && !HasPair(acc, u, w) then acc + [Listed(u, w, f.w)] else acc;
      RedirectCovers(es[1..], acc', u, v);
      if Touches(f, v) && w != u {
        if !HasPair(acc, u, w) {
          assert Joins(acc'[|acc|], u, w);
        }
        assert HasPair(acc', u, w);
        RedirectKeeps(es[1..], acc', u, v);
      }
      assert forall g :: g in es ==> g == f || g in es[1..];
    }
  }

  lemma {:induction false} RedirectSimple(es: seq<Edge>, acc: seq<Edge>, u: nat, v: nat)
    requires Simple(acc)
    ensures Simple(Redirect(es, acc, u, v))
  {
    if es != [] {
      var f := es[0];
      var w := Other(f, v);
      var acc' := if Touches(f, v) && w != u && !HasPair(acc, u, w) then acc + [Listed(u, w, f.w)] else acc;
      if Touches(f, v) && w != u && !HasPair(acc, u, w) {
        forall g | g in acc
          ensures !SamePair(g, Listed(u, w, f.w))
        {
          assert !Joins(g, u, w);
        }
        AppendSimple(acc, Listed(u, w, f.w));
      }
      RedirectSimple(es[1..], acc', u, v);
    }
  }

  /** What a contraction of the edge `u`-`v` does to a simple graph on
      `nodes`: a simple graph on the other nodes whose edges are old edges
      seen through the merge, one for every pair an old edge maps to. */
  lemma ContractFacts(nodes: set<nat>, es: seq<Edge>, u: nat, v: nat)
    requires ValidOn(nodes, es) && Simple(es) && u in nodes && v in nodes && u != v
    ensures var r := Contract(es, u, v);
      && ValidOn(nodes - {v}, r) && Simple(r)
      && (forall f :: f in es && Image(f.u, u, v) != Image(f.v, u, v) ==> HasPair(r, Image(f.u, u, v), Image(f.v, u, v)))
      && (forall h :: h in r ==> exists f :: f in es && Joins(h, Image(f.u, u, v), Image(f.v, u, v)) && h.w == f.w)
  {
    var base := Without(es, v);
    var r := Contract(es, u, v);
    WithoutSimple(es, v);
    RedirectSimple(es, base, u, v);
    forall h | h in r
      ensures h.u in nodes - {v} && h.v in nodes - {v} && h.u != h.v
      ensures exists f :: f in es && Joins(h, Image(f.u, u, v), Image(f.v, u, v)) && h.w == f.w
    {
      ContractedEdge(nodes, es, u, v, h);
    }
    forall f | f in es && Image(f.u, u, v) != Image(f.v, u, v)
      ensures HasPair(r, Image(f.u, u, v), Image(f.v, u, v))
    {
      ContractedPair(es, u, v, f);
    }
  }

  /** An edge after the contraction joins two remaining nodes and is an old
      edge seen through the merge. */
  lemma ContractedEdge(nodes: set<nat>, es: seq<Edge>, u: nat, v: nat, h: Edge)
    requires ValidOn(nodes, es) && u in nodes && v in nodes && u != v && h in Contract(es, u, v)
    ensures h.u in nodes - {v} && h.v in nodes - {v} && h.u != h.v
    ensures exists f :: f in es && Joins(h, Image(f.u, u, v), Image(f.v, u, v)) && h.w == f.w
  {
    if h in es && !Touches(h, v) {
      assert Joins(h, Image(h.u, u, v), Image(h.v, u, v));
    } else {
      RedirectedEdge(nodes, es, Without(es, v), u, v, h);
    }
  }

  lemma RedirectedEdge(nodes: set<nat>, es: seq<Edge>, acc: seq<Edge>, u: nat, v: nat, h: Edge)
    requires ValidOn(nodes, es) && u in nodes && v in nodes && u != v && RedirectedFrom(es, acc, u, v, h)
    ensures h.u in nodes - {v} && h.v in nodes - {v} && h.u != h.v
    ensures exists f :: f in es && Joins(h, Image(f.u, u, v), Image(f.v, u, v)) && h.w == f.w
  {
    var g :| g in es && Touches(g, v) && Other(g, v) != u && Joins(h, u, Other(g, v)) && h.w == g.w
             && !HasPair(acc, u, Other(g, v));
    var w := Other(g, v);
    assert w in nodes && w != v;
    assert Joins(h, Image(g.u, u, v), Image(g.v, u, v));
  }

  /** Every pair an old edge maps to has an edge after the contraction. */
  lemma ContractedPair(es: seq<Edge>, u: nat, v: nat, f: Edge)
    requires f in es && Image(f.u, u, v) != Image(f.v, u, v)
    ensures HasPair(Contract(es, u, v), Image(f.u, u, v), Image(f.v, u, v))
  {
    var r := Contract(es, u, v);
    if Touches(f, v) {
      assert Other(f, v) != u;
      var h :| h in r && Joins(h, u, Other(f, v));
      assert Joins(h, Image(f.u, u, v), Image(f.v, u, v));
    } else {
      assert f in r && Joins(f, Image(f.u, u, v), Image(f.v, u, v));
    }
  }

  lemma {:induction false} WithoutSimple(es: seq<Edge>, v: nat)
    requires Simple(es)
    ensures Simple(Without(es, v))
  {
    if es != [] {
      SimpleTail(es);
      WithoutSimple(es[1..], v);
      if !Touches(es[0], v) {
        ConsSimple(es[0], Without(es[1..], v));
      }
    }
  }

  /** Two edges on a set of at most two nodes join the same pair. */
  lemma SameTwoNodes(nodes: set<nat>, a: Edge, b: Edge)
    requires |nodes| <= 2 && ValidOn(nodes, [a, b])
    ensures SamePair(a, b)
  {
    assert a in [a, b] && b in [a, b];
    var p := {a.u, a.v};
    assert |p| == 2;
    SubsetCard(p, nodes);
    assert nodes - p == {};
    assert b.u in p && b.v in p;
  }

  /** A simple graph on at most two nodes has at most one edge. */
  lemma AtMostOneEdge(nodes: set<nat>, g: seq<Edge>)
    requires |nodes| <= 2 && ValidOn(nodes, g) && Simple(g)
    ensures |g| <= 1
  {
    if |g| >= 2 {
      assert g[0] in g && g[1] in g;
      SameTwoNodes(nodes, g[0], g[1]);
    }
  }

  /** The shape of a returned cut: one snapshot per contraction, `n - 2` of
      them from `n > 2` nodes, the last one being the final edges (the input
      edges when nothing was contracted), and the weight their sum. */
  predicate CutShape(n: nat, edges: seq<Edge>, c: Cut)
  {
    && |c.steps| == (if n > 2 then n - 2 else 0)
    && (c.steps == [] ==> c.cutEdges == edges)
    && (c.steps != [] ==> c.steps[|c.steps| - 1] == c.cutEdges)
    && c.cutWeight == SumW(c.cutEdges)
  }

  /** Every original edge whose ends lie in two different groups has an
      edge for that pair of groups in `g`. */
  ghost predicate Covers(n: nat, edges: seq<Edge>, side: seq<nat>, g: seq<Edge>)
    requires |side| == n
  {
    forall f :: f in edges && f.u < n && f.v < n && side[f.u] != side[f.v] ==> HasPair(g, side[f.u], side[f.v])
  }

  /** Every edge of `g` joins the groups of some original edge and carries
      its weight. */
  ghost predicate Sourced(n: nat, edges: seq<Edge>, side: seq<nat>, g: seq<Edge>)
    requires |side| == n
  {
    forall h :: h in g ==> exists f :: f in edges && f.u < n && f.v < n && Joins(h, side[f.u], side[f.v]) && h.w == f.w
  }

  /** The contractions so far, as the groups they form: `side[x]` is the
      node the original node `x` is merged into, the nodes left are the
      group names, and the current simple graph has an edge for exactly the
      pairs of groups some original edge crosses, each with the weight of
      one such original edge. */
  ghost predicate Merged(n: nat, edges: seq<Edge>, side: seq<nat>, nodes: set<nat>, g: seq<Edge>)
  {
    && |side| == n && Values(side) == nodes
    && ValidOn(nodes, g) && Simple(g)
    && Covers(n, edges, side, g) && Sourced(n, edges, side, g)
  }

  lemma InitialMerged(n: nat, edges: seq<Edge>)
    requires ValidGraph(n, edges)
    ensures Merged(n, edges, Identity(n), Nodes(n), edges)
  {
    var side := Identity(n);
    forall f | f in edges && f.u < n && f.v < n && side[f.u] != side[f.v]
      ensures HasPair(edges, side[f.u], side[f.v])
    {
      assert Joins(f, side[f.u], side[f.v]);
    }
    forall h | h in edges
      ensures exists f :: f in edges && f.u < n && f.v < n && Joins(h, side[f.u], side[f.v]) && h.w == f.w
    {
      assert h.u < n && h.v < n && Joins(h, side[h.u], side[h.v]);
    }
  }

  lemma ImageSide(n: nat, edges: seq<Edge>, side: seq<nat>, u: nat, v: nat, f: Edge)
    requires |side| == n && f in edges && ValidEdges(n, edges)
    ensures f.u < n && f.v < n
    ensures Relabel(side, v, u)[f.u] == Image(side[f.u], u, v)
    ensures Relabel(side, v, u)[f.v] == Image(side[f.v], u, v)
  {
  }

  lemma ContractCovers(n: nat, edges: seq<Edge>, side: seq<nat>, nodes: set<nat>, g: seq<Edge>, u: nat, v: nat)
    requires ValidEdges(n, edges) && |side| == n && Covers(n, edges, side, g)
    requires forall f :: f in g && Image(f.u, u, v) != Image(f.v, u, v) ==> HasPair(Contract(g, u, v), Image(f.u, u, v), Image(f.v, u, v))
    ensures Covers(n, edges, Relabel(side, v, u), Contract(g, u, v))
  {
    var side' := Relabel(side, v, u);
    var r := Contract(g, u, v);
    forall f | f in edges && f.u < n && f.v < n && side'[f.u] != side'[f.v]
      ensures HasPair(r, side'[f.u], side'[f.v])
    {
      ImageSide(n, edges, side, u, v, f);
      var h :| h in g && Joins(h, side[f.u], side[f.v]);
      assert Image(h.u, u, v) != Image(h.v, u, v);
      var h' :| h' in r && Joins(h', Image(h.u, u, v), Image(h.v, u, v));
      assert Joins(h', side'[f.u], side'[f.v]);
    }
  }

  lemma ContractSourced(n: nat, edges: seq<Edge>, side: seq<nat>, side': seq<nat>, g: seq<Edge>, r: seq<Edge>, u: nat, v: nat)
    requires ValidEdges(n, edges) && |side| == n && side' == Relabel(side, v, u) && Sourced(n, edges, side, g)
    requires forall h :: h in r ==> exists f :: f in g && Joins(h, Image(f.u, u, v), Image(f.v, u, v)) && h.w == f.w
    ensures Sourced(n, edges, side', r)
  {
    forall h' | h' in r
      ensures exists f :: f in edges && f.u < n && f.v < n && Joins(h', side'[f.u], side'[f.v]) && h'.w == f.w
    {
      var h :| h in g && Joins(h', Image(h.u, u, v), Image(h.v, u, v)) && h'.w == h.w;
      var f :| f in edges && f.u < n && f.v < n && Joins(h, side[f.u], side[f.v]) && h.w == f.w;
      SourcedOne(n, edges, side, u, v, h', h, f);
    }
  }

  lemma SourcedOne(n: nat, edges: seq<Edge>, side: seq<nat>, u: nat, v: nat, h': Edge, h: Edge, f: Edge)
    requires ValidEdges(n, edges) && |side| == n && f in edges
    requires Joins(h', Image(h.u, u, v), Image(h.v, u, v)) && Joins(h, side[f.u], side[f.v])
    ensures f.u < n && f.v < n && Joins(h', Relabel(side, v, u)[f.u], Relabel(side, v, u)[f.v])
  {
    ImageSide(n, edges, side, u, v, f);
  }

  /** One contraction of a current edge between `u` and `v` keeps the
      bookkeeping, with `v` merged into `u` and one node fewer. */
  lemma ContractStep(n: nat, edges: seq<Edge>, side: seq<nat>, nodes: set<nat>, g: seq<Edge>, u: nat, v: nat)
    requires ValidEdges(n, edges) && Merged(n, edges, side, nodes, g) && HasPair(g, u, v)
    ensures Merged(n, edges, Relabel(side, v, u), nodes - {v}, Contract(g, u, v))
    ensures |nodes - {v}| == |nodes| - 1
  {
    var e :| e in g && Joins(e, u, v);
    ContractFacts(nodes, g, u, v);
    RelabelValues(side, v, u);
    SubsetCard({v}, nodes);
    ContractCovers(n, edges, side, nodes, g, u, v);
    ContractSourced(n, edges, side, Relabel(side, v, u), g, Contract(g, u, v), u, v);
  }

  /** On a connected graph some edge is left while two groups remain. */
  lemma EdgeLeft(n: nat, edges: seq<Edge>, side: seq<nat>, nodes: set<nat>, g: seq<Edge>)
    requires ValidEdges(n, edges) && Merged(n, edges, side, nodes, g) && |nodes| >= 2
    ensures Connected(n, edges) ==> g != []
  {
    if Connected(n, edges) {
      CrossingLabel(n, side, edges);
      var f :| f in edges && side[f.u] != side[f.v];
      var h :| h in g && Joins(h, side[f.u], side[f.v]);
    }
  }

  /** What is left once two groups remain: at most one edge, exactly one on
      a connected graph, and it joins the two groups of a crossing original
      edge with that edge's weight. */
  lemma FinalCut(n: nat, edges: seq<Edge>, side: seq<nat>, nodes: set<nat>, g: seq<Edge>)
    requires ValidEdges(n, edges) && Merged(n, edges, side, nodes, g) && |nodes| <= 2
    ensures |g| <= 1
    ensures |nodes| == 2 && Connected(n, edges) ==> |g| == 1
    ensures forall h :: h in g ==>
      exists f :: f in edges && side[f.u] != side[f.v] && Joins(h, side[f.u], side[f.v]) && h.w == f.w
  {
    AtMostOneEdge(nodes, g);
    if |nodes| == 2 {
      EdgeLeft(n, edges, side, nodes, g);
    }
    forall h | h in g
      ensures exists f :: f in edges && side[f.u] != side[f.v] && Joins(h, side[f.u], side[f.v]) && h.w == f.w
    {
      var f :| f in edges && f.u < n && f.v < n && Joins(h, side[f.u], side[f.v]) && h.w == f.w;
      assert h.u != h.v;
    }
  }

  /** The loop state of `karger_min_cut`: the bookkeeping of `Merged`, one
      snapshot per contraction, and the snapshots ending in the current
      edges. */
  ghost predicate Contracting(n: nat, edges: seq<Edge>, side: seq<nat>, nodes: set<nat>, g: seq<Edge>, steps: seq<seq<Edge>>)
  {
    && Merged(n, edges, side, nodes, g)
    && |steps| + |nodes| == n && (n >= 2 ==> |nodes| >= 2) && (n <= 2 ==> steps == [])
    && (steps == [] ==> g == edges)
    && (steps != [] ==> steps[|steps| - 1] == g)
  }

  lemma ContractNext(n: nat, edges: seq<Edge>, side: seq<nat>, nodes: set<nat>, g: seq<Edge>, steps: seq<seq<Edge>>, u: nat, v: nat)
    requires ValidEdges(n, edges) && Contracting(n, edges, side, nodes, g, steps) && |nodes| > 2 && HasPair(g, u, v)
    ensures var g' := Contract(g, u, v);
      Contracting(n, edges, Relabel(side, v, u), nodes - {v}, g', steps + [g'])
    ensures |nodes - {v}| < |nodes|
  {
    ContractStep(n, edges, side, nodes, g, u, v);
  }

  lemma ContractDone(n: nat, edges: seq<Edge>, side: seq<nat>, nodes: set<nat>, g: seq<Edge>, steps: seq<seq<Edge>>)
    requires Contracting(n, edges, side, nodes, g, steps) && |nodes| <= 2
    ensures CutShape(n, edges, Cut(steps, g, SumW(g)))
    ensures Merged(n, edges, side, nodes, g) && (n >= 2 ==> |nodes| == 2)
  {
  }

  /** `karger_min_cut(G)` as written. The groups `side` are the merges the
      contractions make; they are not part of the result. */
  method KargerMinCut(n: nat, edges: seq<Edge>, choose: nat -> nat) returns (result: Outcome, ghost side: seq<nat>)
    requires ValidGraph(n, edges)
    ensures result.NoEdgeToPick? ==> n > 2 && !Connected(n, edges)
    ensures Connected(n, edges) ==> result.Found?
    ensures result.Found? ==> CutShape(n, edges, result.cut) && |result.cut.cutEdges| <= 1
    ensures result.Found? && n >= 2 ==>
      && |side| == n && |Values(side)| == 2
      && (forall h :: h in result.cut.cutEdges ==>
            exists f :: f in edges && side[f.u] != side[f.v] && Joins(h, side[f.u], side[f.v]) && h.w == f.w)
      && (Connected(n, edges) ==> |result.cut.cutEdges| == 1)
  {
    var nodes := Nodes(n);
    var g := edges;
    var steps: seq<seq<Edge>> := [];
    side := Identity(n);
    InitialMerged(n, edges);
    while |nodes| > 2
      invariant Contracting(n, edges, side, nodes, g, steps)
      decreases |nodes|
    {
      if g == [] {
        EdgeLeft(n, edges, side, nodes, g);
        result := NoEdgeToPick;
        return;
      }
      var e := g[choose(|steps|) % |g|];
      var u, v := Lower(e), Upper(e);
      PickPair(g, e);
      ContractNext(n, edges, side, nodes, g, steps, u, v);
      g := Contract(g, u, v);
      nodes := nodes - {v};
      side := Relabel(side, v, u);
      steps := steps + [g];
    }
    ContractDone(n, edges, side, nodes, g, steps);
    FinalCut(n, edges, side, nodes, g);
    var weight := SumW(g);
    result := Found(Cut(steps, g, weight));
  }

  /** `nx.contracted_nodes(G, u, v, self_loops=False)` on a multigraph:
      every edge is seen through the merge of `v` into `u`, and only the
      edges that become self loops are dropped, so parallel edges survive. */
  function Merge(es: seq<Edge>, u: nat, v: nat): (r: seq<Edge>)
    ensures forall h :: h in r <==>
      exists f :: f in es && Image(f.u, u, v) != Image(f.v, u, v) && h == Edge(Image(f.u, u, v), Image(f.v, u, v), f.w)
    ensures |r| <= |es|
    ensures (forall f :: f in es ==> Image(f.u, u, v) != Image(f.v, u, v)) ==> |r| == |es|
  {
    assert forall f :: f in es <==> (es != [] && (f == es[0] || f in es[1..]));
    if es == [] then []
    else
      var a, b := Image(es[0].u, u, v), Image(es[0].v, u, v);
      (if a != b then [Edge(a, b, es[0].w)] else []) + Merge(es[1..], u, v)
  }

  /** The original edges seen through the groups `side`: one edge between
      the groups of each original edge that crosses them, with its weight. */
  function Project(es: seq<Edge>, side: seq<nat>): seq<Edge>
  {
    if es == [] then []
    else
      var f := es[0];
      (if f.u < |side| && f.v < |side| && side[f.u] != side[f.v] then [Edge(side[f.u], side[f.v], f.w)] else [])
      + Project(es[1..], side)
  }

  /** The weight of the cut `side`: the total weight of the original edges
      whose ends lie in different groups. */
  function CrossingWeight(es: seq<Edge>, side: seq<nat>): int
  {
    if es == [] then 0
    else
      var f := es[0];
      (if f.u < |side| && f.v < |side| && side[f.u] != side[f.v] then f.w else 0) + CrossingWeight(es[1..], side)
  }

  /** Contracting the projected graph is projecting onto the merged groups:
      a multigraph contraction loses no crossing edge. */
  lemma {:induction false} MergeProject(es: seq<Edge>, side: seq<nat>, u: nat, v: nat)
    ensures Merge(Project(es, side), u, v) == Project(es, Relabel(side, v, u))
  {
    if es != [] {
      MergeProject(es[1..], side, u, v);
      var f := es[0];
      var head := if f.u < |side| && f.v < |side| && side[f.u] != side[f.v] then [Edge(side[f.u], side[f.v], f.w)] else [];
      var rest := Project(es[1..], side);
      assert Project(es, side) == head + rest;
      if head == [] {
        assert head + rest == rest;
        if f.u < |side| && f.v < |side| {
          assert Relabel(side, v, u)[f.u] == Relabel(side, v, u)[f.v];
        }
      } else {
        var p := head + rest;
        assert p[0] == head[0] && p[1..] == rest;
      }
    }
  }

  /** With every node its own group the projection is the graph itself. */
  lemma {:induction false} ProjectIdentity(n: nat, es: seq<Edge>)
    requires ValidEdges(n, es)
    ensures Project(es, Identity(n)) == es
  {
    if es != [] {
      ProjectIdentity(n, es[1..]);
      assert es[0] in es;
      assert es == [es[0]] + es[1..];
    }
  }

  /** The projected edges weigh exactly the cut. */
  lemma {:induction false} ProjectWeight(es: seq<Edge>, side: seq<nat>)
    ensures SumW(Project(es, side)) == CrossingWeight(es, side)
  {
    if es != [] {
      ProjectWeight(es[1..], side);
      var f := es[0];
      var head := if f.u < |side| && f.v < |side| && side[f.u] != side[f.v] then [Edge(side[f.u], side[f.v], f.w)] else [];
      SumWConcat(head, Project(es[1..], side));
      if head != [] {
        assert head[..0] == [];
      }
    }
  }

  /** The projected edges are exactly the crossing original edges, renamed
      to their groups. */
  lemma {:induction false} ProjectMembers(es: seq<Edge>, side: seq<nat>)
    ensures forall h :: h in Project(es, side) <==>
      exists f :: f in es && f.u < |side| && f.v < |side| && side[f.u] != side[f.v] && h == Edge(side[f.u], side[f.v], f.w)
  {
    if es != [] {
      ProjectMembers(es[1..], side);
      assert forall f :: f in es <==> f == es[0] || f in es[1..];
    }
  }

  /** Every projected edge joins two different groups. */
  lemma ProjectValid(n: nat, es: seq<Edge>, side: seq<nat>)
    requires |side| == n
    ensures ValidOn(Values(side), Project(es, side))
  {
    ProjectMembers(es, side);
    forall h | h in Project(es, side)
      ensures h.u in Values(side) && h.v in Values(side)
    {
      var f :| f in es && f.u < |side| && f.v < |side| && side[f.u] != side[f.v] && h == Edge(side[f.u], side[f.v], f.w);
    }
  }

  /** On a connected graph a crossing edge remains while two groups do. */
  lemma ProjectLeft(n: nat, es: seq<Edge>, side: seq<nat>)
    requires ValidEdges(n, es) && |side| == n && |Values(side)| >= 2
    ensures Connected(n, es) ==> Project(es, side) != []
  {
    if Connected(n, es) {
      CrossingLabel(n, side, es);
      var f :| f in es && side[f.u] != side[f.v];
      ProjectMembers(es, side);
      assert Edge(side[f.u], side[f.v], f.w) in Project(es, side);
    }
  }

  /** The loop state of the multigraph contraction: the current edges are
      the original edges projected onto the groups. */
  ghost predicate MultiContracting(n: nat, edges: seq<Edge>, side: seq<nat>, nodes: set<nat>, g: seq<Edge>, steps: seq<seq<Edge>>)
  {
    && |side| == n && Values(side) == nodes && g == Project(edges, side)
    && |steps| + |nodes| == n && (n >= 2 ==> |nodes| >= 2) && (n <= 2 ==> steps == [])
    && (steps == [] ==> g == edges)
    && (steps != [] ==> steps[|steps| - 1] == g)
  }

  lemma MultiNext(n: nat, edges: seq<Edge>, side: seq<nat>, nodes: set<nat>, g: seq<Edge>, steps: seq<seq<Edge>>, u: nat, v: nat)
    requires MultiContracting(n, edges, side, nodes, g, steps) && |nodes| > 2 && HasPair(g, u, v)
    ensures var g' := Merge(g, u, v);
      MultiContracting(n, edges, Relabel(side, v, u), nodes - {v}, g', steps + [g'])
    ensures |nodes - {v}| < |nodes|
  {
    var e :| e in g && Joins(e, u, v);
    ProjectValid(n, edges, side);
    RelabelValues(side, v, u);
    MergeProject(edges, side, u, v);
  }

  /** `karger_min_cut(G)` with the contraction on a multigraph, as the cut
      weight requires: the result is the cut between the two final groups
      and weighs every original edge that crosses it. */
  method KargerMinCutMulti(n: nat, edges: seq<Edge>, choose: nat -> nat) returns (result: Outcome, side: seq<nat>)
    requires ValidEdges(n, edges)
    ensures |side| == n
    ensures result.NoEdgeToPick? ==> n > 2 && !Connected(n, edges)
    ensures Connected(n, edges) ==> result.Found?
    ensures result.Found? ==>
      && CutShape(n, edges, result.cut)
      && result.cut.cutEdges == Project(edges, side)
      && result.cut.cutWeight == CrossingWeight(edges, side)
      && (n >= 2 ==> |Values(side)| == 2)
  {
    var nodes := Nodes(n);
    var g := edges;
    var steps: seq<seq<Edge>> := [];
    side := Identity(n);
    ProjectIdentity(n, edges);
    while |nodes| > 2
      invariant MultiContracting(n, edges, side, nodes, g, steps)
      decreases |nodes|
    {
      if g == [] {
        ProjectLeft(n, edges, side);
        result := NoEdgeToPick;
        return;
      }
      var e := g[choose(|steps|) % |g|];
      var u, v := Lower(e), Upper(e);
      PickPair(g, e);
      MultiNext(n, edges, side, nodes, g, steps, u, v);
      g := Merge(g, u, v);
      nodes := nodes - {v};
      side := Relabel(side, v, u);
      steps := steps + [g];
    }
    ProjectWeight(edges, side);
    var weight := SumW(g);
    result := Found(Cut(steps, g, weight));
  }

  /** The triangle `(0,1,1), (1,2,2), (0,2,3)`, whose minimum cut weighs 3. */
  function Triangle(): seq<Edge>
  {
    [Edge(0, 1, 1), Edge(1, 2, 2), Edge(0, 2, 3)]
  }

  /** On the triangle `karger_min_cut` does one contraction. As written,
      the three possible contractions leave cuts of weight 3, 1 and 1
      (`TriangleCollapse01`, `12`, `02`), while the cuts they stand for
      weigh 5, 4 and 3: the lightest result is 1, below the minimum cut. */
  lemma TriangleCollapse01()
    ensures Contract(Triangle(), 0, 1) == [Edge(0, 2, 3)] && SumW(Contract(Triangle(), 0, 1)) == 3
    ensures CrossingWeight(Triangle(), Relabel(Identity(3), 1, 0)) == 5
  {
    var t := Triangle();
    assert Without(t, 1) == [Edge(0, 2, 3)];
    assert Joins(Edge(0, 2, 3), 0, 2);
    assert HasPair([Edge(0, 2, 3)], 0, 2);
    assert Relabel(Identity(3), 1, 0) == [0, 0, 2];
  }

  lemma TriangleCollapse12()
    ensures Contract(Triangle(), 1, 2) == [Edge(0, 1, 1)] && SumW(Contract(Triangle(), 1, 2)) == 1
    ensures CrossingWeight(Triangle(), Relabel(Identity(3), 2, 1)) == 4
  {
    var t := Triangle();
    assert Without(t, 2) == [Edge(0, 1, 1)];
    assert Joins(Edge(0, 1, 1), 1, 0);
    assert HasPair([Edge(0, 1, 1)], 1, 0);
    assert Relabel(Identity(3), 2, 1) == [0, 1, 1];
  }

  lemma TriangleCollapse02()
    ensures Contract(Triangle(), 0, 2) == [Edge(0, 1, 1)] && SumW(Contract(Triangle(), 0, 2)) == 1
    ensures CrossingWeight(Triangle(), Relabel(Identity(3), 2, 0)) == 3
  {
    var t := Triangle();
    assert Without(t, 2) == [Edge(0, 1, 1)];
    assert Joins(Edge(0, 1, 1), 0, 1);
    assert HasPair([Edge(0, 1, 1)], 0, 1);
    assert Relabel(Identity(3), 2, 0) == [0, 1, 0];
  }

  /** The kept node decides the result: on `(0,1,1), (0,2,2), (1,3,3),
      (2,3,4)`, picking `(2,3)` and then the redirected `(1,2)` keeps node
      1, so the `0`-`1` edge of weight 1 survives, not the `0`-`2` edge of
      weight 2. */
  lemma KeepsSmallerId()
    ensures var g := Contract([Edge(0, 1, 1), Edge(0, 2, 2), Edge(1, 3, 3), Edge(2, 3, 4)], 2, 3);
      && g == [Edge(0, 1, 1), Edge(0, 2, 2), Edge(1, 2, 3)]
      && Lower(g[2]) == 1 && Upper(g[2]) == 2
      && Contract(g, 1, 2) == [Edge(0, 1, 1)]
  {
    var es := [Edge(0, 1, 1), Edge(0, 2, 2), Edge(1, 3, 3), Edge(2, 3, 4)];
    var base := [Edge(0, 1, 1), Edge(0, 2, 2)];
    var g := base + [Edge(1, 2, 3)];
    assert Without(es, 3) == base;
    assert !HasPair(base, 2, 1);
    assert Redirect(es, base, 2, 3) == Redirect(es[2..], base, 2, 3);
    assert Redirect(es[2..], base, 2, 3) == Redirect(es[3..], g, 2, 3);
    assert Redirect(es[3..], g, 2, 3) == g;
    assert Without(g[2..], 2) == [];
    assert Without(g[1..], 2) == [];
    assert Without(g, 2) == [Edge(0, 1, 1)];
    assert Joins(Edge(0, 1, 1), 1, 0);
    assert HasPair([Edge(0, 1, 1)], 1, 0);
    assert Redirect(g, [Edge(0, 1, 1)], 1, 2) == Redirect(g[2..], [Edge(0, 1, 1)], 1, 2);
  }

  /** The multigraph contraction keeps every crossing edge: its three
      possible results weigh 5, 4 and 3, the weights of the cuts. */
  lemma TriangleMulti()
    ensures ValidGraph(3, Triangle())
    ensures SumW(Merge(Triangle(), 0, 1)) == 5
    ensures SumW(Merge(Triangle(), 1, 2)) == 4
    ensures SumW(Merge(Triangle(), 0, 2)) == 3
  {
    var t := Triangle();
    assert Merge(t, 0, 1) == [Edge(0, 2, 2), Edge(0, 2, 3)];
    assert Merge(t, 1, 2) == [Edge(0, 1, 1), Edge(0, 1, 3)];
    assert Merge(t, 0, 2) == [Edge(0, 1, 1), Edge(1, 0, 2)];
  }
}
