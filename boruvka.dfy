/** `boruvka_mst` of boruvka.py: rounds in which every component picks its
    cheapest outgoing edge, followed by merges that relabel the node-to-
    component map. */
module Boruvka {
  import opened Graphs
  import opened Walks
  import opened Partition

  /** `e` joins two different components and one of them is `c`. */
  predicate Leaves(component: seq<nat>, e: Edge, c: nat)
  {
    && e.u < |component| && e.v < |component|
    && component[e.u] != component[e.v]
    && (component[e.u] == c || component[e.v] == c)
  }

  /** `o` is what the scan leaves in `cheapest[c]`: nothing when no edge
      leaves component `c`, otherwise a lightest edge leaving it, and the
      first one in enumeration order among the lightest. */
  ghost predicate CheapestFor(component: seq<nat>, es: seq<Edge>, c: nat, o: Option<Edge>)
  {
    match o
    case None => forall e :: e in es ==> !Leaves(component, e, c)
    case Some(e) =>
      && e in es && Leaves(component, e, c)
      && (forall f :: f in es && Leaves(component, f, c) ==> e.w <= f.w)
      && exists k :: 0 <= k < |es| && es[k] == e && forall j :: 0 <= j < k && Leaves(component, es[j], c) ==> es[j].w > e.w
  }

  /** `o` (found at index `at`) is what the scan has recorded for component
      `c` after the first `j` edges. */
  ghost predicate ScannedFor(component: seq<nat>, edges: seq<Edge>, j: nat, c: nat, o: Option<Edge>, at: nat)
  {
    && j <= |edges|
    && match o
       case None => forall i :: 0 <= i < j ==> !Leaves(component, edges[i], c)
       case Some(e) =>
         && at < j && e == edges[at] && Leaves(component, e, c)
         && (forall i :: 0 <= i < j && Leaves(component, edges[i], c) ==> e.w <= edges[i].w)
         && (forall i :: 0 <= i < at && Leaves(component, edges[i], c) ==> edges[i].w > e.w)
  }

  /** Offering edge `j` to component `c`: it replaces the record when it
      leaves `c` and the record is empty or strictly heavier. */
  lemma Offer(component: seq<nat>, edges: seq<Edge>, j: nat, c: nat, o: Option<Edge>, at: nat)
    requires j < |edges| && ScannedFor(component, edges, j, c, o, at)
    ensures Leaves(component, edges[j], c) && (o.None? || o.value.w > edges[j].w) ==>
      ScannedFor(component, edges, j + 1, c, Some(edges[j]), j)
    ensures !(Leaves(component, edges[j], c) && (o.None? || o.value.w > edges[j].w)) ==>
      ScannedFor(component, edges, j + 1, c, o, at)
  {
  }

  /** A record after the whole scan is the cheapest outgoing edge. */
  lemma Scanned(component: seq<nat>, edges: seq<Edge>, c: nat, o: Option<Edge>, at: nat)
    requires ScannedFor(component, edges, |edges|, c, o, at)
    ensures CheapestFor(component, edges, c, o)
  {
    if o.Some? {
      forall f | f in edges && Leaves(component, f, c)
        ensures o.value.w <= f.w
      {
        var i :| 0 <= i < |edges| && edges[i] == f;
      }
    } else {
      forall f | f in edges
        ensures !Leaves(component, f, c)
      {
        var i :| 0 <= i < |edges| && edges[i] == f;
      }
    }
  }

  /** Lines 19-30: one scan of the edges, recording for every component its
      cheapest outgoing edge. A candidate replaces the recorded one only if
      it is strictly lighter. */
  method CheapestEdges(n: nat, edges: seq<Edge>, component: seq<nat>) returns (cheapest: seq<Option<Edge>>)
    requires ValidEdges(n, edges) && LabelsAreNodes(n, component)
    ensures |cheapest| == n
    ensures forall c :: 0 <= c < n ==> CheapestFor(component, edges, c, cheapest[c])
  {
    cheapest := seq(n, _ => None);
    ghost var at: seq<nat> := seq(n, _ => 0);
    for j := 0 to |edges|
      invariant |cheapest| == n && |at| == n
      invariant forall c :: 0 <= c < n ==> ScannedFor(component, edges, j, c, cheapest[c], at[c])
    {
      var e := edges[j];
      assert e in edges;
      forall c | 0 <= c < n {
        Offer(component, edges, j, c, cheapest[c], at[c]);
      }
      var compU, compV := component[e.u], component[e.v];
      if compU != compV {
        if cheapest[compU].None? || cheapest[compU].value.w > e.w {
          cheapest, at := cheapest[compU := Some(e)], at[compU := j];
        }
        if cheapest[compV].None? || cheapest[compV].value.w > e.w {
          cheapest, at := cheapest[compV := Some(e)], at[compV := j];
        }
      }
    }
    forall c | 0 <= c < n {
      Scanned(component, edges, c, cheapest[c], at[c]);
    }
  }

  /** Lines 42-44: every node carrying `from` is rewritten to `to`. */
  method Relabelled(component: seq<nat>, from: nat, to: nat) returns (r: seq<nat>)
    ensures r == Relabel(component, from, to)
  {
    r := component;
    for node := 0 to |r|
      invariant |r| == |component|
      invariant forall i :: 0 <= i < node ==> r[i] == (if component[i] == from then to else component[i])
      invariant forall i :: node <= i < |r| ==> r[i] == component[i]
    {
      if r[node] == from {
        r := r[node := to];
      }
    }
  }

  /** The state the rounds keep: the labels are node ids and are exactly
      the components of the forest built so far, whose edges are input
      edges; `numComponents` counts the labels. */
  ghost predicate RoundState(n: nat, edges: seq<Edge>, component: seq<nat>, numComponents: nat, mst: seq<Edge>, total: int)
  {
    && Exact(n, component, mst) && LabelsAreNodes(n, component) && Representative(component)
    && numComponents == |Values(component)|
    && IsForest(mst) && SubEdges(mst, edges) && total == SumW(mst)
  }

  /** Lines 33-45: the recorded edges are visited in node order; one whose
      endpoints still carry different labels is appended and its two
      components are merged. A round merges at least once exactly when
      some component has an outgoing edge, and otherwise changes nothing;
      on a connected graph it at least halves the number of components. */
  method MergeCheapest(n: nat, edges: seq<Edge>, cheapest: seq<Option<Edge>>,
                       component: seq<nat>, numComponents: nat, mst: seq<Edge>, total: int)
    returns (component': seq<nat>, numComponents': nat, mst': seq<Edge>, total': int)
    requires ValidEdges(n, edges)
    requires |cheapest| == n && forall c :: 0 <= c < n ==> CheapestFor(component, edges, c, cheapest[c])
    requires RoundState(n, edges, component, numComponents, mst, total)
    ensures RoundState(n, edges, component', numComponents', mst', total')
    ensures |mst'| + numComponents' == |mst| + numComponents
    ensures |mst| <= |mst'| && mst'[..|mst|] == mst
    ensures forall k :: |mst| <= k < |mst'| ==> Some(mst'[k]) in cheapest
    ensures numComponents' < numComponents <==> exists c :: 0 <= c < n && cheapest[c].Some?
    ensures numComponents' == numComponents ==> component' == component && mst' == mst && total' == total
    ensures Connected(n, edges) && numComponents > 1 ==> 2 * numComponents' <= numComponents
  {
    component', numComponents', mst', total' := component, numComponents, mst, total;
    for comp := 0 to n
      invariant MergeInv(n, edges, cheapest, component, numComponents, mst, total, comp, component', numComponents', mst', total')
    {
      component', numComponents', mst', total' := MergeAt(n, edges, cheapest, component, numComponents, mst, total,
                                                          comp, component', numComponents', mst', total');
    }
    if |mst'| > |mst| {
      assert Some(mst'[|mst|]) in cheapest;
    }
    if Connected(n, edges) && numComponents > 1 {
      forall c | c in Values(component)
        ensures c < n && cheapest[c].Some?
      {
        var i :| 0 <= i < n && component[i] == c;
        LabelLeaves(n, edges, component, c);
        var e :| e in edges && Leaves(component, e, c);
        assert CheapestFor(component, edges, c, cheapest[c]);
      }
      RoundHalves(n, edges, cheapest, component, component');
    }
  }

  /** An edge leaves every component of a connected graph while two are
      left: a walk from inside it to a node outside it must cross out. */
  lemma LabelLeaves(n: nat, edges: seq<Edge>, component: seq<nat>, c: nat)
    requires ValidEdges(n, edges) && Connected(n, edges) && |component| == n
    requires |Values(component)| > 1 && c in Values(component)
    ensures exists e :: e in edges && Leaves(component, e, c)
  {
    var a :| 0 <= a < n && component[a] == c;
    var s := Values(component);
    assert s == (s - {c}) + {c};
    var d :| d in s - {c};
    var b :| 0 <= b < n && component[b] == d;
    var inside := set x | 0 <= x < n && component[x] == c;
    if forall e :: e in edges ==> !Leaves(component, e, c) {
      assert forall e :: e in edges ==> (e.u in inside <==> e.v in inside);
      ReachClosed(edges, inside, a, b);
    }
  }

  /** Boruvka's halving: when every component has a recorded edge and the
      merges leave the two ends of each recorded edge with one label, every
      new component holds at least two old ones. */
  lemma RoundHalves(n: nat, edges: seq<Edge>, cheapest: seq<Option<Edge>>, component: seq<nat>, component': seq<nat>)
    requires |cheapest| == n && |component| == n
    requires Representative(component) && Coarsens(component, component')
    requires forall c :: c in Values(component) ==> c < n && cheapest[c].Some? && Leaves(component, cheapest[c].value, c)
    requires Joined(cheapest, component', n)
    ensures 2 * |Values(component')| <= |Values(component)|
  {
    var mate := seq(n, c requires 0 <= c < n => Mate(component, cheapest, c));
    forall c | c in Values(component)
      ensures c < |mate| && mate[c] < |component'| && mate[c] in Values(component) && mate[c] != c
      ensures component'[mate[c]] == component'[c]
    {
      var e := cheapest[c].value;
      assert component'[component[e.u]] == component'[e.u];
      assert component'[component[e.v]] == component'[e.v];
    }
    CoarseHalving(component, component', mate);
  }

  /** The component at the far end of `c`'s recorded edge (`c` itself when
      it has none). */
  function Mate(component: seq<nat>, cheapest: seq<Option<Edge>>, c: nat): nat
  {
    if c < |cheapest| && cheapest[c].Some? && cheapest[c].value.u < |component| && cheapest[c].value.v < |component| then
      var e := cheapest[c].value;
      if component[e.u] == c then component[e.v] else component[e.u]
    else c
  }

  /** The merge loop's state once the entries below `comp` are visited,
      against the state `component`, `numComponents`, `mst`, `total` it
      started from. */
  ghost predicate MergeInv(n: nat, edges: seq<Edge>, cheapest: seq<Option<Edge>>,
                           component: seq<nat>, numComponents: nat, mst: seq<Edge>, total: int, comp: nat,
                           component': seq<nat>, numComponents': nat, mst': seq<Edge>, total': int)
  {
    && RoundState(n, edges, component', numComponents', mst', total')
    && |mst'| + numComponents' == |mst| + numComponents
    && |mst| <= |mst'| && mst'[..|mst|] == mst
    && (forall k :: |mst| <= k < |mst'| ==> Some(mst'[k]) in cheapest)
    && Coarsens(component, component')
    && Joined(cheapest, component', comp)
    && (|mst'| == |mst| ==>
          component' == component && mst' == mst && total' == total && forall c :: 0 <= c < comp && c < |cheapest| ==> cheapest[c].None?)
  }

  /** The recorded edges of the components below `comp` have both ends
      under one label. */
  ghost predicate Joined(cheapest: seq<Option<Edge>>, labels: seq<nat>, comp: nat)
  {
    forall c :: 0 <= c < comp && c < |cheapest| && cheapest[c].Some? ==>
      cheapest[c].value.u < |labels| && cheapest[c].value.v < |labels| &&
      labels[cheapest[c].value.u] == labels[cheapest[c].value.v]
  }

  /** A merge keeps joined ends joined, and joins the ends it merges. */
  lemma RelabelJoined(cheapest: seq<Option<Edge>>, labels: seq<nat>, comp: nat, e: Edge)
    requires Joined(cheapest, labels, comp) && comp < |cheapest| && cheapest[comp] == Some(e)
    requires e.u < |labels| && e.v < |labels| && labels[e.u] != labels[e.v]
    ensures Joined(cheapest, Relabel(labels, labels[e.u], labels[e.v]), comp + 1)
  {
  }

  /** Lines 34-45 for one component: its recorded edge, if its endpoints
      still carry different labels, is appended and the two components
      are merged. */
  method MergeAt(n: nat, edges: seq<Edge>, cheapest: seq<Option<Edge>>,
                 component: seq<nat>, numComponents: nat, mst: seq<Edge>, total: int, comp: nat,
                 component': seq<nat>, numComponents': nat, mst': seq<Edge>, total': int)
    returns (component'': seq<nat>, numComponents'': nat, mst'': seq<Edge>, total'': int)
    requires ValidEdges(n, edges) && comp < n
    requires |cheapest| == n && forall c :: 0 <= c < n ==> CheapestFor(component, edges, c, cheapest[c])
    requires MergeInv(n, edges, cheapest, component, numComponents, mst, total, comp, component', numComponents', mst', total')
    ensures MergeInv(n, edges, cheapest, component, numComponents, mst, total, comp + 1, component'', numComponents'', mst'', total'')
  {
    component'', numComponents'', mst'', total'' := component', numComponents', mst', total';
    if cheapest[comp].Some? {
      var e := cheapest[comp].value;
      assert CheapestFor(component, edges, comp, cheapest[comp]);
      if component'[e.u] != component'[e.v] {
        var oldComponent, newComponent := component'[e.u], component'[e.v];
        component'' := Relabelled(component', oldComponent, newComponent);
        mst'' := mst' + [e];
        total'' := total' + e.w;
        assert e in edges;
        MergeKeeps(n, edges, component', numComponents', mst', total', e);
        numComponents'' := numComponents' - 1;
        MergeNext(n, edges, cheapest, component, numComponents, mst, total, comp, component', numComponents', mst', total', e,
                  component'', numComponents'', mst'', total'');
      } else {
        MergeSkip(n, edges, cheapest, component, numComponents, mst, total, comp, component', numComponents', mst', total');
      }
    } else {
      MergeSkip(n, edges, cheapest, component, numComponents, mst, total, comp, component', numComponents', mst', total');
    }
  }

  /** The merge pass's invariant after merging along the recorded edge `e`
      of component `comp`. */
  lemma MergeNext(n: nat, edges: seq<Edge>, cheapest: seq<Option<Edge>>,
                  component: seq<nat>, numComponents: nat, mst: seq<Edge>, total: int, comp: nat,
                  component': seq<nat>, numComponents': nat, mst': seq<Edge>, total': int, e: Edge,
                  component'': seq<nat>, numComponents'': nat, mst'': seq<Edge>, total'': int)
    requires ValidEdges(n, edges) && comp < n && |cheapest| == n && cheapest[comp] == Some(e)
    requires CheapestFor(component, edges, comp, cheapest[comp])
    requires MergeInv(n, edges, cheapest, component, numComponents, mst, total, comp, component', numComponents', mst', total')
    requires e.u < |component'| && e.v < |component'| && component'[e.u] != component'[e.v]
    requires component'' == Relabel(component', component'[e.u], component'[e.v])
    requires numComponents'' + 1 == numComponents' && mst'' == mst' + [e] && total'' == total' + e.w
    ensures MergeInv(n, edges, cheapest, component, numComponents, mst, total, comp + 1, component'', numComponents'', mst'', total'')
  {
    assert e in edges;
    MergeKeeps(n, edges, component', numComponents', mst', total', e);
    AppendCheapest(mst, mst', e, cheapest, comp);
    RelabelCoarsens(component, component', component'[e.u], component'[e.v]);
    RelabelJoined(cheapest, component', comp, e);
  }

  /** Appending component `comp`'s recorded edge keeps the round's edges
      an extension made of recorded edges. */
  lemma AppendCheapest(mst: seq<Edge>, mst': seq<Edge>, e: Edge, cheapest: seq<Option<Edge>>, comp: nat)
    requires |mst| <= |mst'| && mst'[..|mst|] == mst
    requires forall k :: |mst| <= k < |mst'| ==> Some(mst'[k]) in cheapest
    requires comp < |cheapest| && cheapest[comp] == Some(e)
    ensures (mst' + [e])[..|mst|] == mst
    ensures forall k :: |mst| <= k < |mst' + [e]| ==> Some((mst' + [e])[k]) in cheapest
  {
    assert (mst' + [e])[..|mst'|] == mst';
  }

  /** The merge pass's invariant when component `comp` has no recorded
      edge or its ends already carry one label. */
  lemma MergeSkip(n: nat, edges: seq<Edge>, cheapest: seq<Option<Edge>>,
                  component: seq<nat>, numComponents: nat, mst: seq<Edge>, total: int, comp: nat,
                  component': seq<nat>, numComponents': nat, mst': seq<Edge>, total': int)
    requires ValidEdges(n, edges) && comp < n && |cheapest| == n
    requires CheapestFor(component, edges, comp, cheapest[comp])
    requires MergeInv(n, edges, cheapest, component, numComponents, mst, total, comp, component', numComponents', mst', total')
    requires cheapest[comp].Some? ==> component'[cheapest[comp].value.u] == component'[cheapest[comp].value.v]
    ensures MergeInv(n, edges, cheapest, component, numComponents, mst, total, comp + 1, component', numComponents', mst', total')
  {
  }

  /** One merge (lines 36-45): appending an edge between two components and
      relabelling one into the other keeps the round state, with one
      component fewer. */
  lemma MergeKeeps(n: nat, edges: seq<Edge>, component: seq<nat>, numComponents: nat, mst: seq<Edge>, total: int, e: Edge)
    requires ValidEdges(n, edges) && e in edges && RoundState(n, edges, component, numComponents, mst, total)
    requires component[e.u] != component[e.v]
    ensures numComponents >= 2
    ensures RoundState(n, edges, Relabel(component, component[e.u], component[e.v]), numComponents - 1, mst + [e], total + e.w)
  {
    var labels := Relabel(component, component[e.u], component[e.v]);
    var f := mst + [e];
    TwoValues(component, e.u, e.v);
    assert IsForest(f) by {
      ExactReach(n, component, mst, e.u, e.v);
      ForestAppend(mst, e);
    }
    assert Exact(n, labels, f) && |Values(labels)| == numComponents - 1 by {
      MergeExact(n, component, mst, e, component[e.u], component[e.v]);
    }
    assert LabelsAreNodes(n, labels);
    assert Representative(labels) by {
      RelabelRepresentative(component, e.u, e.v);
    }
    assert SubEdges(f, edges);
    assert total + e.w == SumW(f) by {
      SumWAppend(mst, e);
    }
  }

  /** `boruvka_mst(G)` on a connected graph: a spanning tree of input
      edges with `n - 1` edges and its total weight. */
  method BoruvkaMst(n: nat, edges: seq<Edge>) returns (mst: seq<Edge>, total: int)
    requires ValidGraph(n, edges) && Connected(n, edges)
    ensures IsForest(mst) && SubEdges(mst, edges) && total == SumW(mst)
    ensures n == 0 ==> mst == []
    ensures n > 0 ==> |mst| == n - 1 && Connected(n, mst)
  {
    var numComponents := n;
    var component := Identity(n);
    mst, total := [], 0;
    InitialState(n, edges);
    while numComponents > 1
      invariant RoundState(n, edges, component, numComponents, mst, total)
      invariant |mst| + numComponents == n
      decreases numComponents
    {
      var cheapest := CheapestEdges(n, edges, component);
      CrossingLabel(n, component, edges);
      ghost var e :| e in edges && component[e.u] != component[e.v];
      assert CheapestFor(component, edges, component[e.u], cheapest[component[e.u]]);
      component, numComponents, mst, total := MergeCheapest(n, edges, cheapest, component, numComponents, mst, total);
    }
    if n > 0 {
      SingleComponent(n, component, mst);
    }
  }

  /** Lines 12-15: every node its own component, `n` components, no edges. */
  lemma InitialState(n: nat, edges: seq<Edge>)
    ensures RoundState(n, edges, Identity(n), n, [], 0)
  {
    var id := Identity(n);
    forall a: nat, b: nat | a < n && b < n && id[a] == id[b]
      ensures Reach([], a, b)
    {
      ReachRefl([], a);
    }
  }

  /** One label left: the forest connects every two nodes. */
  lemma SingleComponent(n: nat, component: seq<nat>, mst: seq<Edge>)
    requires n > 0 && Exact(n, component, mst) && |Values(component)| <= 1
    ensures |Values(component)| == 1 && Connected(n, mst)
  {
    assert component[0] in Values(component);
    forall a: nat, b: nat | a < n && b < n
      ensures Reach(mst, a, b)
    {
      if component[a] != component[b] {
        TwoValues(component, a, b);
      }
    }
  }

  /** Why the loop of line 17 needs a connected graph: when the edges leave
      two nodes unconnected, whatever forest of input edges the rounds have
      built, its exact labelling still has two labels, so `num_components`
      never drops to 1. */
  lemma DisconnectedNeverSingle(n: nat, edges: seq<Edge>, component: seq<nat>, mst: seq<Edge>)
    requires Exact(n, component, mst) && SubEdges(mst, edges) && !Connected(n, edges)
    ensures |Values(component)| > 1
  {
    var a: nat, b: nat :| a < n && b < n && !Reach(edges, a, b);
    if Reach(mst, a, b) {
      ReachMono(mst, edges, a, b);
    }
    ExactReach(n, component, mst, a, b);
    TwoValues(component, a, b);
  }
}
