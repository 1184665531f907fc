/** Node labellings: a label per node naming its component. Borůvka keeps
    one explicitly (`component`), the union-find keeps one implicitly (the
    root of every node). A labelling is exact for an edge list when two
    nodes carry the same label precisely when a walk joins them. */
module Partition {
  import opened Graphs
  import opened Walks

  /** Every node carrying `from` is given `to`; the others keep theirs. */
  function Relabel(labels: seq<nat>, from: nat, to: nat): seq<nat>
  {
    seq(|labels|, i requires 0 <= i < |labels| => if labels[i] == from then to else labels[i])
  }

  /** The label values in use, i.e. the components. */
  function Values(labels: seq<nat>): set<nat>
  {
    set i | 0 <= i < |labels| :: labels[i]
  }

  /** The initial labelling: every node is its own component. */
  function Identity(n: nat): (labels: seq<nat>)
    ensures |labels| == n && Values(labels) == Nodes(n)
  {
    var labels := seq(n, i requires 0 <= i < n => i);
    assert forall x :: x in Nodes(n) ==> labels[x] == x;
    labels
  }

  /** Both endpoints of every edge carry the same label. */
  ghost predicate Consistent(labels: seq<nat>, es: seq<Edge>)
  {
    forall e :: e in es ==> e.u < |labels| && e.v < |labels| && labels[e.u] == labels[e.v]
  }

  /** The labels are exactly the connected components of `es` over `0..n-1`. */
  ghost predicate Exact(n: nat, labels: seq<nat>, es: seq<Edge>)
  {
    && |labels| == n
    && Consistent(labels, es)
    && forall a: nat, b: nat {:trigger Reach(es, a, b)} :: a < n && b < n && labels[a] == labels[b] ==> Reach(es, a, b)
  }

  /** A walk never leaves a class of a consistent labelling. */
  lemma {:induction false} ConsistentReach(labels: seq<nat>, es: seq<Edge>, a: nat, b: nat)
    requires Consistent(labels, es) && a < |labels| && Reach(es, a, b)
    ensures b < |labels| && labels[a] == labels[b]
  {
    var p :| WalkBetween(es, p, a, b);
    var i := 0;
    while i < |p| - 1
      invariant 0 <= i <= |p| - 1 && p[i] < |labels| && labels[p[i]] == labels[a]
    {
      assert Step(es, p[i], p[i + 1]);
      i := i + 1;
    }
  }

  /** For an exact labelling, reachability and equal labels coincide. */
  lemma ExactReach(n: nat, labels: seq<nat>, es: seq<Edge>, a: nat, b: nat)
    requires Exact(n, labels, es) && a < n && b < n
    ensures Reach(es, a, b) <==> labels[a] == labels[b]
  {
    if Reach(es, a, b) {
      ConsistentReach(labels, es, a, b);
    }
  }

  /** On a connected graph, a labelling with two classes has an edge
      between different classes. */
  lemma CrossingLabel(n: nat, labels: seq<nat>, es: seq<Edge>)
    requires ValidEdges(n, es) && Connected(n, es)
    requires |labels| == n && |Values(labels)| > 1
    ensures exists e :: e in es && labels[e.u] != labels[e.v]
  {
    var s := Values(labels);
    var x :| x in s;
    assert s == (s - {x}) + {x};
    var y :| y in s - {x};
    var a :| 0 <= a < n && labels[a] == x;
    var b :| 0 <= b < n && labels[b] == y;
    if Consistent(labels, es) {
      ConsistentReach(labels, es, a, b);
    }
  }

  /** Labels of nodes below `n` are node ids below `n`. */
  ghost predicate LabelsAreNodes(n: nat, labels: seq<nat>)
  {
    |labels| == n && forall i :: 0 <= i < n ==> labels[i] < n
  }

  /** Every label in use is carried by the node of that id: a label names
      its component by one of its members. */
  ghost predicate Representative(labels: seq<nat>)
  {
    forall c :: c in Values(labels) ==> c < |labels| && labels[c] == c
  }

  /** `coarse` only ever joins classes of `labels`: a node carries the same
      `coarse` label as its representative. */
  ghost predicate Coarsens(labels: seq<nat>, coarse: seq<nat>)
  {
    && |coarse| == |labels|
    && forall i :: 0 <= i < |labels| ==> labels[i] < |labels| && coarse[i] == coarse[labels[i]]
  }

  /** Relabelling one class to another label in use keeps every label a
      representative. */
  lemma RelabelRepresentative(labels: seq<nat>, a: nat, b: nat)
    requires Representative(labels) && a < |labels| && b < |labels|
    ensures Representative(Relabel(labels, labels[a], labels[b]))
  {
    var from, to := labels[a], labels[b];
    var r := Relabel(labels, from, to);
    assert to in Values(labels);
    forall c | c in Values(r)
      ensures c < |r| && r[c] == c
    {
      var i :| 0 <= i < |r| && r[i] == c;
      if labels[i] != from {
        assert labels[i] in Values(labels);
      }
    }
  }

  /** Relabelling only joins classes, so it keeps a coarsening one. */
  lemma RelabelCoarsens(base: seq<nat>, labels: seq<nat>, from: nat, to: nat)
    requires Coarsens(base, labels)
    ensures Coarsens(base, Relabel(labels, from, to))
  {
  }

  /** The labels `f` gives to the members of `s`. */
  function Image(s: set<nat>, f: seq<nat>): set<nat>
    requires forall x :: x in s ==> x < |f|
  {
    set x | x in s :: f[x]
  }

  /** If every member `x` of `s` shares its `f`-label with another member
      `mate[x]`, the `f`-labels number at most half of `s`. */
  lemma {:induction false} FiberHalving(s: set<nat>, f: seq<nat>, mate: seq<nat>)
    requires Mated(s, f, mate)
    ensures 2 * |Image(s, f)| <= |s|
    decreases |s|
  {
    if s != {} {
      var x :| x in s;
      var fiber := Fiber(s, f, f[x]);
      FiberRest(s, f, mate, x);
      FiberHalving(s - fiber, f, mate);
      ImageSplit(s, f, f[x]);
      AddCard(Image(s - fiber, f), f[x]);
    }
  }

  /** Every member `x` of `s` shares its `f`-label with another member
      `mate[x]`. */
  ghost predicate Mated(s: set<nat>, f: seq<nat>, mate: seq<nat>)
  {
    forall x :: x in s ==> x < |f| && x < |mate| && mate[x] < |f| && mate[x] in s && mate[x] != x && f[mate[x]] == f[x]
  }

  /** Taking out the members labelled like `x` takes out at least two of
      them and leaves the rest mated. */
  lemma FiberRest(s: set<nat>, f: seq<nat>, mate: seq<nat>, x: nat)
    requires Mated(s, f, mate) && x in s
    ensures Mated(s - Fiber(s, f, f[x]), f, mate)
    ensures |s - Fiber(s, f, f[x])| + 2 <= |s|
  {
    var fiber := Fiber(s, f, f[x]);
    assert mate[x] in fiber;
    FiberCard(fiber, x, mate[x]);
    SubsetCard(fiber, s);
  }

  /** The members of `s` labelled `y`. */
  function Fiber(s: set<nat>, f: seq<nat>, y: nat): set<nat>
    requires forall x :: x in s ==> x < |f|
  {
    set x | x in s && f[x] == y
  }

  lemma FiberCard(fiber: set<nat>, x: nat, y: nat)
    requires x in fiber && y in fiber && x != y
    ensures |fiber| >= 2
  {
    SubsetCard({x, y}, fiber);
  }

  /** Removing the members labelled `y` removes exactly `y` from the image. */
  lemma ImageSplit(s: set<nat>, f: seq<nat>, y: nat)
    requires forall x :: x in s ==> x < |f|
    requires y in Image(s, f)
    ensures Image(s, f) == Image(s - Fiber(s, f, y), f) + {y}
    ensures y !in Image(s - Fiber(s, f, y), f)
  {
    var rest := s - Fiber(s, f, y);
    forall z | z in Image(s, f)
      ensures z in Image(rest, f) + {y}
    {
      var x :| x in s && f[x] == z;
      if z != y {
        assert x in rest;
      }
    }
  }

  /** A coarsening in which every class `c` of `labels` shares its new
      label with another class `mate[c]` has at most half as many labels. */
  lemma CoarseHalving(labels: seq<nat>, coarse: seq<nat>, mate: seq<nat>)
    requires Representative(labels) && Coarsens(labels, coarse)
    requires forall c :: c in Values(labels) ==>
      c < |mate| && mate[c] < |coarse| && mate[c] in Values(labels) && mate[c] != c && coarse[mate[c]] == coarse[c]
    ensures 2 * |Values(coarse)| <= |Values(labels)|
  {
    var s := Values(labels);
    FiberHalving(s, coarse, mate);
    forall y | y in Values(coarse)
      ensures y in Image(s, coarse)
    {
      var i :| 0 <= i < |coarse| && coarse[i] == y;
      assert labels[i] in s;
    }
    forall y | y in Image(s, coarse)
      ensures y in Values(coarse)
    {
      var c :| c in s && coarse[c] == y;
    }
    assert Values(coarse) == Image(s, coarse);
  }

  /** Two nodes with different labels mean at least two label values. */
  lemma TwoValues(labels: seq<nat>, i: nat, j: nat)
    requires i < |labels| && j < |labels| && labels[i] != labels[j]
    ensures |Values(labels)| >= 2
  {
    var s := Values(labels);
    assert labels[i] in s && labels[j] in s - {labels[i]};
    assert s == (s - {labels[i]}) + {labels[i]};
  }

  /** Merging two distinct classes removes exactly one label value. */
  lemma RelabelValues(labels: seq<nat>, from: nat, to: nat)
    requires from in Values(labels) && to in Values(labels) && from != to
    ensures Values(Relabel(labels, from, to)) == Values(labels) - {from}
    ensures |Values(Relabel(labels, from, to))| == |Values(labels)| - 1
  {
    var r := Relabel(labels, from, to);
    forall x | x in Values(labels) - {from}
      ensures x in Values(r)
    {
      var i :| 0 <= i < |labels| && labels[i] == x;
      assert r[i] == x;
    }
  }

  /** Adding an edge between two different classes and merging those two
      classes (in either direction) keeps the labelling exact. */
  lemma MergeExact(n: nat, labels: seq<nat>, es: seq<Edge>, e: Edge, from: nat, to: nat)
    requires Exact(n, labels, es) && e.u < n && e.v < n
    requires labels[e.u] != labels[e.v]
    requires (from == labels[e.u] && to == labels[e.v]) || (from == labels[e.v] && to == labels[e.u])
    ensures Exact(n, Relabel(labels, from, to), es + [e])
    ensures |Values(Relabel(labels, from, to))| == |Values(labels)| - 1
  {
    var r := Relabel(labels, from, to);
    var es' := es + [e];
    assert SubEdges(es, es');
    forall a: nat, b: nat | a < n && b < n && r[a] == r[b]
      ensures Reach(es', a, b)
    {
      if labels[a] == labels[b] {
        ReachMono(es, es', a, b);
      } else {
        // a and b lie in the two classes that were merged
        assert e in es';
        if labels[a] == labels[e.u] {
          assert labels[b] == labels[e.v];
          ReachMono(es, es', a, e.u);
          ReachMono(es, es', e.v, b);
          ReachStep(es', a, e.u, e.v);
          ReachTrans(es', a, e.v, b);
        } else {
          assert labels[a] == labels[e.v] && labels[b] == labels[e.u];
          ReachMono(es, es', a, e.v);
          ReachMono(es, es', e.u, b);
          ReachStep(es', a, e.v, e.u);
          ReachTrans(es', a, e.u, b);
        }
      }
    }
    assert Consistent(r, es');
    assert from in Values(labels) && to in Values(labels);
    RelabelValues(labels, from, to);
  }

  /** Each edge joins two nodes that the earlier edges do not connect:
      the edges never close a cycle. */
  ghost predicate IsForest(f: seq<Edge>)
  {
    forall k :: 0 <= k < |f| ==> !Reach(f[..k], f[k].u, f[k].v)
  }

  /** An edge between two nodes the forest does not connect extends it. */
  lemma ForestAppend(f: seq<Edge>, e: Edge)
    requires IsForest(f) && !Reach(f, e.u, e.v)
    ensures IsForest(f + [e])
  {
    var g := f + [e];
    assert g[..|f|] == f;
    assert forall k :: 0 <= k < |f| ==> g[..k] == f[..k];
  }

  /** Components of a forest, built edge by edge as Borůvka does. */
  ghost function ForestLabels(n: nat, f: seq<Edge>): seq<nat>
  {
    if f == [] then Identity(n)
    else
      var labels := ForestLabels(n, f[..|f| - 1]);
      var e := f[|f| - 1];
      if e.u < |labels| && e.v < |labels| then Relabel(labels, labels[e.u], labels[e.v]) else labels
  }

  lemma {:induction false} ForestExact(n: nat, f: seq<Edge>)
    requires ValidEdges(n, f) && IsForest(f)
    ensures Exact(n, ForestLabels(n, f), f)
    ensures |Values(ForestLabels(n, f))| + |f| == n
  {
    if f == [] {
      var id := Identity(n);
      forall a: nat, b: nat | a < n && b < n && id[a] == id[b]
        ensures Reach(f, a, b)
      {
        ReachRefl(f, a);
      }
    } else {
      var g := f[..|f| - 1];
      var e := f[|f| - 1];
      assert f == g + [e];
      assert forall k :: 0 <= k < |g| ==> g[..k] == f[..k];
      assert e in f;
      ForestExact(n, g);
      var labels := ForestLabels(n, g);
      assert !Reach(g, e.u, e.v) by { assert f[..|g|] == g; }
      ExactReach(n, labels, g, e.u, e.v);
      MergeExact(n, labels, g, e, labels[e.u], labels[e.v]);
    }
  }

  /** A forest over `n` nodes has at most `n - 1` edges, and exactly `n - 1`
      when it connects all nodes. */
  lemma ForestEdgeCount(n: nat, f: seq<Edge>)
    requires ValidEdges(n, f) && IsForest(f)
    ensures n == 0 ==> f == []
    ensures n > 0 ==> |f| <= n - 1
    ensures n > 0 && Connected(n, f) ==> |f| == n - 1
  {
    ForestExact(n, f);
    var labels := ForestLabels(n, f);
    if n > 0 {
      assert labels[0] in Values(labels);
      if Connected(n, f) {
        forall x | x in Values(labels)
          ensures x == labels[0]
        {
          var i :| 0 <= i < |labels| && labels[i] == x;
          ExactReach(n, labels, f, 0, i);
        }
        assert Values(labels) == {labels[0]};
      }
    }
  }
}
