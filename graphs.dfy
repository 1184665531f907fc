/** Weighted undirected graphs over the node ids 0..n-1, given as an edge
    list in enumeration order. Shared by every algorithm of the project. */
module Graphs {

  datatype Option<T> = None | Some(value: T)

  /** One undirected edge `(u, v, weight)` as the graph enumerates it. */
  datatype Edge = Edge(u: nat, v: nat, w: int)

  /** `e` connects `a` and `b`, in either orientation. */
  predicate Joins(e: Edge, a: nat, b: nat)
  {
    (e.u == a && e.v == b) || (e.u == b && e.v == a)
  }

  /** `e` and `f` connect the same unordered pair of nodes. */
  predicate SamePair(e: Edge, f: Edge)
  {
    Joins(f, e.u, e.v)
  }

  /** `e` has `x` as one of its endpoints. */
  predicate Touches(e: Edge, x: nat)
  {
    e.u == x || e.v == x
  }

  /** Every edge joins two different existing nodes. */
  ghost predicate ValidEdges(n: nat, es: seq<Edge>)
  {
    forall e :: e in es ==> e.u < n && e.v < n && e.u != e.v
  }

  /** No unordered pair carries two edges (a simple graph). */
  ghost predicate Simple(es: seq<Edge>)
  {
    forall i, j :: 0 <= i < j < |es| ==> !SamePair(es[i], es[j])
  }

  /** The graphs the algorithms receive: nodes `0..n-1`, a simple edge list. */
  ghost predicate ValidGraph(n: nat, es: seq<Edge>)
  {
    ValidEdges(n, es) && Simple(es)
  }

  /** An edge whose pair no edge of a simple list carries can go in front. */
  lemma ConsSimple(a: Edge, t: seq<Edge>)
    requires Simple(t) && forall f :: f in t ==> !SamePair(a, f)
    ensures Simple([a] + t)
  {
    var r := [a] + t;
    forall i, j | 0 <= i < j < |r|
      ensures !SamePair(r[i], r[j])
    {
      assert r[j] == t[j - 1];
      if i > 0 {
        assert r[i] == t[i - 1];
      }
    }
  }

  /** An edge sharing no pair with a simple list can go at its end. */
  lemma AppendSimple(k: seq<Edge>, e: Edge)
    requires Simple(k) && forall g :: g in k ==> !SamePair(g, e)
    ensures Simple(k + [e])
  {
    var f := k + [e];
    forall i, j | 0 <= i < j < |f|
      ensures !SamePair(f[i], f[j])
    {
      assert f[i] == k[i];
      if j < |k| {
        assert f[j] == k[j];
      }
    }
  }

  lemma SimpleTail(s: seq<Edge>)
    requires Simple(s) && s != []
    ensures Simple(s[1..])
    ensures forall f :: f in s[1..] ==> !SamePair(s[0], f)
  {
    forall f | f in s[1..]
      ensures !SamePair(s[0], f)
    {
      var j :| 0 <= j < |s[1..]| && s[1..][j] == f;
      assert s[j + 1] == f;
    }
  }

  /** Every edge of `a` is also an edge of `b`. */
  ghost predicate SubEdges(a: seq<Edge>, b: seq<Edge>)
  {
    forall e :: e in a ==> e in b
  }

  /** Total weight of an edge list (the `total_weight` accumulators). */
  function SumW(es: seq<Edge>): int
  {
    if es == [] then 0 else SumW(es[..|es| - 1]) + es[|es| - 1].w
  }

  lemma SumWAppend(es: seq<Edge>, e: Edge)
    ensures SumW(es + [e]) == SumW(es) + e.w
  {
    assert (es + [e])[..|es|] == es;
  }

  lemma {:induction false} SumWConcat(a: seq<Edge>, b: seq<Edge>)
    ensures SumW(a + b) == SumW(a) + SumW(b)
  {
    if b == [] {
      assert a + b == a;
    } else {
      var c := b[..|b| - 1];
      SumWConcat(a, c);
      assert (a + b)[..|a + b| - 1] == a + c;
      assert (a + b)[|a + b| - 1] == b[|b| - 1];
      assert SumW(b) == SumW(c) + b[|b| - 1].w;
    }
  }

  /** The node set `{0, ..., n-1}`. */
  function Nodes(n: nat): (s: set<nat>)
    ensures forall x: nat :: x in s <==> x < n
    ensures |s| == n
  {
    if n == 0 then {} else Nodes(n - 1) + {n - 1}
  }

  lemma AddCard<T>(a: set<T>, x: T)
    requires x !in a
    ensures |a + {x}| == |a| + 1
  {
  }

  lemma SubsetCard<T>(a: set<T>, b: set<T>)
    requires a <= b
    ensures |a| <= |b| && |b - a| == |b| - |a|
  {
    assert b == a + (b - a);
    assert a * (b - a) == {};
  }

  /** A set of node ids below `n` with `n` elements is the whole node set. */
  lemma FullNodeSet(n: nat, s: set<nat>)
    requires forall x :: x in s ==> x < n
    requires |s| >= n
    ensures s == Nodes(n)
  {
    assert s <= Nodes(n);
    assert |Nodes(n) - s| == |Nodes(n)| - |s|;
  }
}
