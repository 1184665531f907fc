/** Reachability in an undirected edge list: the predicate that stands for
    `nx.is_connected` and for "the endpoints are already in one tree". */
module Walks {
  import opened Graphs

  /** Some edge of `es` joins `a` and `b`. */
  ghost predicate Step(es: seq<Edge>, a: nat, b: nat)
  {
    exists e :: e in es && Joins(e, a, b)
  }

  /** `p` is a walk from `a` to `b` along edges of `es`. */
  ghost predicate WalkBetween(es: seq<Edge>, p: seq<nat>, a: nat, b: nat)
  {
    && |p| > 0 && p[0] == a && p[|p| - 1] == b
    && forall i :: 0 <= i < |p| - 1 ==> Step(es, p[i], p[i + 1])
  }

  /** `b` can be reached from `a` along edges of `es`. */
  ghost predicate Reach(es: seq<Edge>, a: nat, b: nat)
  {
    exists p :: WalkBetween(es, p, a, b)
  }

  /** Every two of the nodes `0..n-1` are joined by a walk. */
  ghost predicate Connected(n: nat, es: seq<Edge>)
  {
    forall a: nat, b: nat :: a < n && b < n ==> Reach(es, a, b)
  }

  /** Every two nodes of `nodes` are joined by a walk. */
  ghost predicate ConnectedOn(nodes: set<nat>, es: seq<Edge>)
  {
    forall a: nat, b: nat :: a in nodes && b in nodes ==> Reach(es, a, b)
  }

  lemma ReachRefl(es: seq<Edge>, a: nat)
    ensures Reach(es, a, a)
  {
    assert WalkBetween(es, [a], a, a);
  }

  lemma ReachStep(es: seq<Edge>, a: nat, b: nat, c: nat)
    requires Reach(es, a, b) && Step(es, b, c)
    ensures Reach(es, a, c)
  {
    var p :| WalkBetween(es, p, a, b);
    var q := p + [c];
    assert forall i :: 0 <= i < |q| - 1 ==> q[i] == p[i];
    assert WalkBetween(es, q, a, c);
  }

  lemma ReachEdge(es: seq<Edge>, e: Edge)
    requires e in es
    ensures Reach(es, e.u, e.v) && Reach(es, e.v, e.u)
  {
    ReachRefl(es, e.u);
    ReachStep(es, e.u, e.u, e.v);
    ReachRefl(es, e.v);
    ReachStep(es, e.v, e.v, e.u);
  }

  lemma ReachTrans(es: seq<Edge>, a: nat, b: nat, c: nat)
    requires Reach(es, a, b) && Reach(es, b, c)
    ensures Reach(es, a, c)
  {
    var p :| WalkBetween(es, p, a, b);
    var q :| WalkBetween(es, q, b, c);
    var r := p + q[1..];
    forall i | 0 <= i < |r| - 1
      ensures Step(es, r[i], r[i + 1])
    {
      if i < |p| - 1 {
        assert r[i] == p[i] && r[i + 1] == p[i + 1];
      } else {
        assert r[i] == q[i - |p| + 1] && r[i + 1] == q[i - |p| + 2];
      }
    }
    assert WalkBetween(es, r, a, c);
  }

  lemma ReachSym(es: seq<Edge>, a: nat, b: nat)
    requires Reach(es, a, b)
    ensures Reach(es, b, a)
  {
    var p :| WalkBetween(es, p, a, b);
    var q := seq(|p|, i requires 0 <= i < |p| => p[|p| - 1 - i]);
    forall i | 0 <= i < |q| - 1
      ensures Step(es, q[i], q[i + 1])
    {
      var k := |p| - 2 - i;
      assert Step(es, p[k], p[k + 1]);
      var e :| e in es && Joins(e, p[k], p[k + 1]);
      assert Joins(e, q[i], q[i + 1]);
    }
    assert WalkBetween(es, q, b, a);
  }

  /** Reachability only grows when edges are added. */
  lemma ReachMono(es: seq<Edge>, fs: seq<Edge>, a: nat, b: nat)
    requires SubEdges(es, fs) && Reach(es, a, b)
    ensures Reach(fs, a, b)
  {
    var p :| WalkBetween(es, p, a, b);
    forall i | 0 <= i < |p| - 1
      ensures Step(fs, p[i], p[i + 1])
    {
      assert Step(es, p[i], p[i + 1]);
    }
    assert WalkBetween(fs, p, a, b);
  }

  lemma ConnectedMono(n: nat, es: seq<Edge>, fs: seq<Edge>)
    requires SubEdges(es, fs) && Connected(n, es)
    ensures Connected(n, fs)
  {
    forall a: nat, b: nat | a < n && b < n
      ensures Reach(fs, a, b)
    {
      ReachMono(es, fs, a, b);
    }
  }

  /** When every edge of `es` has its endpoints connected in `fs`, every
      walk of `es` can be rerouted through `fs`. */
  lemma {:induction false} ReachSubsume(es: seq<Edge>, fs: seq<Edge>, a: nat, b: nat)
    requires forall e :: e in es ==> Reach(fs, e.u, e.v)
    requires Reach(es, a, b)
    ensures Reach(fs, a, b)
  {
    var p :| WalkBetween(es, p, a, b);
    WalkSubsume(es, fs, p);
  }

  lemma {:induction false} WalkSubsume(es: seq<Edge>, fs: seq<Edge>, p: seq<nat>)
    requires forall e :: e in es ==> Reach(fs, e.u, e.v)
    requires |p| > 0 && WalkBetween(es, p, p[0], p[|p| - 1])
    ensures Reach(fs, p[0], p[|p| - 1])
    decreases |p|
  {
    if |p| == 1 {
      ReachRefl(fs, p[0]);
    } else {
      var q := p[..|p| - 1];
      assert WalkBetween(es, q, q[0], q[|q| - 1]);
      WalkSubsume(es, fs, q);
      var x, y := p[|p| - 2], p[|p| - 1];
      assert Step(es, x, y);
      var e :| e in es && Joins(e, x, y);
      if e.u == x {
        ReachTrans(fs, p[0], x, y);
      } else {
        ReachSym(fs, e.u, e.v);
        ReachTrans(fs, p[0], x, y);
      }
    }
  }

  lemma ConnectedSubsume(n: nat, es: seq<Edge>, fs: seq<Edge>)
    requires forall e :: e in es ==> Reach(fs, e.u, e.v)
    requires Connected(n, es)
    ensures Connected(n, fs)
  {
    forall a: nat, b: nat | a < n && b < n
      ensures Reach(fs, a, b)
    {
      ReachSubsume(es, fs, a, b);
    }
  }

  /** With no edges, a node reaches only itself. */
  lemma ReachEmpty(a: nat, b: nat)
    requires Reach([], a, b)
    ensures a == b
  {
    ReachClosed([], {a}, a, b);
  }

  /** A node set closed under the edges contains everything reachable from
      its members. */
  lemma {:induction false} ReachClosed(es: seq<Edge>, s: set<nat>, a: nat, b: nat)
    requires forall e :: e in es ==> (e.u in s <==> e.v in s)
    requires a in s && Reach(es, a, b)
    ensures b in s
  {
    var p :| WalkBetween(es, p, a, b);
    var i := 0;
    while i < |p| - 1
      invariant 0 <= i <= |p| - 1 && p[i] in s
    {
      assert Step(es, p[i], p[i + 1]);
      i := i + 1;
    }
  }

  /** Connectivity from one node is connectivity of the whole graph. */
  lemma ConnectedFromZero(n: nat, es: seq<Edge>)
    requires n > 0
    requires forall b: nat :: b < n ==> Reach(es, 0, b)
    ensures Connected(n, es)
  {
    forall a: nat, b: nat | a < n && b < n
      ensures Reach(es, a, b)
    {
      ReachSym(es, 0, a);
      ReachTrans(es, a, 0, b);
    }
  }
}
