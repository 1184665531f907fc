/** `prim_mst` of prim.py: lazy Prim from node 0 over a min-heap of
    `(weight, u, v)` entries, with a set of sorted node pairs that keeps an
    edge from being pushed twice. Heap entries and accepted edges are both
    `Edge(u, v, w)` values whose `u` is the visited end. */
module Prim {
  import opened Graphs
  import opened Walks
  import opened Partition

  /** The order `heapq` pops in: tuples `(weight, u, v)` compared
      lexicographically. */
  predicate HeapLe(a: Edge, b: Edge)
  {
    a.w < b.w || (a.w == b.w && (a.u < b.u || (a.u == b.u && a.v <= b.v)))
  }

  /** `tuple(sorted((a, b)))`, the key of `seen_edges`. */
  function Norm(a: nat, b: nat): (p: (nat, nat))
    ensures p.0 <= p.1 && ((p.0 == a && p.1 == b) || (p.0 == b && p.1 == a))
  {
    if a <= b then (a, b) else (b, a)
  }

  function Pair(e: Edge): (nat, nat)
  {
    Norm(e.u, e.v)
  }

  /** Two edges share a key exactly when they join the same two nodes. */
  lemma PairSame(e: Edge, f: Edge)
    ensures Pair(e) == Pair(f) <==> SamePair(e, f)
  {
  }

  /** `h` is an edge of the graph, in either orientation, with its weight. */
  ghost predicate EdgeOf(edges: seq<Edge>, h: Edge)
  {
    exists e :: e in edges && SamePair(e, h) && e.w == h.w
  }

  /** In a simple graph an unordered pair determines its edge. */
  lemma SimpleUnique(edges: seq<Edge>, e: Edge, f: Edge)
    requires Simple(edges) && e in edges && f in edges && SamePair(e, f)
    ensures e == f
  {
    var i :| 0 <= i < |edges| && edges[i] == e;
    var j :| 0 <= j < |edges| && edges[j] == f;
    assert Joins(edges[j], edges[i].u, edges[i].v) && Joins(edges[i], edges[j].u, edges[j].v);
  }

  /** `heapq.heappop`: removes and returns a least entry. */
  method HeapPop(heap: seq<Edge>) returns (x: Edge, rest: seq<Edge>)
    requires |heap| > 0
    ensures x in heap && forall h :: h in heap ==> HeapLe(x, h)
    ensures multiset(rest) + multiset{x} == multiset(heap) && |rest| == |heap| - 1
  {
    var m := 0;
    for i := 1 to |heap|
      invariant 0 <= m < |heap|
      invariant forall k :: 0 <= k < i ==> HeapLe(heap[m], heap[k])
    {
      if !HeapLe(heap[m], heap[i]) {
        m := i;
      }
    }
    x := heap[m];
    rest := heap[..m] + heap[m + 1..];
    assert heap == heap[..m] + [x] + heap[m + 1..];
  }

  /** What one push loop does to the heap and to `seen_edges`: it appends
      entries from `x` to unvisited nodes along graph edges whose pairs were
      not recorded, no pair twice, records exactly those pairs, and leaves
      no edge at `x` with an unvisited end unrecorded. */
  ghost predicate PushedFrom(edges: seq<Edge>, x: nat, visited: set<nat>, heap: seq<Edge>, seen: set<(nat, nat)>,
                             heap': seq<Edge>, seen': set<(nat, nat)>)
  {
    && |heap| <= |heap'| && heap'[..|heap|] == heap
    && (forall i :: |heap| <= i < |heap'| ==>
          heap'[i].u == x && heap'[i].v !in visited && EdgeOf(edges, heap'[i]) && Pair(heap'[i]) !in seen)
    && (forall i, j :: |heap| <= i < j < |heap'| ==> Pair(heap'[i]) != Pair(heap'[j]))
    && (forall p :: p in seen' <==> p in seen || exists i :: |heap| <= i < |heap'| && Pair(heap'[i]) == p)
    && (forall e :: e in edges && Touches(e, x) && !(e.u in visited && e.v in visited) ==> Pair(e) in seen')
  }

  /** The push loop's state after scanning the first `j` edges: `PushedFrom`
      with its last clause restricted to those edges. */
  ghost predicate PushInv(edges: seq<Edge>, x: nat, visited: set<nat>, heap: seq<Edge>, seen: set<(nat, nat)>,
                          heap': seq<Edge>, seen': set<(nat, nat)>, j: nat)
  {
    && |heap| <= |heap'| && heap'[..|heap|] == heap
    && (forall i :: |heap| <= i < |heap'| ==>
          heap'[i].u == x && heap'[i].v !in visited && EdgeOf(edges, heap'[i]) && Pair(heap'[i]) !in seen)
    && (forall i, k :: |heap| <= i < k < |heap'| ==> Pair(heap'[i]) != Pair(heap'[k]))
    && (forall p :: p in seen' <==> p in seen || exists i :: |heap| <= i < |heap'| && Pair(heap'[i]) == p)
    && (forall k :: 0 <= k < j && k < |edges| && Touches(edges[k], x) && !(edges[k].u in visited && edges[k].v in visited) ==> Pair(edges[k]) in seen')
  }

  /** `heapq.heappush` of every edge at `x` whose far end is unvisited and
      whose pair is not yet in `seen_edges`, which then records it (lines
      19-23 for the start node, 34-38 for a newly visited node). */
  method PushNeighbours(n: nat, edges: seq<Edge>, x: nat, visited: set<nat>, heap: seq<Edge>, seen: set<(nat, nat)>)
    returns (heap': seq<Edge>, seen': set<(nat, nat)>)
    requires ValidEdges(n, edges) && x in visited
    ensures PushedFrom(edges, x, visited, heap, seen, heap', seen')
  {
    heap', seen' := heap, seen;
    for j := 0 to |edges|
      invariant PushInv(edges, x, visited, heap, seen, heap', seen', j)
    {
      var e := edges[j];
      if Touches(e, x) {
        var y := if e.u == x then e.v else e.u;
        if y !in visited {
          var p := Norm(x, y);
          if p !in seen' {
            var h := Edge(x, y, e.w);
            PushAdd(edges, x, visited, heap, seen, heap', seen', j, h);
            seen', heap' := seen' + {p}, heap' + [h];
            continue;
          }
        }
      }
      PushSkip(edges, x, visited, heap, seen, heap', seen', j);
    }
    PushDone(edges, x, visited, heap, seen, heap', seen');
  }

  /** Scanning an edge that is pushed: its entry is new and its pair is
      recorded. */
  lemma PushAdd(edges: seq<Edge>, x: nat, visited: set<nat>, heap: seq<Edge>, seen: set<(nat, nat)>,
                heap': seq<Edge>, seen': set<(nat, nat)>, j: nat, h: Edge)
    requires PushInv(edges, x, visited, heap, seen, heap', seen', j) && j < |edges| && x in visited
    requires Touches(edges[j], x) && h.u == x && SamePair(edges[j], h) && h.w == edges[j].w
    requires h.v !in visited && Pair(h) !in seen'
    ensures PushInv(edges, x, visited, heap, seen, heap' + [h], seen' + {Pair(h)}, j + 1)
  {
    assert edges[j] in edges;
    var heap'' := heap' + [h];
    assert heap''[..|heap|] == heap by {
      assert heap'[..|heap|] == heap;
    }
    assert heap''[|heap'|] == h;
    assert forall i :: 0 <= i < |heap'| ==> heap''[i] == heap'[i];
  }

  /** Scanning an edge that is not pushed: it leads to a visited node or
      its pair is already recorded. */
  lemma PushSkip(edges: seq<Edge>, x: nat, visited: set<nat>, heap: seq<Edge>, seen: set<(nat, nat)>,
                 heap': seq<Edge>, seen': set<(nat, nat)>, j: nat)
    requires PushInv(edges, x, visited, heap, seen, heap', seen', j) && j < |edges| && x in visited
    requires var e := edges[j]; Touches(e, x) ==>
      var y := if e.u == x then e.v else e.u;
      y in visited || Norm(x, y) in seen'
    ensures PushInv(edges, x, visited, heap, seen, heap', seen', j + 1)
  {
  }

  lemma PushDone(edges: seq<Edge>, x: nat, visited: set<nat>, heap: seq<Edge>, seen: set<(nat, nat)>,
                 heap': seq<Edge>, seen': set<(nat, nat)>)
    requires PushInv(edges, x, visited, heap, seen, heap', seen', |edges|)
    ensures PushedFrom(edges, x, visited, heap, seen, heap', seen')
  {
    forall e | e in edges && Touches(e, x) && !(e.u in visited && e.v in visited)
      ensures Pair(e) in seen'
    {
      var k :| 0 <= k < |edges| && edges[k] == e;
    }
  }

  /** The visited nodes once the first `k` accepted edges of `s` are in:
      node 0 and their far ends. */
  ghost function Visited(s: seq<Edge>, k: nat): (r: set<nat>)
    ensures 0 in r
  {
    {0} + set j | 0 <= j < k && j < |s| :: s[j].v
  }

  /** The visited nodes after all the accepted edges `s`. */
  ghost function Spanned(s: seq<Edge>): set<nat>
  {
    Visited(s, |s|)
  }

  /** Each accepted edge leaves the nodes visited before it, from a visited
      node to a new one. */
  ghost predicate Grows(s: seq<Edge>)
  {
    forall k {:trigger Visited(s, k)} :: 0 <= k < |s| ==> s[k].u in Visited(s, k) && s[k].v !in Visited(s, k)
  }

  /** `e` has exactly one endpoint in `s`. */
  ghost predicate Crosses(e: Edge, s: set<nat>)
  {
    (e.u in s) != (e.v in s)
  }

  /** Each accepted edge is a lightest graph edge leaving the nodes visited
      before it. */
  ghost predicate Lightest(edges: seq<Edge>, s: seq<Edge>)
  {
    forall k, e {:trigger Visited(s, k), e in edges} :: 0 <= k < |s| && e in edges && Crosses(e, Visited(s, k)) ==> s[k].w <= e.w
  }

  /** Heap entries leave visited nodes along graph edges, and their pairs
      are recorded. */
  ghost predicate Entries(edges: seq<Edge>, visited: set<nat>, heap: seq<Edge>, seen: set<(nat, nat)>)
  {
    forall h :: h in heap ==> h.u in visited && EdgeOf(edges, h) && Pair(h) in seen
  }

  /** A recorded pair is either inside the visited set or still in the heap. */
  ghost predicate Recorded(visited: set<nat>, heap: seq<Edge>, seen: set<(nat, nat)>)
  {
    forall p :: p in seen ==> (p.0 in visited && p.1 in visited) || exists h :: h in heap && Pair(h) == p
  }

  /** The edges at the expanded nodes `done` are recorded or inside `visited`. */
  ghost predicate Explored(edges: seq<Edge>, done: set<nat>, visited: set<nat>, seen: set<(nat, nat)>)
  {
    forall e :: e in edges && (e.u in done || e.v in done) ==> Pair(e) in seen || (e.u in visited && e.v in visited)
  }

  ghost predicate HeapState(edges: seq<Edge>, visited: set<nat>, heap: seq<Edge>, seen: set<(nat, nat)>)
  {
    Entries(edges, visited, heap, seen) && Recorded(visited, heap, seen) && Explored(edges, visited, visited, seen)
  }

  /** The accepted edges so far, for the visited set `visited`. */
  ghost predicate TreeState(n: nat, edges: seq<Edge>, mst: seq<Edge>, visited: set<nat>, total: int)
  {
    && visited == Spanned(mst) && |visited| == |mst| + 1
    && (forall y :: y in visited ==> y < n && Reach(edges, 0, y))
    && Grows(mst) && total == SumW(mst)
    && (forall k :: 0 <= k < |mst| ==> EdgeOf(edges, mst[k]))
    && Lightest(edges, mst)
  }

  /** `prim_mst(G)`: the accepted edges and their total weight. They are
      graph edges, each from a visited node to a new one and each a lightest
      edge leaving the nodes visited when it was accepted; exactly the
      nodes reachable from node 0 end up visited. */
  method PrimMst(n: nat, edges: seq<Edge>) returns (mst: seq<Edge>, total: int)
    requires n > 0 && ValidGraph(n, edges)
    ensures total == SumW(mst)
    ensures forall k :: 0 <= k < |mst| ==> EdgeOf(edges, mst[k])
    ensures Grows(mst)
    ensures Lightest(edges, mst)
    ensures forall x: nat :: x in Spanned(mst) <==> x < n && Reach(edges, 0, x)
  {
    var visited: set<nat> := {0};
    mst, total := [], 0;
    var heap: seq<Edge> := [];
    var seen: set<(nat, nat)> := {};
    ReachRefl(edges, 0);
    // Node 0's neighbours are never visited (no self loops), so the
    // visited test of the shared push loop passes for all of them.
    var heap', seen' := PushNeighbours(n, edges, 0, visited, heap, seen);
    PushKeeps(edges, 0, {}, visited, heap, seen, heap', seen');
    heap, seen := heap', seen';
    while |heap| > 0 && |visited| < n
      invariant TreeState(n, edges, mst, visited, total)
      invariant HeapState(edges, visited, heap, seen)
      decreases n - |visited|, |heap|
    {
      var x, rest := HeapPop(heap);
      if x.v in visited {
        PopKeeps(edges, visited, visited, heap, seen, x, rest);
        heap := rest;
        continue;
      }
      mst, total, visited, heap, seen := Visit(n, edges, mst, total, visited, heap, seen, x, rest);
    }
    PrimResult(n, edges, visited, heap, seen);
  }

  /** Lines 29-38: the popped entry leads to a new node, so its edge is
      accepted, the node is visited and its neighbours are pushed. */
  method Visit(n: nat, edges: seq<Edge>, mst: seq<Edge>, total: int, visited: set<nat>,
               heap: seq<Edge>, seen: set<(nat, nat)>, x: Edge, rest: seq<Edge>)
    returns (mst': seq<Edge>, total': int, visited': set<nat>, heap': seq<Edge>, seen': set<(nat, nat)>)
    requires ValidGraph(n, edges) && TreeState(n, edges, mst, visited, total)
    requires HeapState(edges, visited, heap, seen)
    requires x in heap && (forall h :: h in heap ==> HeapLe(x, h))
    requires multiset(rest) + multiset{x} == multiset(heap) && x.v !in visited
    ensures mst' == mst + [x] && total' == total + x.w && visited' == visited + {x.v}
    ensures TreeState(n, edges, mst', visited', total') && HeapState(edges, visited', heap', seen')
    ensures |visited'| <= n
  {
    LeastCrossing(edges, visited, heap, seen, x);
    PopKeeps(edges, visited, visited + {x.v}, heap, seen, x, rest);
    AcceptEdge(n, edges, mst, total, visited, x);
    mst', total', visited' := mst + [x], total + x.w, visited + {x.v};
    heap', seen' := PushNeighbours(n, edges, x.v, visited', rest, seen);
    PushKeeps(edges, x.v, visited, visited', rest, seen, heap', seen');
  }

  /** A pop keeps the heap facts for any larger visited set that contains
      the popped entry's two ends. */
  lemma PopKeeps(edges: seq<Edge>, visited: set<nat>, visited': set<nat>, heap: seq<Edge>, seen: set<(nat, nat)>, x: Edge, rest: seq<Edge>)
    requires HeapState(edges, visited, heap, seen)
    requires x in heap && multiset(rest) + multiset{x} == multiset(heap)
    requires visited <= visited' && x.u in visited' && x.v in visited'
    ensures Entries(edges, visited', rest, seen) && Recorded(visited', rest, seen)
    ensures Explored(edges, visited, visited', seen)
  {
    forall h | h in rest
      ensures h in heap
    {
      assert multiset(heap)[h] == multiset(rest)[h] + multiset{x}[h];
    }
    forall p | p in seen && !(p.0 in visited' && p.1 in visited')
      ensures exists h :: h in rest && Pair(h) == p
    {
      var h :| h in heap && Pair(h) == p;
      assert h != x;
      assert multiset(heap)[h] == multiset(rest)[h];
    }
  }

  /** Pushing from `x`, the one visited node not yet expanded, restores the
      heap facts. */
  lemma PushKeeps(edges: seq<Edge>, x: nat, done: set<nat>, visited: set<nat>, heap: seq<Edge>, seen: set<(nat, nat)>,
                  heap': seq<Edge>, seen': set<(nat, nat)>)
    requires visited == done + {x} && Entries(edges, visited, heap, seen) && Recorded(visited, heap, seen)
    requires Explored(edges, done, visited, seen)
    requires PushedFrom(edges, x, visited, heap, seen, heap', seen')
    ensures HeapState(edges, visited, heap', seen')
  {
    forall h | h in heap'
      ensures h.u in visited && EdgeOf(edges, h) && Pair(h) in seen'
    {
      var i :| 0 <= i < |heap'| && heap'[i] == h;
      if i < |heap| {
        assert heap[i] == h;
      }
    }
    forall p | p in seen' && !(p.0 in visited && p.1 in visited)
      ensures exists h :: h in heap' && Pair(h) == p
    {
      if p in seen {
        var h :| h in heap && Pair(h) == p;
        var i :| 0 <= i < |heap| && heap[i] == h;
        assert heap'[i] == h;
      } else {
        var i :| |heap| <= i < |heap'| && Pair(heap'[i]) == p;
      }
    }
  }

  /** Accepting a lightest edge from a visited node to a new one keeps the
      tree facts. */
  lemma AcceptEdge(n: nat, edges: seq<Edge>, mst: seq<Edge>, total: int, visited: set<nat>, x: Edge)
    requires ValidEdges(n, edges) && TreeState(n, edges, mst, visited, total)
    requires x.u in visited && x.v !in visited && EdgeOf(edges, x)
    requires forall f :: f in edges && Crosses(f, visited) ==> x.w <= f.w
    ensures TreeState(n, edges, mst + [x], visited + {x.v}, total + x.w)
    ensures |visited + {x.v}| <= n
  {
    VisitedAppend(mst, x);
    GrowsAppend(mst, x);
    LightestAppend(edges, mst, x);
    SumWAppend(mst, x);
    var e :| e in edges && SamePair(e, x) && e.w == x.w;
    assert Joins(e, x.u, x.v);
    ReachStep(edges, 0, x.u, x.v);
    VisitedBound(n, visited + {x.v});
    var s := mst + [x];
    forall k | 0 <= k < |s|
      ensures EdgeOf(edges, s[k])
    {
      if k < |mst| {
        assert s[k] == mst[k];
      }
    }
    AddCard(visited, x.v);
  }

  lemma GrowsAppend(s: seq<Edge>, x: Edge)
    requires Grows(s) && x.u in Spanned(s) && x.v !in Spanned(s)
    ensures Grows(s + [x])
  {
    var t := s + [x];
    VisitedAppend(s, x);
    forall k | 0 <= k < |t|
      ensures t[k].u in Visited(t, k) && t[k].v !in Visited(t, k)
    {
      assert Visited(t, k) == Visited(s, k);
      if k < |s| {
        assert t[k] == s[k];
      }
    }
  }

  lemma LightestAppend(edges: seq<Edge>, s: seq<Edge>, x: Edge)
    requires Lightest(edges, s)
    requires forall f :: f in edges && Crosses(f, Spanned(s)) ==> x.w <= f.w
    ensures Lightest(edges, s + [x])
  {
    var t := s + [x];
    VisitedAppend(s, x);
    forall k, f | 0 <= k < |t| && f in edges && Crosses(f, Visited(t, k))
      ensures t[k].w <= f.w
    {
      assert Visited(t, k) == Visited(s, k);
      if k < |s| {
        assert t[k] == s[k];
      }
    }
  }

  /** The least heap entry is at most as heavy as any edge leaving the
      visited set, since each of those has an entry in the heap. */
  lemma LeastCrossing(edges: seq<Edge>, visited: set<nat>, heap: seq<Edge>, seen: set<(nat, nat)>, x: Edge)
    requires Simple(edges) && HeapState(edges, visited, heap, seen)
    requires forall h :: h in heap ==> HeapLe(x, h)
    ensures forall f :: f in edges && Crosses(f, visited) ==> x.w <= f.w
  {
    CrossingInHeap(edges, visited, heap, seen);
    forall f | f in edges && Crosses(f, visited)
      ensures x.w <= f.w
    {
      var h :| h in heap && SamePair(f, h) && h.w == f.w;
      assert HeapLe(x, h);
    }
  }

  /** The visited set has room for another node while it is below `n`. */
  lemma VisitedBound(n: nat, visited: set<nat>)
    requires forall y :: y in visited ==> y < n
    ensures |visited| <= n
  {
    SubsetCard(visited, Nodes(n));
  }

  /** Every edge leaving the visited set is in the heap, from its visited
      end and with its own weight. */
  lemma CrossingInHeap(edges: seq<Edge>, visited: set<nat>, heap: seq<Edge>, seen: set<(nat, nat)>)
    requires Simple(edges) && HeapState(edges, visited, heap, seen)
    ensures forall e :: e in edges && Crosses(e, visited) ==> exists h :: h in heap && SamePair(e, h) && h.w == e.w
  {
    forall e | e in edges && Crosses(e, visited)
      ensures exists h :: h in heap && SamePair(e, h) && h.w == e.w
    {
      var h :| h in heap && Pair(h) == Pair(e);
      PairSame(e, h);
      var f :| f in edges && SamePair(f, h) && f.w == h.w;
      SimpleUnique(edges, e, f);
    }
  }

  /** When the loop stops, the visited set is the set of nodes reachable
      from node 0: either it holds every node, or the heap is empty and no
      edge leaves it. */
  lemma PrimResult(n: nat, edges: seq<Edge>, visited: set<nat>, heap: seq<Edge>, seen: set<(nat, nat)>)
    requires ValidGraph(n, edges) && 0 in visited
    requires forall y :: y in visited ==> y < n && Reach(edges, 0, y)
    requires HeapState(edges, visited, heap, seen)
    requires |heap| == 0 || |visited| >= n
    ensures forall x: nat :: x in visited <==> x < n && Reach(edges, 0, x)
  {
    if |visited| >= n {
      FullNodeSet(n, visited);
    } else {
      CrossingInHeap(edges, visited, heap, seen);
      forall x: nat | x < n && Reach(edges, 0, x)
        ensures x in visited
      {
        ReachClosed(edges, visited, 0, x);
      }
    }
  }

  /** Appending an accepted edge keeps the earlier visited sets and adds
      its far end to the last one. */
  lemma VisitedAppend(s: seq<Edge>, x: Edge)
    ensures forall k :: 0 <= k <= |s| ==> Visited(s + [x], k) == Visited(s, k)
    ensures Spanned(s + [x]) == Spanned(s) + {x.v}
  {
    var t := s + [x];
    forall k | 0 <= k <= |s|
      ensures Visited(t, k) == Visited(s, k)
    {
      forall y | y in Visited(t, k)
        ensures y in Visited(s, k)
      {
        if y != 0 {
          var j :| 0 <= j < k && j < |t| && t[j].v == y;
          assert s[j].v == y;
        }
      }
      forall y | y in Visited(s, k)
        ensures y in Visited(t, k)
      {
        if y != 0 {
          var j :| 0 <= j < k && j < |s| && s[j].v == y;
          assert t[j].v == y;
        }
      }
    }
    forall y | y in Spanned(t)
      ensures y in Spanned(s) + {x.v}
    {
      if y != 0 && y != x.v {
        var j :| 0 <= j < |t| && t[j].v == y;
        assert j < |s| && s[j].v == y;
      }
    }
    assert t[|s|].v == x.v;
  }

  /** Growing by one accepted edge adds its far end. */
  lemma VisitedNext(s: seq<Edge>, k: nat)
    requires k < |s|
    ensures Visited(s, k + 1) == Visited(s, k) + {s[k].v}
  {
    forall y | y in Visited(s, k + 1)
      ensures y in Visited(s, k) + {s[k].v}
    {
      if y != 0 && y != s[k].v {
        var j :| 0 <= j < k + 1 && j < |s| && s[j].v == y;
        assert j < k;
      }
    }
  }

  /** The visited sets only grow. */
  lemma VisitedMono(s: seq<Edge>, j: nat, k: nat)
    requires j <= k
    ensures Visited(s, j) <= Visited(s, k)
  {
  }

  /** The edges accepted before step `k` stay inside `Visited(s, k)`. */
  lemma VisitedHolds(s: seq<Edge>, k: nat)
    requires Grows(s) && k <= |s|
    ensures forall e :: e in s[..k] ==> e.u in Visited(s, k) && e.v in Visited(s, k)
  {
    forall e | e in s[..k]
      ensures e.u in Visited(s, k) && e.v in Visited(s, k)
    {
      var j :| 0 <= j < k && s[j] == e;
      VisitedMono(s, j, k);
    }
  }

  /** Node 0 reaches every node visited within the first `k` steps along
      the accepted edges. */
  lemma {:induction false} VisitedReach(s: seq<Edge>, k: nat)
    requires Grows(s) && k <= |s|
    ensures forall y :: y in Visited(s, k) ==> Reach(s, 0, y)
  {
    if k == 0 {
      assert Visited(s, 0) == {0};
      ReachRefl(s, 0);
    } else {
      VisitedReach(s, k - 1);
      VisitedNext(s, k - 1);
      var e := s[k - 1];
      assert e.u in Visited(s, k - 1);
      assert Step(s, e.u, e.v) by {
        assert e in s && Joins(e, e.u, e.v);
      }
      ReachStep(s, 0, e.u, e.v);
    }
  }

  /** Each accepted edge adds one node to the visited set. */
  lemma {:induction false} VisitedCount(s: seq<Edge>, k: nat)
    requires Grows(s) && k <= |s|
    ensures |Visited(s, k)| == k + 1
  {
    if k == 0 {
      assert Visited(s, 0) == {0};
    } else {
      VisitedCount(s, k - 1);
      VisitedNext(s, k - 1);
      AddCard(Visited(s, k - 1), s[k - 1].v);
    }
  }

  /** What the growth order makes of the accepted edges: a tree on the
      visited nodes, reaching each of them from node 0, with one node more
      than it has edges. */
  lemma PrimTree(s: seq<Edge>)
    requires Grows(s)
    ensures IsForest(s)
    ensures forall y :: y in Spanned(s) ==> Reach(s, 0, y)
    ensures |Spanned(s)| == |s| + 1
  {
    forall k | 0 <= k < |s|
      ensures !Reach(s[..k], s[k].u, s[k].v)
    {
      VisitedHolds(s, k);
      if Reach(s[..k], s[k].u, s[k].v) {
        ReachClosed(s[..k], Visited(s, k), s[k].u, s[k].v);
      }
    }
    VisitedReach(s, |s|);
    VisitedCount(s, |s|);
  }

  /** On a connected graph Prim's edges form a spanning tree with `n - 1`
      edges; on any graph at most `n - 1` edges, forming a tree on node 0's
      component. */
  lemma PrimSpanningTree(n: nat, edges: seq<Edge>, mst: seq<Edge>)
    requires n > 0 && Grows(mst)
    requires forall x: nat :: x in Spanned(mst) <==> x < n && Reach(edges, 0, x)
    ensures IsForest(mst) && |mst| <= n - 1
    ensures forall x: nat :: x < n && Reach(edges, 0, x) ==> Reach(mst, 0, x)
    ensures Connected(n, edges) ==> |mst| == n - 1 && Connected(n, mst)
  {
    PrimTree(mst);
    SubsetCard(Spanned(mst), Nodes(n));
    if Connected(n, edges) {
      forall x: nat | x < n
        ensures x in Spanned(mst)
      {
        assert Reach(edges, 0, x);
      }
      assert Spanned(mst) == Nodes(n);
      ConnectedFromZero(n, mst);
    }
  }
}
