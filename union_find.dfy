/** The disjoint-set union of kruskal.py: `parent` and `rank` lists, a
    recursive `find` with path compression and `union` by rank. */
module UnionFind {
  import opened Partition

  /** Parents point inside the structure and every non-root has a rank
      strictly below its parent's: the measure that makes `find` stop. */
  ghost predicate WellRanked(parent: seq<nat>, rank: seq<nat>)
  {
    && |parent| == |rank|
    && (forall i :: 0 <= i < |parent| ==> parent[i] < |parent|)
    && (forall i :: 0 <= i < |parent| && parent[i] != i ==> rank[i] < rank[parent[i]])
  }

  /** The elements ranked above `x`; shrinks strictly along parent links. */
  ghost function Above(rank: seq<nat>, x: nat): set<nat>
    requires x < |rank|
  {
    set y | 0 <= y < |rank| && rank[y] > rank[x]
  }

  lemma AboveShrinks(parent: seq<nat>, rank: seq<nat>, x: nat)
    requires WellRanked(parent, rank) && x < |parent| && parent[x] != x
    ensures Above(rank, parent[x]) < Above(rank, x)
  {
    assert parent[x] in Above(rank, x);
  }

  /** The representative reached by following parent links from `x`. */
  ghost function Root(parent: seq<nat>, rank: seq<nat>, x: nat): (r: nat)
    requires WellRanked(parent, rank) && x < |parent|
    ensures r < |parent| && parent[r] == r
    decreases Above(rank, x)
  {
    if parent[x] == x then x
    else
      AboveShrinks(parent, rank, x);
      Root(parent, rank, parent[x])
  }

  /** The elements on the way from `x` up to its root, both included: the
      ones `find(x)` points at the root. */
  ghost function Path(parent: seq<nat>, rank: seq<nat>, x: nat): (p: set<nat>)
    requires WellRanked(parent, rank) && x < |parent|
    ensures x in p && Root(parent, rank, x) in p
    ensures forall y :: y in p ==> y < |parent| && Root(parent, rank, y) == Root(parent, rank, x)
    decreases Above(rank, x)
  {
    if parent[x] == x then {x}
    else
      AboveShrinks(parent, rank, x);
      {x} + Path(parent, rank, parent[x])
  }

  /** `after` is `before` with exactly the elements of `path` pointed at
      `r`. */
  ghost predicate Compressed(before: seq<nat>, after: seq<nat>, path: set<nat>, r: nat)
  {
    |after| == |before| && forall y :: 0 <= y < |before| ==> after[y] == if y in path then r else before[y]
  }

  /** The root of every element: the partition the structure represents. */
  ghost function Roots(parent: seq<nat>, rank: seq<nat>): (roots: seq<nat>)
    requires WellRanked(parent, rank)
    ensures |roots| == |parent|
  {
    seq(|parent|, x requires 0 <= x < |parent| => Root(parent, rank, x))
  }

  /** A non-root is ranked strictly below its root. */
  lemma {:induction false} RootRank(parent: seq<nat>, rank: seq<nat>, x: nat)
    requires WellRanked(parent, rank) && x < |parent| && parent[x] != x
    ensures rank[x] < rank[Root(parent, rank, x)]
    decreases Above(rank, x)
  {
    AboveShrinks(parent, rank, x);
    if parent[parent[x]] != parent[x] {
      RootRank(parent, rank, parent[x]);
    }
  }

  /** Path compression: pointing `x` straight at its root keeps the ranks
      well-ordered and changes no element's root. */
  lemma Compress(parent: seq<nat>, rank: seq<nat>, x: nat)
    requires WellRanked(parent, rank) && x < |parent|
    ensures WellRanked(parent[x := Root(parent, rank, x)], rank)
    ensures Roots(parent[x := Root(parent, rank, x)], rank) == Roots(parent, rank)
  {
    var r := Root(parent, rank, x);
    var parent' := parent[x := r];
    if parent[x] != x {
      RootRank(parent, rank, x);
    }
    assert WellRanked(parent', rank);
    forall y | 0 <= y < |parent|
      ensures Root(parent', rank, y) == Root(parent, rank, y)
    {
      CompressRoot(parent, rank, x, y);
    }
  }

  lemma {:induction false} CompressRoot(parent: seq<nat>, rank: seq<nat>, x: nat, y: nat)
    requires WellRanked(parent, rank) && x < |parent| && y < |parent|
    requires WellRanked(parent[x := Root(parent, rank, x)], rank)
    ensures Root(parent[x := Root(parent, rank, x)], rank, y) == Root(parent, rank, y)
    decreases Above(rank, y)
  {
    var parent' := parent[x := Root(parent, rank, x)];
    if y == x {
      if parent[x] != x {
        AboveShrinks(parent, rank, x);
        CompressRoot(parent, rank, x, parent[x]);
      }
    } else if parent[y] != y {
      AboveShrinks(parent, rank, y);
      CompressRoot(parent, rank, x, parent[y]);
    }
  }

  /** Linking root `lo` under root `hi`, with `hi`'s rank possibly raised,
      keeps the ranks well-ordered and merges `lo`'s set into `hi`'s. */
  lemma Link(parent: seq<nat>, rank: seq<nat>, rank': seq<nat>, lo: nat, hi: nat)
    requires WellRanked(parent, rank) && lo < |parent| && hi < |parent| && lo != hi
    requires parent[lo] == lo && parent[hi] == hi
    requires |rank'| == |rank| && rank'[hi] >= rank[hi] && rank[lo] < rank'[hi]
    requires forall z :: 0 <= z < |rank| && z != hi ==> rank'[z] == rank[z]
    ensures WellRanked(parent[lo := hi], rank')
    ensures Roots(parent[lo := hi], rank') == Relabel(Roots(parent, rank), lo, hi)
  {
    var parent' := parent[lo := hi];
    assert WellRanked(parent', rank');
    forall z | 0 <= z < |parent|
      ensures Root(parent', rank', z) == (if Root(parent, rank, z) == lo then hi else Root(parent, rank, z))
    {
      LinkRoot(parent, rank, rank', lo, hi, z);
    }
  }

  lemma {:induction false} LinkRoot(parent: seq<nat>, rank: seq<nat>, rank': seq<nat>, lo: nat, hi: nat, z: nat)
    requires WellRanked(parent, rank) && lo < |parent| && hi < |parent| && lo != hi
    requires parent[lo] == lo && parent[hi] == hi
    requires WellRanked(parent[lo := hi], rank') && z < |parent|
    ensures Root(parent[lo := hi], rank', z) == (if Root(parent, rank, z) == lo then hi else Root(parent, rank, z))
    decreases Above(rank', z)
  {
    var parent' := parent[lo := hi];
    if z == lo {
      assert Root(parent', rank', hi) == hi;
    } else if parent[z] != z {
      AboveShrinks(parent', rank', z);
      LinkRoot(parent, rank, rank', lo, hi, parent[z]);
    }
  }

  /** The root that survives `union`: `rootX` unless `rootY` has the higher rank. */
  function Winner(rank: seq<nat>, rx: nat, ry: nat): nat
    requires rx < |rank| && ry < |rank|
  {
    if rank[rx] < rank[ry] then ry else rx
  }

  /** The root that `union` redirects: `rootY` unless `rootX` has the lower rank. */
  function Loser(rank: seq<nat>, rx: nat, ry: nat): nat
    requires rx < |rank| && ry < |rank|
  {
    if rank[rx] < rank[ry] then rx else ry
  }

  class DSU {
    var parent: seq<nat>
    var rank: seq<nat>

    ghost predicate Valid()
      reads this
    {
      WellRanked(parent, rank)
    }

    /** The partition the structure currently represents, as root labels. */
    ghost function Sets(): (roots: seq<nat>)
      reads this
      requires Valid()
      ensures |roots| == |parent|
    {
      Roots(parent, rank)
    }

    /** `DSU(n)`: every element its own parent, every rank 0. */
    constructor (n: nat)
      ensures Valid() && |parent| == n
      ensures forall i :: 0 <= i < n ==> parent[i] == i && rank[i] == 0
      ensures Sets() == Identity(n)
    {
      parent := seq(n, i requires 0 <= i < n => i);
      rank := seq(n, i requires 0 <= i < n => 0);
      new;
      forall i | 0 <= i < n
        ensures Roots(parent, rank)[i] == i
      {
        assert Root(parent, rank, i) == i;
      }
    }

    /** `find(x)`: the root of `x`; every element on the way is pointed at
        it (path compression) and every other parent is kept, which changes
        no element's root. */
    method Find(x: nat) returns (r: nat)
      requires Valid() && x < |parent|
      modifies this
      ensures Valid() && |parent| == old(|parent|) && rank == old(rank)
      ensures r == old(Root(parent, rank, x)) && parent[r] == r
      ensures parent[x] == r
      ensures Sets() == old(Sets())
      ensures Compressed(old(parent), parent, old(Path(parent, rank, x)), r)
      ensures forall y :: 0 <= y < |parent| ==> parent[y] == old(parent[y]) || parent[y] == old(Sets()[y])
      decreases Above(rank, x)
    {
      if parent[x] != x {
        AboveShrinks(parent, rank, x);
        var root := Find(parent[x]);
        assert root == Sets()[x];
        Compress(parent, rank, x);
        parent := parent[x := root];
      }
      r := parent[x];
    }

    /** `union(x, y)`: false, with the partition and the ranks unchanged,
        when `x` and `y` are already in one set; otherwise true, after the
        lower-ranked root (`rootY` on a tie) is pointed at the other one,
        whose rank grows by one on a tie. */
    method Union(x: nat, y: nat) returns (merged: bool)
      requires Valid() && x < |parent| && y < |parent|
      modifies this
      ensures Valid() && |parent| == old(|parent|)
      ensures merged <==> old(Sets()[x]) != old(Sets()[y])
      ensures !merged ==> rank == old(rank) && Sets() == old(Sets())
      ensures merged ==>
        var rx, ry := old(Sets()[x]), old(Sets()[y]);
        var lo, hi := Loser(old(rank), rx, ry), Winner(old(rank), rx, ry);
        && Sets() == Relabel(old(Sets()), lo, hi)
        && Sets()[x] == Sets()[y]
        && parent[lo] == hi
        && rank == (if old(rank[rx]) == old(rank[ry]) then old(rank)[rx := old(rank[rx]) + 1] else old(rank))
        && forall z :: 0 <= z < |parent| && z != lo ==> parent[z] == old(parent[z]) || parent[z] == old(Sets()[z])
    {
      ghost var roots0, parent0 := Sets(), parent;
      var rootX := Find(x);
      var rootY := Find(y);
      assert rootX == roots0[x] && rootY == roots0[y];
      assert forall z :: 0 <= z < |parent| ==> parent[z] == parent0[z] || parent[z] == roots0[z];
      if rootX != rootY {
        Attach(rootX, rootY);
        merged := true;
      } else {
        merged := false;
      }
    }

    /** Lines 26-33, union by rank of two distinct roots: the lower-ranked
        one (`rootY` on a tie) is pointed at the other, whose rank grows by
        one on a tie; the set of the redirected root joins the other's. */
    method Attach(rootX: nat, rootY: nat)
      requires Valid() && rootX < |parent| && rootY < |parent| && rootX != rootY
      requires parent[rootX] == rootX && parent[rootY] == rootY
      modifies this
      ensures Valid() && |parent| == old(|parent|)
      ensures var lo, hi := Loser(old(rank), rootX, rootY), Winner(old(rank), rootX, rootY);
        && parent == old(parent)[lo := hi]
        && rank == (if old(rank[rootX]) == old(rank[rootY]) then old(rank)[rootX := old(rank[rootX]) + 1] else old(rank))
        && Sets() == Relabel(old(Sets()), lo, hi)
    {
      if rank[rootX] > rank[rootY] {
        Link(parent, rank, rank, rootY, rootX);
        parent := parent[rootY := rootX];
      } else if rank[rootX] < rank[rootY] {
        Link(parent, rank, rank, rootX, rootY);
        parent := parent[rootX := rootY];
      } else {
        Link(parent, rank, rank[rootX := rank[rootX] + 1], rootY, rootX);
        parent := parent[rootY := rootX];
        rank := rank[rootX := rank[rootX] + 1];
      }
    }
  }
}
