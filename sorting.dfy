/** The stable sort of the Python runtime (`list.sort` / `sorted` with a
    weight key), written as an insertion sort. Kruskal sorts by weight,
    Reverse-Delete by negated weight. */
module Sorting {
  import opened Graphs

  /** The sort key: the weight, or its negation for a descending order. */
  function Key(e: Edge, descending: bool): int
  {
    if descending then -e.w else e.w
  }

  ghost predicate SortedByKey(s: seq<Edge>, descending: bool)
  {
    forall i, j :: 0 <= i < j < |s| ==> Key(s[i], descending) <= Key(s[j], descending)
  }

  /** The elements with key `k`, in their order in `s`. */
  function WithKey(s: seq<Edge>, k: int, descending: bool): seq<Edge>
  {
    if s == [] then []
    else (if Key(s[0], descending) == k then [s[0]] else []) + WithKey(s[1..], k, descending)
  }

  /** Puts `e` in front of the first element whose key is not smaller, so
      that `e` precedes the equal-keyed elements that followed it. */
  function Insert(e: Edge, s: seq<Edge>, descending: bool): (r: seq<Edge>)
    ensures multiset(r) == multiset(s) + multiset{e}
  {
    if s == [] || Key(e, descending) <= Key(s[0], descending) then [e] + s
    else
      assert s == [s[0]] + s[1..];
      [s[0]] + Insert(e, s[1..], descending)
  }

  lemma {:induction false} InsertBound(e: Edge, s: seq<Edge>, descending: bool, lo: int)
    requires lo <= Key(e, descending)
    requires forall i :: 0 <= i < |s| ==> lo <= Key(s[i], descending)
    ensures forall i :: 0 <= i < |Insert(e, s, descending)| ==> lo <= Key(Insert(e, s, descending)[i], descending)
  {
    if s != [] && Key(e, descending) > Key(s[0], descending) {
      InsertBound(e, s[1..], descending, lo);
    }
  }

  lemma {:induction false} InsertSorted(e: Edge, s: seq<Edge>, descending: bool)
    requires SortedByKey(s, descending)
    ensures SortedByKey(Insert(e, s, descending), descending)
  {
    if s != [] && Key(e, descending) > Key(s[0], descending) {
      var rest := Insert(e, s[1..], descending);
      InsertSorted(e, s[1..], descending);
      InsertBound(e, s[1..], descending, Key(s[0], descending));
      ConsSorted(s[0], rest, descending);
    }
  }

  lemma ConsSorted(x: Edge, t: seq<Edge>, descending: bool)
    requires SortedByKey(t, descending)
    requires forall i :: 0 <= i < |t| ==> Key(x, descending) <= Key(t[i], descending)
    ensures SortedByKey([x] + t, descending)
  {
    var r := [x] + t;
    forall i, j | 0 <= i < j < |r|
      ensures Key(r[i], descending) <= Key(r[j], descending)
    {
      assert r[j] == t[j - 1];
      if i > 0 {
        assert r[i] == t[i - 1];
      }
    }
  }

  /** `s` ordered by key; equal keys keep their order in `s`. */
  function SortByKey(s: seq<Edge>, descending: bool): (r: seq<Edge>)
    ensures multiset(r) == multiset(s)
    ensures SortedByKey(r, descending)
  {
    if s == [] then []
    else
      assert s == [s[0]] + s[1..];
      InsertSorted(s[0], SortByKey(s[1..], descending), descending);
      Insert(s[0], SortByKey(s[1..], descending), descending)
  }

  lemma SortedMembers(s: seq<Edge>, descending: bool)
    ensures forall e :: e in SortByKey(s, descending) <==> e in s
  {
    var r := SortByKey(s, descending);
    forall e ensures e in r <==> e in s {
      assert e in r <==> e in multiset(r);
    }
  }

  /** Sorting a simple edge list gives a simple edge list. */
  lemma {:induction false} SortSimple(s: seq<Edge>, descending: bool)
    requires Simple(s)
    ensures Simple(SortByKey(s, descending))
  {
    if s != [] {
      SimpleTail(s);
      SortSimple(s[1..], descending);
      SortedMembers(s[1..], descending);
      InsertSimple(s[0], SortByKey(s[1..], descending), descending);
    }
  }

  lemma {:induction false} InsertSimple(e: Edge, t: seq<Edge>, descending: bool)
    requires Simple(t) && forall f :: f in t ==> !SamePair(e, f)
    ensures Simple(Insert(e, t, descending))
  {
    if t == [] || Key(e, descending) <= Key(t[0], descending) {
      ConsSimple(e, t);
    } else {
      SimpleTail(t);
      var rest := Insert(e, t[1..], descending);
      InsertSimple(e, t[1..], descending);
      forall f | f in rest
        ensures !SamePair(t[0], f)
      {
        assert f in multiset(rest);
        if f == e {
          assert t[0] in t && !SamePair(e, t[0]);
        }
      }
      ConsSimple(t[0], rest);
    }
  }

  /** Inserting `e` puts it ahead of the elements with its key. */
  lemma {:induction false} InsertWithKey(e: Edge, s: seq<Edge>, descending: bool, k: int)
    ensures WithKey(Insert(e, s, descending), k, descending)
         == (if Key(e, descending) == k then [e] else []) + WithKey(s, k, descending)
  {
    if s == [] || Key(e, descending) <= Key(s[0], descending) {
      WithKeyCons(e, s, descending, k);
    } else {
      var rest := Insert(e, s[1..], descending);
      InsertWithKey(e, s[1..], descending, k);
      WithKeyCons(s[0], rest, descending, k);
      WithKeyCons(s[0], s[1..], descending, k);
      assert [s[0]] + s[1..] == s;
      var w := WithKey(s[1..], k, descending);
      if Key(e, descending) == k {
        assert WithKey(Insert(e, s, descending), k, descending) == [e] + w;
      } else {
        assert WithKey(rest, k, descending) == w;
      }
    }
  }

  lemma WithKeyCons(a: Edge, t: seq<Edge>, descending: bool, k: int)
    ensures WithKey([a] + t, k, descending) == (if Key(a, descending) == k then [a] else []) + WithKey(t, k, descending)
  {
    assert ([a] + t)[0] == a && ([a] + t)[1..] == t;
  }

  /** Stability: for every key value, the sorted list lists the edges with
      that key in their original order. */
  lemma {:induction false} SortStable(s: seq<Edge>, descending: bool, k: int)
    ensures WithKey(SortByKey(s, descending), k, descending) == WithKey(s, k, descending)
  {
    if s != [] {
      SortStable(s[1..], descending, k);
      InsertWithKey(s[0], SortByKey(s[1..], descending), descending, k);
    }
  }
}
