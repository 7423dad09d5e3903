/**
 * What `topologicalSort` computes and the invariant of its depth-first search: every key
 * once, and every edge pointing forward in the order (from a key to one listed later).
 */
module DfsOrder {
  import opened Wrappers
  import opened Lists
  import opened DagNodes
  import opened CycleGuard
  import opened GraphInvariants

  /** `h` is `g` with some `visited` flags changed and nothing else. */
  ghost predicate SameButVisited<K, V>(g: seq<Node<K, V>>, h: seq<Node<K, V>>) {
    |g| == |h| && forall i :: 0 <= i < |g| ==> h[i] == g[i].(visited := h[i].visited)
  }

  /** Flags aside, the lists have the same keys, the same lookups and the same edges. */
  lemma SameButVisitedKeys<K, V>(g: seq<Node<K, V>>, h: seq<Node<K, V>>)
    requires SameButVisited(g, h)
    ensures Keys(g) == Keys(h)
    ensures forall k :: Find(g, k) == Find(h, k)
    ensures WellFormed(g) <==> WellFormed(h)
    ensures SimpleEdges(g) <==> SimpleEdges(h)
  {
    SameKeys(g, h);
    forall k ensures Find(g, k) == Find(h, k) {
      FindKeys(g, h, k);
    }
  }

  lemma SameButVisitedRanks<K(!new), V>(g: seq<Node<K, V>>, h: seq<Node<K, V>>, rank: map<K, nat>)
    requires SameButVisited(g, h) && Ranks(g, rank)
    ensures Ranks(h, rank)
  {
  }

  /** Flags aside, soundness and the outdegree sum carry over. */
  lemma SameButVisitedSound<K(!new), V>(g: seq<Node<K, V>>, h: seq<Node<K, V>>)
    requires SameButVisited(g, h) && Sound(g)
    ensures Sound(h) && SumOut(h) == SumOut(g)
  {
    SameButVisitedKeys(g, h);
    var rank :| Ranks(g, rank);
    SameButVisitedRanks(g, h, rank);
    SameButVisitedSumOut(g, h);
  }

  lemma {:induction false} SameButVisitedSumOut<K, V>(g: seq<Node<K, V>>, h: seq<Node<K, V>>)
    requires SameButVisited(g, h)
    ensures SumOut(h) == SumOut(g)
    decreases |g|
  {
    if g != [] {
      SameButVisitedSumOut(g[..|g| - 1], h[..|h| - 1]);
    }
  }

  /** Every edge out of a listed key leads to a key listed after it. */
  ghost predicate EdgesForward<K(!new), V>(g: seq<Node<K, V>>, order: seq<K>) {
    forall i, d :: 0 <= i < |order| && order[i] in Keys(g) && d in NodeOf(g, order[i]).destinations ==>
      d in order[i + 1..]
  }

  /** `order` lists every key of `g` exactly once, with every edge pointing forward. */
  ghost predicate TopologicalOrder<K(!new), V>(g: seq<Node<K, V>>, order: seq<K>) {
    NoDup(order) && (forall k :: k in order <==> k in Keys(g)) && EdgesForward(g, order)
  }

  /** For an edge from `order[i]` to `order[j]`, `order[i]` comes first. */
  lemma EdgeGoesForward<K(!new), V>(g: seq<Node<K, V>>, order: seq<K>, i: nat, j: nat)
    requires TopologicalOrder(g, order) && i < |order| && j < |order|
    requires order[i] in Keys(g) && order[j] in NodeOf(g, order[i]).destinations
    ensures i < j
  {
    var d := order[j];
    assert d in order[i + 1..];
    var m :| 0 <= m < |order[i + 1..]| && order[i + 1..][m] == d;
    assert order[i + 1 + m] == order[j];
  }

  /** Flags aside, a topological order of one list is one of the other. */
  lemma SameButVisitedOrder<K(!new), V>(g: seq<Node<K, V>>, h: seq<Node<K, V>>, order: seq<K>)
    requires SameButVisited(g, h) && TopologicalOrder(g, order)
    ensures TopologicalOrder(h, order)
  {
    SameButVisitedKeys(g, h);
    forall k | k in Keys(g) ensures NodeOf(h, k).destinations == NodeOf(g, k).destinations {
      assert Find(g, k) == Find(h, k);
    }
  }

  /** With unique keys, a topological order is as long as the node list: nothing missing, nothing twice. */
  lemma {:induction false} TopologicalOrderLength<K(!new), V>(g: seq<Node<K, V>>, order: seq<K>)
    requires TopologicalOrder(g, order) && UniqueKeys(g)
    ensures |order| == |g|
  {
    KeySetSize(g);
    var s := set k | k in order;
    assert s == KeySet(g) by {
      forall k ensures k in s <==> k in KeySet(g) {
        KeysIndex(g, k);
      }
    }
    NoDupSetSize(order);
  }

  lemma {:induction false} NoDupSetSize<T>(s: seq<T>)
    requires NoDup(s)
    ensures |set x | x in s| == |s|
    decreases |s|
  {
    if s != [] {
      var init := s[..|s| - 1];
      assert NoDup(init);
      NoDupSetSize(init);
      assert (set x | x in s) == (set x | x in init) + {s[|s| - 1]};
      assert s[|s| - 1] !in (set x | x in init);
    }
  }

  /** Pushing a key whose edges all lead into the stack keeps every edge pointing forward. */
  lemma PushForward<K(!new), V>(g: seq<Node<K, V>>, stack: seq<K>, v: K)
    requires EdgesForward(g, stack) && v in Keys(g)
    requires forall d :: d in NodeOf(g, v).destinations ==> d in stack
    ensures EdgesForward(g, [v] + stack)
  {
    var s := [v] + stack;
    forall i, d | 0 <= i < |s| && s[i] in Keys(g) && d in NodeOf(g, s[i]).destinations
      ensures d in s[i + 1..]
    {
      if i > 0 {
        assert s[i] == stack[i - 1] && s[i + 1..] == stack[i..];
      }
    }
  }

  /**
   * The search state: `visited` flags mark exactly the finished keys (on the stack) and
   * the keys still being explored (`gray`); the stack holds distinct keys of `g` with
   * every edge pointing forward.
   */
  ghost predicate DfsInv<K(!new), V>(g: seq<Node<K, V>>, nodes: seq<Node<K, V>>, stack: seq<K>, gray: set<K>) {
    SameButVisited(g, nodes) &&
    (forall j :: 0 <= j < |nodes| ==> (nodes[j].visited <==> nodes[j].key in stack || nodes[j].key in gray)) &&
    NoDup(stack) && (forall k :: k in stack ==> k in Keys(g)) &&
    (forall k :: k in gray ==> k in Keys(g) && k !in stack) &&
    EdgesForward(g, stack)
  }

  /** Marking the node of an unfinished key `v` visited makes `v` gray. */
  lemma MarkGray<K(!new), V>(g: seq<Node<K, V>>, nodes: seq<Node<K, V>>, stack: seq<K>, gray: set<K>, at: nat)
    requires DfsInv(g, nodes, stack, gray) && UniqueKeys(g) && at < |nodes|
    requires nodes[at].key !in stack && nodes[at].key !in gray
    ensures DfsInv(g, nodes[at := nodes[at].(visited := true)], stack, gray + {nodes[at].key})
    ensures Unvisited(nodes[at := nodes[at].(visited := true)]) == Unvisited(nodes) - {at}
  {
    var v := nodes[at].key;
    assert v == Keys(g)[at];
    forall m | 0 <= m < |nodes| && m != at ensures nodes[m].key != v {
      assert nodes[m].key == g[m].key;
    }
  }

  /** Pushing gray `v` once all its destinations are finished: `v` is finished too. */
  lemma PushFinished<K(!new), V>(g: seq<Node<K, V>>, nodes: seq<Node<K, V>>, stack: seq<K>, gray: set<K>, v: K)
    requires DfsInv(g, nodes, stack, gray + {v}) && v !in gray && v !in stack
    requires v in Keys(g) && forall d :: d in NodeOf(g, v).destinations ==> d in stack
    ensures DfsInv(g, nodes, [v] + stack, gray)
  {
    PushForward(g, stack, v);
  }

  /** A visited key ranked below every gray key is finished. */
  lemma VisitedFinished<K(!new), V>(g: seq<Node<K, V>>, nodes: seq<Node<K, V>>, stack: seq<K>, gray: set<K>,
                                     rank: map<K, nat>, n: nat)
    requires DfsInv(g, nodes, stack, gray) && n < |nodes| && nodes[n].visited
    requires Below(rank, nodes[n].key, gray)
    ensures nodes[n].key in stack
  {
  }

  /** `b` is `a` with more flags set: every node visited in `a` is visited in `b`. */
  ghost predicate FlagsGrow<K, V>(a: seq<Node<K, V>>, b: seq<Node<K, V>>) {
    |a| == |b| && forall m :: 0 <= m < |a| && a[m].visited ==> b[m].visited
  }

  lemma FlagsGrowTrans<K, V>(a: seq<Node<K, V>>, b: seq<Node<K, V>>, c: seq<Node<K, V>>)
    requires FlagsGrow(a, b) && FlagsGrow(b, c)
    ensures FlagsGrow(a, c) && Unvisited(c) <= Unvisited(b)
  {
  }

  /** `a` is what lies below the top of stack `b`: the search only pushes. */
  predicate IsSuffix<T(==)>(a: seq<T>, b: seq<T>) {
    |a| <= |b| && b[|b| - |a|..] == a
  }

  lemma SuffixTrans<T>(a: seq<T>, b: seq<T>, c: seq<T>)
    requires IsSuffix(a, b) && IsSuffix(b, c)
    ensures IsSuffix(a, c)
  {
    assert c[|c| - |a|..] == c[|c| - |b|..][|b| - |a|..];
  }

  lemma SuffixKeeps<T>(a: seq<T>, b: seq<T>)
    requires IsSuffix(a, b)
    ensures forall x :: x in a ==> x in b
  {
    forall x | x in a ensures x in b {
      var i :| 0 <= i < |a| && a[i] == x;
      assert b[|b| - |a| + i] == x;
    }
  }

  lemma SuffixPush<T>(a: seq<T>, b: seq<T>, x: T)
    requires IsSuffix(a, b)
    ensures IsSuffix(a, [x] + b)
  {
    assert ([x] + b)[|[x] + b| - |a|..] == b[|b| - |a|..];
  }

  /** `key` is ranked below every gray key: a search from it cannot reach a running call. */
  ghost predicate Below<K(!new)>(rank: map<K, nat>, key: K, gray: set<K>) {
    key in rank && forall x :: x in gray ==> x in rank && rank[key] < rank[x]
  }

  lemma BelowGray<K(!new)>(rank: map<K, nat>, v: K, gray: set<K>, d: K)
    requires Below(rank, v, gray) && d in rank && rank[d] < rank[v]
    ensures Below(rank, d, gray + {v})
  {
  }

  /** The first `j` entries of `ds` are on `stack`. */
  ghost predicate Finished<K>(ds: seq<K>, j: nat, stack: seq<K>) {
    j <= |ds| && forall m :: 0 <= m < j ==> ds[m] in stack
  }

  lemma FinishedGrow<K>(ds: seq<K>, j: nat, a: seq<K>, b: seq<K>)
    requires j < |ds| && Finished(ds, j, a) && IsSuffix(a, b) && ds[j] in b
    ensures Finished(ds, j + 1, b)
  {
    SuffixKeeps(a, b);
  }

  /** The positions of nodes not yet visited; the search shrinks this set with every call. */
  function Unvisited<K, V>(nodes: seq<Node<K, V>>): set<nat> {
    set i | 0 <= i < |nodes| && !nodes[i].visited
  }
}
