/**
 * What the multi-parent graph keeps true between calls: unique keys, degree counters
 * that match their lists, repetition-free destination lists naming live nodes, and no
 * cycle. Each lemma shows that one step of `addNode`, `addEdge`, `deleteNode` or
 * `cloneGraph` keeps it.
 */
module GraphInvariants {
  import opened Wrappers
  import opened Lists
  import opened DagNodes
  import opened CycleGuard

  /** The shape invariant of the node list. */
  ghost predicate Sound<K(!new), V>(g: seq<Node<K, V>>) {
    WellFormed(g) && SimpleEdges(g) && Acyclic(g)
  }

  /**
   * Every ancestor entry names a live node that lists the child among its destinations
   * (what `addEdge` establishes; `deleteNode` does not remove a deleted node from its
   * children's ancestor lists).
   */
  ghost predicate AncestorsConsistent<K(!new), V>(g: seq<Node<K, V>>) {
    forall i, a :: 0 <= i < |g| && a in g[i].ancestors ==> a in Keys(g) && g[i].key in NodeOf(g, a).destinations
  }

  /** One ancestor entry of a consistent list. */
  lemma ConsistentAt<K(!new), V>(g: seq<Node<K, V>>, i: nat, a: K)
    requires AncestorsConsistent(g) && i < |g| && a in g[i].ancestors
    ensures a in Keys(g) && g[i].key in NodeOf(g, a).destinations
  {
  }

  lemma FindAppended<K, V>(g: seq<Node<K, V>>, n: Node<K, V>, a: K)
    requires a in Keys(g)
    ensures a in Keys(g + [n]) && Find(g + [n], a) == Find(g, a)
  {
    var x := Find(g, a).value;
    assert Keys(g + [n])[x] == a;
  }

  /** `addNode`'s append keeps ancestor entries consistent: the new node has none, and no old node moves. */
  lemma AppendFreshConsistent<K(!new), V>(g: seq<Node<K, V>>, key: K, val: V)
    requires AncestorsConsistent(g)
    ensures AncestorsConsistent(g + [Fresh(key, val)])
  {
    var h := g + [Fresh(key, val)];
    forall i, a | 0 <= i < |h| && a in h[i].ancestors
      ensures a in Keys(h) && h[i].key in NodeOf(h, a).destinations
    {
      assert i < |g| && h[i] == g[i];
      ConsistentAt(g, i, a);
      FindAppended(g, Fresh(key, val), a);
    }
  }

  /**
   * `addEdge`'s insertion keeps ancestor entries consistent: the one new entry, `v` among
   * `w`'s ancestors, comes with `w` among `v`'s destinations, and destinations only grow.
   */
  lemma LinkedConsistent<K(!new), V>(g: seq<Node<K, V>>, v: K, w: K)
    requires AncestorsConsistent(g) && v in Keys(g) && w in Keys(g)
    ensures AncestorsConsistent(Linked(g, v, w))
  {
    var h := Linked(g, v, w);
    forall i, a | 0 <= i < |h| && a in h[i].ancestors
      ensures a in Keys(h) && h[i].key in NodeOf(h, a).destinations
    {
      if a in g[i].ancestors {
        ConsistentAt(g, i, a);
      }
      LinkedEntry(g, v, w, i, a);
    }
  }

  lemma LinkedEntry<K(!new), V>(g: seq<Node<K, V>>, v: K, w: K, i: nat, a: K)
    requires v in Keys(g) && w in Keys(g) && i < |g| && a in Linked(g, v, w)[i].ancestors
    requires a in g[i].ancestors ==> a in Keys(g) && g[i].key in NodeOf(g, a).destinations
    ensures a in Keys(Linked(g, v, w)) && Linked(g, v, w)[i].key in NodeOf(Linked(g, v, w), a).destinations
  {
    var h := Linked(g, v, w);
    LinkedKeys(g, v, w);
    LinkedAt(g, v, w, i);
    assert a in Keys(g);
    var ia := Find(g, a).value;
    FindKeys(g, h, a);
    LinkedAt(g, v, w, ia);
  }

  /** Lists equal up to the order of their entries agree on ancestor consistency. */
  lemma SameUpToOrderConsistent<K(!new), V>(g: seq<Node<K, V>>, h: seq<Node<K, V>>)
    requires SameUpToOrder(g, h) && AncestorsConsistent(g)
    ensures AncestorsConsistent(h)
  {
    SameUpToOrderKeys(g, h);
    forall i, a | 0 <= i < |h| && a in h[i].ancestors
      ensures a in Keys(h) && h[i].key in NodeOf(h, a).destinations
    {
      assert a in g[i].ancestors by {
        assert a in multiset(h[i].ancestors);
      }
      SameUpToOrderEntry(g, h, i, a);
    }
  }

  lemma SameUpToOrderEntry<K(!new), V>(g: seq<Node<K, V>>, h: seq<Node<K, V>>, i: nat, a: K)
    requires SameUpToOrder(g, h) && i < |g| && a in Keys(g) && g[i].key in NodeOf(g, a).destinations
    ensures a in Keys(h) && h[i].key in NodeOf(h, a).destinations
  {
    SameUpToOrderKeys(g, h);
    var ia := Find(g, a).value;
    FindKeys(g, h, a);
    assert g[i].key in multiset(g[ia].destinations);
  }

  /**
   * `deleteNode` keeps ancestor entries consistent when the deleted node has no
   * destinations: no remaining node then lists it as an ancestor, and the surviving
   * nodes lose only entries naming the deleted key.
   */
  lemma DeletedConsistent<K(!new), V>(g: seq<Node<K, V>>, key: K)
    requires WellFormed(g) && AncestorsConsistent(g) && key in Keys(g)
    requires NodeOf(g, key).destinations == []
    ensures AncestorsConsistent(Deleted(g, key))
  {
    var d := Deleted(g, key);
    var i := Find(g, key).value;
    forall j, a | 0 <= j < |d| && a in d[j].ancestors
      ensures a in Keys(d) && d[j].key in NodeOf(d, a).destinations
    {
      DeletedAt(g, key, j);
      var m := Skip(j, i);
      ConsistentAt(g, m, a);
      DeletedEntry(g, key, m, a);
    }
  }

  lemma DeletedEntry<K(!new), V>(g: seq<Node<K, V>>, key: K, m: nat, a: K)
    requires WellFormed(g) && key in Keys(g) && NodeOf(g, key).destinations == []
    requires m < |g| && m != Find(g, key).value
    requires a in Keys(g) && g[m].key in NodeOf(g, a).destinations
    ensures a in Keys(Deleted(g, key))
    ensures g[m].key in NodeOf(Deleted(g, key), a).destinations
  {
    var d := Deleted(g, key);
    var i := Find(g, key).value;
    DeletedWellFormed(g, key);
    var ja := Find(d, a).value;
    DeletedAt(g, key, ja);
    var ma := Skip(ja, i);
    FindUnique(g, ma);
    RemoveFirstIn(g[ma].destinations, key, g[m].key);
  }

  /** `addNode`'s append: a fresh node under a new key keeps the list sound and adds no edge. */
  lemma AppendFreshSound<K(!new), V>(g: seq<Node<K, V>>, key: K, val: V)
    requires Sound(g) && key !in Keys(g)
    ensures Keys(g + [Fresh(key, val)]) == Keys(g) + [key]
    ensures Sound(g + [Fresh(key, val)])
    ensures SumOut(g + [Fresh(key, val)]) == SumOut(g)
  {
    var h := g + [Fresh(key, val)];
    assert Keys(h) == Keys(g) + [key];
    forall i | 0 <= i < |g| ensures g[i].key != key {
      assert Keys(g)[i] == g[i].key;
    }
    var rank :| Ranks(g, rank);
    var rank' := rank[key := 0];
    forall i, d | 0 <= i < |h| && d in h[i].destinations ensures d in rank' && rank'[d] < rank'[h[i].key] {
      assert i < |g| && d in Keys(g);
    }
    assert Ranks(h, rank');
    SumOutAppend(g, Fresh(key, val));
  }

  /**
   * `addEdge`'s speculative insertion keeps the list well formed and raises the outdegree
   * sum by one; on a list with simple edges, the result has simple edges exactly when `w`
   * was not yet a destination of `v`.
   */
  lemma LinkedWellFormed<K(!new), V>(g: seq<Node<K, V>>, v: K, w: K)
    requires WellFormed(g) && v in Keys(g) && w in Keys(g)
    ensures WellFormed(Linked(g, v, w))
    ensures SumOut(Linked(g, v, w)) == SumOut(g) + 1
    ensures SimpleEdges(g) ==> (SimpleEdges(Linked(g, v, w)) <==> w !in NodeOf(g, v).destinations)
  {
    LinkedDegrees(g, v, w);
    LinkedSumOut(g, v, w);
    if SimpleEdges(g) {
      LinkedSimple(g, v, w);
    }
  }

  lemma LinkedDegrees<K(!new), V>(g: seq<Node<K, V>>, v: K, w: K)
    requires WellFormed(g) && v in Keys(g) && w in Keys(g)
    ensures WellFormed(Linked(g, v, w))
  {
    var h := Linked(g, v, w);
    forall i | 0 <= i < |g|
      ensures h[i].outdegree == |h[i].destinations| && h[i].indegree == |h[i].ancestors|
      ensures h[i].key == g[i].key
    {
      LinkedAt(g, v, w, i);
    }
  }

  lemma LinkedSumOut<K(!new), V>(g: seq<Node<K, V>>, v: K, w: K)
    requires v in Keys(g) && w in Keys(g)
    ensures SumOut(Linked(g, v, w)) == SumOut(g) + 1
  {
    var iv, iw := Find(g, v).value, Find(g, w).value;
    var n1 := g[iv].(destinations := g[iv].destinations + [w], outdegree := g[iv].outdegree + 1);
    var g1 := g[iv := n1];
    var n2 := g1[iw].(indegree := g1[iw].indegree + 1, ancestors := g1[iw].ancestors + [v]);
    assert n2.outdegree == g1[iw].outdegree;
    var l := Linked(g, v, w);
    assert |l| == |g1|;
    forall i | 0 <= i < |l| ensures l[i] == g1[iw := n2][i] {
    }
    assert l == g1[iw := n2];
    SumOutUpdate(g, iv, n1);
    SumOutUpdate(g1, iw, n2);
  }

  lemma LinkedSimple<K(!new), V>(g: seq<Node<K, V>>, v: K, w: K)
    requires SimpleEdges(g) && v in Keys(g) && w in Keys(g)
    ensures SimpleEdges(Linked(g, v, w)) <==> w !in NodeOf(g, v).destinations
  {
    var h := Linked(g, v, w);
    var iv := Find(g, v).value;
    var s := g[iv].destinations;
    LinkedKeys(g, v, w);
    LinkedAt(g, v, w, iv);
    if w !in s {
      forall i | 0 <= i < |h|
        ensures NoDup(h[i].destinations) && forall d :: d in h[i].destinations ==> d in Keys(h)
      {
        LinkedAt(g, v, w, i);
      }
    } else {
      var p :| 0 <= p < |s| && s[p] == w;
      assert (s + [w])[p] == (s + [w])[|s|];
    }
  }

  /** Lists equal up to the order of their entries agree on soundness and on the outdegree sum. */
  lemma SameUpToOrderSound<K(!new), V>(g: seq<Node<K, V>>, h: seq<Node<K, V>>)
    requires SameUpToOrder(g, h) && Sound(g)
    ensures Sound(h) && SumOut(h) == SumOut(g)
  {
    SameUpToOrderKeys(g, h);
    SumOutSameUpToOrder(g, h);
    forall i | 0 <= i < |h|
      ensures h[i].outdegree == |h[i].destinations| && h[i].indegree == |h[i].ancestors|
      ensures NoDup(h[i].destinations)
      ensures forall d :: d in h[i].destinations <==> d in g[i].destinations
    {
      assert |multiset(h[i].destinations)| == |h[i].destinations|;
      assert |multiset(h[i].ancestors)| == |h[i].ancestors|;
      NoDupSameMultiset(g[i].destinations, h[i].destinations);
      forall d ensures d in h[i].destinations <==> d in g[i].destinations {
        assert d in h[i].destinations <==> d in multiset(h[i].destinations);
        assert d in g[i].destinations <==> d in multiset(g[i].destinations);
      }
    }
    var rank :| Ranks(g, rank);
    assert Ranks(h, rank);
  }

  /**
   * `addEdge`'s undo gives back a sound list with the same outdegree sum, equal to the
   * original up to entry order, and equal outright when the edge was new.
   */
  lemma RejectedEdge<K(!new), V>(g: seq<Node<K, V>>, v: K, w: K)
    requires Sound(g) && v in Keys(g) && w in Keys(g)
    ensures SameUpToOrder(g, Unlinked(Linked(g, v, w), v, w))
    ensures Sound(Unlinked(Linked(g, v, w), v, w))
    ensures SumOut(Unlinked(Linked(g, v, w), v, w)) == SumOut(g)
    ensures w !in NodeOf(g, v).destinations && v !in NodeOf(g, w).ancestors ==>
              Unlinked(Linked(g, v, w), v, w) == g
  {
    LinkUnlink(g, v, w);
    SameUpToOrderSound(g, Unlinked(Linked(g, v, w), v, w));
    if w !in NodeOf(g, v).destinations && v !in NodeOf(g, w).ancestors {
      LinkUnlinkNew(g, v, w);
    }
  }

  /**
   * What `addEdge(v, w)` leaves as the node list `r` of `g`, reporting `added`: with a null
   * or unknown key, `g` itself and false. Otherwise the edge stays (true) exactly when `w`
   * was not yet a destination of `v` and the new edge closes no cycle; a refused edge is
   * undone by removing the first `w` and the first `v` again, which gives `g` up to the
   * order of list entries, and `g` itself when the edge was new.
   */
  ghost predicate AddEdgeOutcome<K(!new), V>(g: seq<Node<K, V>>, v: Option<K>, w: Option<K>, added: bool,
                                             r: seq<Node<K, V>>) {
    if Present(g, v) && Present(g, w) then
      (added <==> w.value !in NodeOf(g, v.value).destinations && Acyclic(Linked(g, v.value, w.value))) &&
      (added ==> r == Linked(g, v.value, w.value)) &&
      (!added ==> r == Unlinked(Linked(g, v.value, w.value), v.value, w.value) && SameUpToOrder(g, r) &&
                  (w.value !in NodeOf(g, v.value).destinations && v.value !in NodeOf(g, w.value).ancestors ==> r == g))
    else
      !added && r == g
  }

  /**
   * `addEdge` keeps an edge when the linked list has simple edges and no cycle: then `w`
   * was not yet a destination of `v`, and the list is sound with one more destination entry.
   */
  lemma EdgeKept<K(!new), V>(g: seq<Node<K, V>>, v: K, w: K)
    requires Sound(g) && v in Keys(g) && w in Keys(g)
    requires SimpleEdges(Linked(g, v, w)) && Acyclic(Linked(g, v, w))
    ensures AddEdgeOutcome(g, Some(v), Some(w), true, Linked(g, v, w))
    ensures Sound(Linked(g, v, w)) && SumOut(Linked(g, v, w)) == SumOut(g) + 1
  {
    LinkedWellFormed(g, v, w);
  }

  /**
   * `addEdge` undoes an edge that repeats one or closes a cycle; the undone list is sound
   * with as many destination entries as before.
   */
  lemma EdgeRefused<K(!new), V>(g: seq<Node<K, V>>, v: K, w: K, r: seq<Node<K, V>>)
    requires Sound(g) && v in Keys(g) && w in Keys(g) && r == Unlinked(Linked(g, v, w), v, w)
    requires !(SimpleEdges(Linked(g, v, w)) && Acyclic(Linked(g, v, w)))
    ensures AddEdgeOutcome(g, Some(v), Some(w), false, r)
    ensures Sound(r) && SumOut(r) == SumOut(g)
  {
    LinkedWellFormed(g, v, w);
    RejectedEdge(g, v, w);
  }

  /** The clone has the same keys and is sound exactly when the original is. */
  lemma ClearedSound<K(!new), V>(g: seq<Node<K, V>>)
    ensures Keys(Cleared(g)) == Keys(g)
    ensures WellFormed(Cleared(g)) <==> WellFormed(g)
    ensures SimpleEdges(Cleared(g)) <==> SimpleEdges(g)
    ensures Acyclic(Cleared(g)) <==> Acyclic(g)
  {
    var c := Cleared(g);
    SameKeys(g, c);
    forall rank ensures Ranks(c, rank) <==> Ranks(g, rank) {
    }
    if Acyclic(g) {
      var rank :| Ranks(g, rank);
      assert Ranks(c, rank);
    }
    if Acyclic(c) {
      var rank :| Ranks(c, rank);
      assert Ranks(g, rank);
    }
  }

  /** In an acyclic list no node lists itself, so deleting a node does not touch its own destinations. */
  lemma NoSelfLoop<K(!new), V>(g: seq<Node<K, V>>, i: nat)
    requires Acyclic(g) && i < |g|
    ensures g[i].key !in g[i].destinations
  {
    var rank :| Ranks(g, rank);
  }

  /**
   * `deleteNode` keeps the list sound and, where the counter `E` and the outdegree sum
   * part ways, the gap grows by the number of parents the deleted node had.
   */
  lemma DeletedSound<K(!new), V>(g: seq<Node<K, V>>, key: K)
    requires Sound(g) && key in Keys(g)
    ensures Sound(Deleted(g, key))
    ensures Strip(NodeOf(g, key), key) == NodeOf(g, key)
    ensures SumOut(Deleted(g, key)) == SumOut(g) - Parents(g, key) - NodeOf(g, key).outdegree
  {
    var i := Find(g, key).value;
    var rank :| Ranks(g, rank);
    DeletedWellFormed(g, key);
    DeletedKeepsRanks(g, key, rank);
    NoSelfLoop(g, i);
    SumOutStripAll(g, key);
    SumOutRemoveAt(StripAll(g, key), i);
  }
}
