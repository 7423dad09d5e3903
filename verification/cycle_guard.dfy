/**
 * The cycle check of the multi-parent graph: `isAcyclic(graph)` repeatedly deletes the
 * first node whose outdegree is 0 (a leaf, in the code's words) and answers true when
 * the list empties. The main result, `LeafRemovalDecides`, says what that answer means:
 * on a well-formed node list, leaf removal empties the list exactly when no destination
 * list repeats a key or names a missing node, and some ranking of the nodes makes every
 * edge go downhill (no cycle).
 */
module CycleGuard {
  import opened Wrappers
  import opened Lists
  import opened DagNodes

  /** The node `getLeaf(graph)` returns: the first whose outdegree counter is 0. */
  function LeafIndex<K, V>(g: seq<Node<K, V>>): (r: Option<nat>)
    ensures r.Some? ==> r.value < |g| && g[r.value].outdegree == 0 &&
                        forall j :: 0 <= j < r.value ==> g[j].outdegree != 0
    ensures r.None? ==> forall j :: 0 <= j < |g| ==> g[j].outdegree != 0
  {
    if g == [] then None
    else if g[0].outdegree == 0 then Some(0)
    else match LeafIndex(g[1..])
      case None => None
      case Some(i) => Some(i + 1)
  }

  /**
   * The outcome of the leaf-removal loop on `g`: an empty list is acyclic, a list with no
   * leaf is not, otherwise the answer is that for the list with its first leaf deleted.
   */
  ghost predicate LeafRemovalEmpties<K(!new), V>(g: seq<Node<K, V>>)
    decreases |g|
  {
    if g == [] then true
    else match LeafIndex(g)
      case None => false
      case Some(i) =>
        assert Keys(g)[i] == g[i].key;
        LeafRemovalEmpties(Deleted(g, g[i].key))
  }

  /** `rank` covers every node and every edge goes from a higher rank to a lower one. */
  ghost predicate Ranks<K(!new), V>(g: seq<Node<K, V>>, rank: map<K, nat>) {
    (forall i :: 0 <= i < |g| ==> g[i].key in rank) &&
    forall i, d :: 0 <= i < |g| && d in g[i].destinations ==> d in rank && rank[d] < rank[g[i].key]
  }

  /** The graph has no directed cycle: some ranking makes every edge go downhill. */
  ghost predicate Acyclic<K(!new), V>(g: seq<Node<K, V>>) {
    exists rank :: Ranks(g, rank)
  }

  /** The ranks of `h` raised by one, with the deleted leaf `k` at the bottom. */
  ghost function Lift<K(!new)>(rh: map<K, nat>, k: K): map<K, nat> {
    (map x | x in rh :: rh[x] + 1)[k := 0]
  }

  /**
   * The ranking that leaf removal discovers: a node's rank counts how many rounds it
   * outlives the first leaf deleted. Every rank is below the number of nodes.
   */
  ghost function RemovalRanks<K(!new), V>(g: seq<Node<K, V>>): (rank: map<K, nat>)
    requires WellFormed(g) && LeafRemovalEmpties(g)
    ensures forall k :: k in rank <==> k in Keys(g)
    ensures forall k :: k in rank ==> rank[k] < |g|
    ensures Ranks(g, rank)
    decreases |g|
  {
    if g == [] then map[]
    else
      var i := LeafIndex(g).value;
      var k := g[i].key;
      FindUnique(g, i);
      DeletedWellFormed(g, k);
      var rh := RemovalRanks(Deleted(g, k));
      LiftRanks(g, i, rh);
      Lift(rh, k)
  }

  /** One round of `RemovalRanks`: ranking the rest and putting the leaf at 0 ranks the whole list. */
  lemma LiftRanks<K(!new), V>(g: seq<Node<K, V>>, i: nat, rh: map<K, nat>)
    requires WellFormed(g) && i < |g| && g[i].outdegree == 0
    requires g[i].key in Keys(g) && Ranks(Deleted(g, g[i].key), rh)
    requires forall x :: x in rh <==> x in Keys(Deleted(g, g[i].key))
    ensures Ranks(g, Lift(rh, g[i].key))
  {
    var k := g[i].key;
    var h := Deleted(g, k);
    var rank := Lift(rh, k);
    FindUnique(g, i);
    DeletedWellFormed(g, k);
    forall j | 0 <= j < |g| ensures g[j].key in rank {
      if j != i {
        assert g[j].key in Keys(g) by { assert Keys(g)[j] == g[j].key; }
        assert g[j].key != k;
      }
    }
    forall j, d | 0 <= j < |g| && d in g[j].destinations
      ensures d in rank && rank[d] < rank[g[j].key]
    {
      assert j != i;
      var j' := DeletedFrom(g, k, j);
      assert h[j'].key == g[j].key;
      assert g[j].key != k;
      if d != k {
        RemoveFirstIn(g[j].destinations, k, d);
        assert d in h[j'].destinations;
      }
    }
  }

  /** Leaf removal succeeds only on lists whose destination lists are repetition-free and name live nodes. */
  lemma {:induction false} LeafRemovalSimple<K(!new), V>(g: seq<Node<K, V>>)
    requires WellFormed(g) && LeafRemovalEmpties(g)
    ensures SimpleEdges(g)
    decreases |g|
  {
    if g != [] {
      var i := LeafIndex(g).value;
      var k := g[i].key;
      FindUnique(g, i);
      DeletedWellFormed(g, k);
      var h := Deleted(g, k);
      LeafRemovalSimple(h);
      forall j | 0 <= j < |g|
        ensures NoDup(g[j].destinations) && forall d :: d in g[j].destinations ==> d in Keys(g)
      {
        if j != i {
          var j' := DeletedFrom(g, k, j);
          var s := g[j].destinations;
          if k in s {
            assert h[j'].destinations == RemoveFirst(s, k);
            assert k !in h[j'].destinations;
            NoDupBeforeRemove(s, k);
          }
          forall d | d in s ensures d in Keys(g) {
            if d != k {
              RemoveFirstIn(s, k, d);
              assert d in h[j'].destinations;
            }
          }
        }
      }
    }
  }

  /** Deleting any node keeps repetition-free live destination lists and a valid ranking. */
  lemma DeletedKeepsRanks<K(!new), V>(g: seq<Node<K, V>>, key: K, rank: map<K, nat>)
    requires WellFormed(g) && SimpleEdges(g) && Ranks(g, rank) && key in Keys(g)
    ensures SimpleEdges(Deleted(g, key)) && Ranks(Deleted(g, key), rank)
  {
    var h := Deleted(g, key);
    var i := Find(g, key).value;
    DeletedWellFormed(g, key);
    forall j' | 0 <= j' < |h|
      ensures NoDup(h[j'].destinations) && forall d :: d in h[j'].destinations ==> d in Keys(h)
      ensures h[j'].key in rank
      ensures forall d :: d in h[j'].destinations ==> d in rank && rank[d] < rank[h[j'].key]
    {
      DeletedAt(g, key, j');
      var j := Skip(j', i);
      var s := g[j].destinations;
      RemoveFirstNoDup(s, key);
      forall d | d in h[j'].destinations ensures d in Keys(h) && d in rank && rank[d] < rank[h[j'].key] {
        RemoveFirstIn(s, key, d);
      }
    }
  }

  /** In a ranked list whose destinations are all live, a node of least rank is a leaf. */
  lemma LeastRankLeaf<K(!new), V>(g: seq<Node<K, V>>, rank: map<K, nat>)
    requires WellFormed(g) && SimpleEdges(g) && Ranks(g, rank) && g != []
    ensures LeafIndex(g).Some?
  {
    var m := LeastRank(g, rank);
    if g[m].destinations != [] {
      KeysIndex(g, g[m].destinations[0]);
      assert false;
    }
  }

  /** The position of a node of least rank. */
  ghost function LeastRank<K(!new), V>(g: seq<Node<K, V>>, rank: map<K, nat>): (m: nat)
    requires g != [] && forall i :: 0 <= i < |g| ==> g[i].key in rank
    ensures m < |g| && forall j :: 0 <= j < |g| ==> rank[g[m].key] <= rank[g[j].key]
  {
    if |g| == 1 then 0
    else
      var m := LeastRank(g[1..], rank) + 1;
      if rank[g[0].key] <= rank[g[m].key] then 0 else m
  }

  /** A ranked list whose destinations are repetition-free and live is emptied by leaf removal. */
  lemma {:induction false} RankedEmpties<K(!new), V>(g: seq<Node<K, V>>, rank: map<K, nat>)
    requires WellFormed(g) && SimpleEdges(g) && Ranks(g, rank)
    ensures LeafRemovalEmpties(g)
    decreases |g|
  {
    if g != [] {
      LeastRankLeaf(g, rank);
      var i := LeafIndex(g).value;
      var k := g[i].key;
      FindUnique(g, i);
      DeletedWellFormed(g, k);
      DeletedKeepsRanks(g, k, rank);
      RankedEmpties(Deleted(g, k), rank);
    }
  }

  /**
   * What `isAcyclic` decides: on a well-formed list, leaf removal empties it exactly when
   * the destination lists are repetition-free and live and the graph has no cycle.
   */
  lemma LeafRemovalDecides<K(!new), V>(g: seq<Node<K, V>>)
    requires WellFormed(g)
    ensures LeafRemovalEmpties(g) <==> SimpleEdges(g) && Acyclic(g)
  {
    if LeafRemovalEmpties(g) {
      LeafRemovalSimple(g);
      var rank := RemovalRanks(g);
      assert Ranks(g, rank);
    }
    if SimpleEdges(g) && Acyclic(g) {
      var rank :| Ranks(g, rank);
      RankedEmpties(g, rank);
    }
  }
}
