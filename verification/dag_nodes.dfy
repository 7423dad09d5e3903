/**
 * The node store of the multi-parent graph
 * (LowestCommonAncestor/src/lowestCommonAncestor/DirectedAcyclicGraph.java):
 * the node record, lookup by key, and the effect on a node list of the
 * three mutations -- append a node, link an edge (and undo it), delete a node.
 */
module DagNodes {
  import opened Wrappers
  import opened Lists

  /**
   * A node record. `destinations` are the keys of its children, `ancestors` the keys of
   * its parents; both are lists, so an entry may in principle repeat. `visited` is the
   * scratch flag of the depth-first sort.
   */
  datatype Node<K, V> = Node(key: K, val: V, destinations: seq<K>, ancestors: seq<K>,
                             indegree: int, outdegree: int, visited: bool)

  /** A node as `new Node(key, val)` creates it: no edges, both counters 0, not visited. */
  function Fresh<K, V>(key: K, val: V): Node<K, V> {
    Node(key, val, [], [], 0, 0, false)
  }

  /** The keys of a node list, in list order. */
  function Keys<K, V>(g: seq<Node<K, V>>): seq<K> {
    seq(|g|, i requires 0 <= i < |g| => g[i].key)
  }

  /** The linear search of `get(key, graph)`: the index of the first node holding `key`. */
  function Find<K(==), V>(g: seq<Node<K, V>>, key: K): (r: Option<nat>)
    ensures r.Some? ==> r.value < |g| && g[r.value].key == key &&
                        forall j :: 0 <= j < r.value ==> g[j].key != key
    ensures r.None? <==> key !in Keys(g)
  {
    if g == [] then None
    else
      assert Keys(g) == [g[0].key] + Keys(g[1..]);
      if g[0].key == key then Some(0)
      else match Find(g[1..], key)
        case None => None
        case Some(i) => Some(i + 1)
  }

  /** The node that `get(key)` returns for a key that is present. */
  function NodeOf<K(==), V>(g: seq<Node<K, V>>, key: K): Node<K, V>
    requires key in Keys(g)
  {
    g[Find(g, key).value]
  }

  /** A non-null key held by some node (`get(key) != null`). */
  predicate Present<K(==), V>(g: seq<Node<K, V>>, key: Option<K>) {
    key.Some? && key.value in Keys(g)
  }

  /** The set of keys held by the nodes. */
  function KeySet<K, V>(g: seq<Node<K, V>>): set<K> {
    set i | 0 <= i < |g| :: g[i].key
  }

  /** With unique keys there are as many keys as nodes. */
  lemma {:induction false} KeySetSize<K, V>(g: seq<Node<K, V>>)
    requires UniqueKeys(g)
    ensures |KeySet(g)| == |g|
    decreases |g|
  {
    if g != [] {
      var init := g[..|g| - 1];
      KeySetSize(init);
      assert KeySet(g) == KeySet(init) + {g[|g| - 1].key};
      assert g[|g| - 1].key !in KeySet(init);
    }
  }

  /** The search depends on the keys alone. */
  lemma {:induction false} FindKeys<K, V>(g: seq<Node<K, V>>, h: seq<Node<K, V>>, key: K)
    requires Keys(g) == Keys(h)
    ensures Find(g, key) == Find(h, key)
    decreases |g|
  {
    assert |g| == |Keys(g)| == |h|;
    if g != [] {
      assert Keys(g[1..]) == Keys(g)[1..] && Keys(h[1..]) == Keys(h)[1..];
      assert g[0].key == Keys(g)[0] == h[0].key;
      FindKeys(g[1..], h[1..], key);
    }
  }

  /** The copy `cloneGraph` makes: every field kept except `visited`, which a new node starts without. */
  function Cleared<K, V>(g: seq<Node<K, V>>): (r: seq<Node<K, V>>)
    ensures |r| == |g| && forall i :: 0 <= i < |g| ==> r[i] == g[i].(visited := false)
  {
    seq(|g|, i requires 0 <= i < |g| => g[i].(visited := false))
  }

  /** No two nodes share a key (`addNode` refuses a duplicate). */
  predicate UniqueKeys<K(==), V>(g: seq<Node<K, V>>) {
    forall i, j :: 0 <= i < j < |g| ==> g[i].key != g[j].key
  }

  /** The cached counters agree with the lists they count. */
  predicate DegreesMatch<K, V>(g: seq<Node<K, V>>) {
    forall i :: 0 <= i < |g| ==> g[i].outdegree == |g[i].destinations| && g[i].indegree == |g[i].ancestors|
  }

  predicate WellFormed<K(==), V>(g: seq<Node<K, V>>) {
    UniqueKeys(g) && DegreesMatch(g)
  }

  /** Every destination list is free of repetitions and names only nodes of the list. */
  predicate SimpleEdges<K(==), V>(g: seq<Node<K, V>>) {
    forall i :: 0 <= i < |g| ==>
      NoDup(g[i].destinations) && forall d :: d in g[i].destinations ==> d in Keys(g)
  }

  /** With unique keys, the search finds exactly the node that holds the key. */
  lemma FindUnique<K, V>(g: seq<Node<K, V>>, i: nat)
    requires UniqueKeys(g) && i < |g|
    ensures g[i].key in Keys(g) && Find(g, g[i].key) == Some(i)
  {
    assert Keys(g)[i] == g[i].key;
  }

  /** The key is present exactly when some node holds it. */
  lemma KeysIndex<K, V>(g: seq<Node<K, V>>, key: K)
    ensures key in Keys(g) <==> exists i :: 0 <= i < |g| && g[i].key == key
  {
    if key in Keys(g) {
      var i :| 0 <= i < |g| && Keys(g)[i] == key;
    }
    if i :| 0 <= i < |g| && g[i].key == key {
      assert Keys(g)[i] == key;
    }
  }

  // ---------------------------------------------------------------- delete

  /** One pass of `deleteNode`'s loop on a node: drop the first `key` from its destinations. */
  function Strip<K(==), V>(n: Node<K, V>, key: K): Node<K, V> {
    if key in n.destinations then
      n.(destinations := RemoveFirst(n.destinations, key), outdegree := n.outdegree - 1)
    else n
  }

  function StripAll<K(==), V>(g: seq<Node<K, V>>, key: K): seq<Node<K, V>> {
    seq(|g|, i requires 0 <= i < |g| => Strip(g[i], key))
  }

  function RemoveAt<T>(s: seq<T>, i: nat): seq<T>
    requires i < |s|
  {
    s[..i] + s[i + 1..]
  }

  /**
   * The node list after `deleteNode(key, graph)` finds `key`: every node loses its first
   * `key` destination, then the node holding `key` leaves the list.
   */
  function Deleted<K(==), V>(g: seq<Node<K, V>>, key: K): (r: seq<Node<K, V>>)
    requires key in Keys(g)
    ensures |r| == |g| - 1
  {
    RemoveAt(StripAll(g, key), Find(g, key).value)
  }

  /** Position `j` of the shorter list comes from position `Skip(j, i)` of the longer one. */
  function Skip(j: nat, i: nat): nat {
    if j < i then j else j + 1
  }

  lemma DeletedAt<K, V>(g: seq<Node<K, V>>, key: K, j: nat)
    requires key in Keys(g) && j < |g| - 1
    ensures |Deleted(g, key)| == |g| - 1
    ensures Skip(j, Find(g, key).value) < |g|
    ensures Deleted(g, key)[j] == Strip(g[Skip(j, Find(g, key).value)], key)
  {
    var i := Find(g, key).value;
    var st := StripAll(g, key);
    assert Deleted(g, key) == st[..i] + st[i + 1..];
    assert Deleted(g, key)[j] == st[Skip(j, i)];
  }

  /** Every node other than the deleted one survives, stripped of `key`. */
  lemma DeletedFrom<K, V>(g: seq<Node<K, V>>, key: K, j: nat) returns (j': nat)
    requires key in Keys(g) && j < |g| && j != Find(g, key).value
    ensures j' < |Deleted(g, key)| && Deleted(g, key)[j'] == Strip(g[j], key)
  {
    var i := Find(g, key).value;
    j' := if j < i then j else j - 1;
    DeletedAt(g, key, j');
  }

  /** Deleting a present key removes exactly that key and keeps the list well formed. */
  lemma {:induction false} DeletedWellFormed<K, V>(g: seq<Node<K, V>>, key: K)
    requires WellFormed(g) && key in Keys(g)
    ensures WellFormed(Deleted(g, key))
    ensures forall k :: k in Keys(Deleted(g, key)) <==> k in Keys(g) && k != key
  {
    var d := Deleted(g, key);
    var i := Find(g, key).value;
    assert |d| == |g| - 1;
    forall j | 0 <= j < |d| ensures d[j].key == g[Skip(j, i)].key {
      DeletedAt(g, key, j);
    }
    forall a, b | 0 <= a < b < |d| ensures d[a].key != d[b].key {
      assert Skip(a, i) < Skip(b, i);
    }
    forall j | 0 <= j < |d|
      ensures d[j].outdegree == |d[j].destinations| && d[j].indegree == |d[j].ancestors|
    {
      DeletedAt(g, key, j);
    }
    forall k ensures k in Keys(d) <==> k in Keys(g) && k != key {
      KeysIndex(d, k);
      KeysIndex(g, k);
      if k in Keys(g) && k != key {
        var m :| 0 <= m < |g| && g[m].key == k;
        assert m != i;
        var j := if m < i then m else m - 1;
        assert Skip(j, i) == m;
        assert d[j].key == k;
      }
    }
  }

  /** Two lists that agree away from position `t` still agree once position `t` is removed. */
  lemma RemoveAtSame<T>(a: seq<T>, b: seq<T>, t: nat)
    requires |a| == |b| && t < |a| && forall m :: 0 <= m < |a| && m != t ==> a[m] == b[m]
    ensures RemoveAt(a, t) == RemoveAt(b, t)
  {
    forall p | 0 <= p < |a| - 1 ensures RemoveAt(a, t)[p] == RemoveAt(b, t)[p] {
      assert RemoveAt(a, t)[p] == a[Skip(p, t)] && RemoveAt(b, t)[p] == b[Skip(p, t)];
    }
  }

  // ---------------------------------------------------------------- edges

  /** The speculative insertion of `addEdge(v, w)`: `w` appended to `v`'s destinations, `v` to `w`'s ancestors. */
  function Linked<K(==), V>(g: seq<Node<K, V>>, v: K, w: K): (r: seq<Node<K, V>>)
    requires v in Keys(g) && w in Keys(g)
    ensures |r| == |g|
  {
    var iv := Find(g, v).value;
    var iw := Find(g, w).value;
    var g1 := g[iv := g[iv].(destinations := g[iv].destinations + [w], outdegree := g[iv].outdegree + 1)];
    g1[iw := g1[iw].(indegree := g1[iw].indegree + 1, ancestors := g1[iw].ancestors + [v])]
  }

  /**
   * The undo of `addEdge`: the first `w` removed from `v`'s destinations, the first `v`
   * from `w`'s ancestors (nothing to undo when either key is missing).
   */
  function Unlinked<K(==), V>(g: seq<Node<K, V>>, v: K, w: K): (r: seq<Node<K, V>>)
    ensures |r| == |g|
  {
    if v in Keys(g) && w in Keys(g) then
      var iv := Find(g, v).value;
      var iw := Find(g, w).value;
      var g1 := g[iv := g[iv].(destinations := RemoveFirst(g[iv].destinations, w), outdegree := g[iv].outdegree - 1)];
      g1[iw := g1[iw].(indegree := g1[iw].indegree - 1, ancestors := RemoveFirst(g1[iw].ancestors, v))]
    else g
  }

  /** Linking keeps the keys in place. */
  lemma LinkedKeys<K, V>(g: seq<Node<K, V>>, v: K, w: K)
    requires v in Keys(g) && w in Keys(g)
    ensures Keys(Linked(g, v, w)) == Keys(g)
  {
    SameKeys(g, Linked(g, v, w));
  }

  /** Node `i` after unlinking: `v`'s node loses its first `w` and an outdegree, `w`'s node its first `v` and an indegree. */
  lemma UnlinkedAt<K, V>(g: seq<Node<K, V>>, v: K, w: K, i: nat)
    requires v in Keys(g) && w in Keys(g) && i < |g|
    ensures var iv, iw := Find(g, v).value, Find(g, w).value;
      Unlinked(g, v, w)[i] ==
        Node(g[i].key, g[i].val,
             if i == iv then RemoveFirst(g[i].destinations, w) else g[i].destinations,
             if i == iw then RemoveFirst(g[i].ancestors, v) else g[i].ancestors,
             if i == iw then g[i].indegree - 1 else g[i].indegree,
             if i == iv then g[i].outdegree - 1 else g[i].outdegree,
             g[i].visited)
  {
  }

  lemma SameKeys<K, V>(g: seq<Node<K, V>>, h: seq<Node<K, V>>)
    requires |g| == |h| && forall i :: 0 <= i < |g| ==> g[i].key == h[i].key
    ensures Keys(g) == Keys(h)
  {
  }

  /** Two node lists that differ at most in the order of destination and ancestor entries. */
  ghost predicate SameUpToOrder<K, V>(g: seq<Node<K, V>>, h: seq<Node<K, V>>) {
    |g| == |h| &&
    forall i :: 0 <= i < |g| ==>
      g[i].key == h[i].key && g[i].val == h[i].val && g[i].visited == h[i].visited &&
      g[i].indegree == h[i].indegree && g[i].outdegree == h[i].outdegree &&
      multiset(g[i].destinations) == multiset(h[i].destinations) &&
      multiset(g[i].ancestors) == multiset(h[i].ancestors)
  }

  /** Node `i` after linking: `v`'s node gains `w` and an outdegree, `w`'s node gains `v` and an indegree. */
  lemma LinkedAt<K, V>(g: seq<Node<K, V>>, v: K, w: K, i: nat)
    requires v in Keys(g) && w in Keys(g) && i < |g|
    ensures var iv, iw := Find(g, v).value, Find(g, w).value;
      Linked(g, v, w)[i] ==
        Node(g[i].key, g[i].val,
             if i == iv then g[i].destinations + [w] else g[i].destinations,
             if i == iw then g[i].ancestors + [v] else g[i].ancestors,
             if i == iw then g[i].indegree + 1 else g[i].indegree,
             if i == iv then g[i].outdegree + 1 else g[i].outdegree,
             g[i].visited)
  {
  }

  /** What linking then unlinking does to node `i`. */
  lemma LinkUnlinkAt<K, V>(g: seq<Node<K, V>>, v: K, w: K, i: nat)
    requires v in Keys(g) && w in Keys(g) && i < |g|
    ensures Keys(Linked(g, v, w)) == Keys(g)
    ensures |Unlinked(Linked(g, v, w), v, w)| == |g|
    ensures var u := Unlinked(Linked(g, v, w), v, w)[i];
      u.key == g[i].key && u.val == g[i].val && u.visited == g[i].visited &&
      u.indegree == g[i].indegree && u.outdegree == g[i].outdegree &&
      u.destinations == (if i == Find(g, v).value then RemoveFirst(g[i].destinations + [w], w) else g[i].destinations) &&
      u.ancestors == (if i == Find(g, w).value then RemoveFirst(g[i].ancestors + [v], v) else g[i].ancestors)
  {
    var h := Linked(g, v, w);
    LinkedKeys(g, v, w);
    FindKeys(g, h, v);
    FindKeys(g, h, w);
    LinkedAt(g, v, w, i);
    UnlinkedAt(h, v, w, i);
  }

  lemma RemoveAppendedSame<T>(s: seq<T>, x: T)
    ensures multiset(RemoveFirst(s + [x], x)) == multiset(s)
  {
    RemoveFirstMultiset(s + [x], x);
    assert multiset(s + [x]) == multiset(s) + multiset{x};
  }

  lemma LinkUnlinkSameAt<K, V>(g: seq<Node<K, V>>, v: K, w: K, i: nat)
    requires v in Keys(g) && w in Keys(g) && i < |g|
    ensures var u := Unlinked(Linked(g, v, w), v, w)[i];
      g[i].key == u.key && g[i].val == u.val && g[i].visited == u.visited &&
      g[i].indegree == u.indegree && g[i].outdegree == u.outdegree &&
      multiset(g[i].destinations) == multiset(u.destinations) &&
      multiset(g[i].ancestors) == multiset(u.ancestors)
  {
    LinkUnlinkAt(g, v, w, i);
    RemoveAppendedSame(g[i].destinations, w);
    RemoveAppendedSame(g[i].ancestors, v);
  }

  /**
   * Linking then unlinking gives back the same list up to the order of entries. (When `w`
   * was already a destination of `v`, the removal takes the older entry, so that entry
   * moves to the end of both lists.)
   */
  lemma {:induction false} LinkUnlink<K, V>(g: seq<Node<K, V>>, v: K, w: K)
    requires v in Keys(g) && w in Keys(g)
    ensures SameUpToOrder(g, Unlinked(Linked(g, v, w), v, w))
  {
    var u := Unlinked(Linked(g, v, w), v, w);
    forall i | 0 <= i < |g|
      ensures g[i].key == u[i].key && g[i].val == u[i].val && g[i].visited == u[i].visited
      ensures g[i].indegree == u[i].indegree && g[i].outdegree == u[i].outdegree
      ensures multiset(g[i].destinations) == multiset(u[i].destinations)
      ensures multiset(g[i].ancestors) == multiset(u[i].ancestors)
    {
      LinkUnlinkSameAt(g, v, w, i);
    }
  }

  /** When the edge was new, linking then unlinking gives back exactly the same list. */
  lemma {:induction false} LinkUnlinkNew<K, V>(g: seq<Node<K, V>>, v: K, w: K)
    requires v in Keys(g) && w in Keys(g)
    requires w !in NodeOf(g, v).destinations && v !in NodeOf(g, w).ancestors
    ensures Unlinked(Linked(g, v, w), v, w) == g
  {
    var u := Unlinked(Linked(g, v, w), v, w);
    var iv := Find(g, v).value;
    var iw := Find(g, w).value;
    RemoveFirstAppended(g[iv].destinations, w);
    RemoveFirstAppended(g[iw].ancestors, v);
    assert |u| == |g| by { LinkUnlinkAt(g, v, w, 0); }
    forall i | 0 <= i < |g| ensures u[i] == g[i] {
      LinkUnlinkAt(g, v, w, i);
    }
  }

  // ---------------------------------------------------------------- edge counting

  /** The sum of all outdegree counters. */
  function SumOut<K, V>(g: seq<Node<K, V>>): int {
    if g == [] then 0 else SumOut(g[..|g| - 1]) + g[|g| - 1].outdegree
  }

  /** How many nodes list `key` among their destinations. */
  function Parents<K(==), V>(g: seq<Node<K, V>>, key: K): nat {
    if g == [] then 0 else Parents(g[..|g| - 1], key) + (if key in g[|g| - 1].destinations then 1 else 0)
  }

  lemma {:induction false} SumOutConcat<K, V>(a: seq<Node<K, V>>, b: seq<Node<K, V>>)
    ensures SumOut(a + b) == SumOut(a) + SumOut(b)
    decreases |b|
  {
    if b == [] {
      assert a + b == a;
    } else {
      assert (a + b)[..|a + b| - 1] == a + b[..|b| - 1];
      SumOutConcat(a, b[..|b| - 1]);
    }
  }

  lemma SumOutSingle<K, V>(n: Node<K, V>)
    ensures SumOut([n]) == n.outdegree
  {
    assert [n][..0] == [];
  }

  lemma SumOutSplit<K, V>(g: seq<Node<K, V>>, i: nat)
    requires i < |g|
    ensures SumOut(g) == SumOut(g[..i]) + g[i].outdegree + SumOut(g[i + 1..])
  {
    assert g == g[..i] + [g[i]] + g[i + 1..];
    SumOutConcat(g[..i] + [g[i]], g[i + 1..]);
    SumOutConcat(g[..i], [g[i]]);
    SumOutSingle(g[i]);
  }

  /** Replacing one node changes the sum by the change in its counter. */
  lemma SumOutUpdate<K, V>(g: seq<Node<K, V>>, i: nat, n: Node<K, V>)
    requires i < |g|
    ensures SumOut(g[i := n]) == SumOut(g) - g[i].outdegree + n.outdegree
  {
    SumOutSplit(g, i);
    SumOutSplit(g[i := n], i);
    assert g[i := n][..i] == g[..i] && g[i := n][i + 1..] == g[i + 1..];
  }

  lemma SumOutRemoveAt<K, V>(g: seq<Node<K, V>>, i: nat)
    requires i < |g|
    ensures SumOut(RemoveAt(g, i)) == SumOut(g) - g[i].outdegree
  {
    SumOutSplit(g, i);
    SumOutConcat(g[..i], g[i + 1..]);
  }

  /** Stripping `key` everywhere lowers the sum by the number of nodes that listed it. */
  lemma {:induction false} SumOutStripAll<K, V>(g: seq<Node<K, V>>, key: K)
    ensures SumOut(StripAll(g, key)) == SumOut(g) - Parents(g, key)
    decreases |g|
  {
    if g != [] {
      var s := StripAll(g, key);
      assert s[..|s| - 1] == StripAll(g[..|g| - 1], key);
      SumOutStripAll(g[..|g| - 1], key);
    }
  }

  lemma SumOutAppend<K, V>(g: seq<Node<K, V>>, n: Node<K, V>)
    ensures SumOut(g + [n]) == SumOut(g) + n.outdegree
  {
    assert (g + [n])[..|g|] == g;
  }

  /** Counting and summing depend only on what `SameUpToOrder` keeps. */
  lemma {:induction false} SumOutSameUpToOrder<K, V>(g: seq<Node<K, V>>, h: seq<Node<K, V>>)
    requires SameUpToOrder(g, h)
    ensures SumOut(g) == SumOut(h)
    decreases |g|
  {
    if g != [] {
      SumOutSameUpToOrder(g[..|g| - 1], h[..|h| - 1]);
    }
  }

  /** A list with the same elements as one without repetitions has none either. */
  lemma NoDupSameMultiset<T>(a: seq<T>, b: seq<T>)
    requires NoDup(a) && multiset(a) == multiset(b)
    ensures NoDup(b)
  {
    forall y ensures multiset(b)[y] <= 1 {
      NoDupMultiset(a, y);
    }
    MultisetNoDup(b);
  }

  lemma SameUpToOrderKeys<K, V>(g: seq<Node<K, V>>, h: seq<Node<K, V>>)
    requires SameUpToOrder(g, h)
    ensures Keys(g) == Keys(h)
  {
  }
}
