/**
 * The node store of the single-counter graph
 * (lowestCommonAncestor/src/lowestCommonAncestor/DirectedAcyclicGraph.java): its node
 * record keeps an `indegree` counter but no ancestor list and no `visited` flag. `Shape`
 * reads such a list as a list of multi-parent node records without ancestor entries, so
 * that lookup, leaf removal and the cycle theory of `DagNodes` and `CycleGuard` apply.
 */
module VariantNodes {
  import opened Wrappers
  import opened Lists
  import opened DagNodes
  import opened CycleGuard
  import opened GraphInvariants

  /** A node record of this graph: key, value, destination keys and the two counters. */
  datatype VNode<K, V> = VNode(key: K, val: V, destinations: seq<K>, indegree: int, outdegree: int)

  /** A node as `new Node(key, val)` creates it: no destinations, both counters 0. */
  function VFresh<K, V>(key: K, val: V): VNode<K, V> {
    VNode(key, val, [], 0, 0)
  }

  /** A node seen as a multi-parent record: same key, value, destinations and outdegree. */
  function Outline<K, V>(n: VNode<K, V>): Node<K, V> {
    Node(n.key, n.val, n.destinations, [], 0, n.outdegree, false)
  }

  function Shape<K, V>(g: seq<VNode<K, V>>): (r: seq<Node<K, V>>)
    ensures |r| == |g| && forall i :: 0 <= i < |g| ==> r[i] == Outline(g[i])
  {
    seq(|g|, i requires 0 <= i < |g| => Outline(g[i]))
  }

  /** The node that `get(key)` returns for a key that is present. */
  function VNodeOf<K(==), V>(g: seq<VNode<K, V>>, key: K): VNode<K, V>
    requires key in Keys(Shape(g))
  {
    g[Find(Shape(g), key).value]
  }

  lemma NodeOfShape<K, V>(g: seq<VNode<K, V>>, key: K)
    requires key in Keys(Shape(g))
    ensures NodeOf(Shape(g), key) == Outline(VNodeOf(g, key))
  {
  }

  // ---------------------------------------------------------------- delete

  /** One pass of `deleteNode`'s loop on a node: drop the first `key` and an outdegree. */
  function VStrip<K(==), V>(n: VNode<K, V>, key: K): VNode<K, V> {
    if key in n.destinations then
      n.(destinations := RemoveFirst(n.destinations, key), outdegree := n.outdegree - 1)
    else n
  }

  function VStripAll<K(==), V>(g: seq<VNode<K, V>>, key: K): (r: seq<VNode<K, V>>)
    ensures |r| == |g| && forall i :: 0 <= i < |g| ==> r[i] == VStrip(g[i], key)
  {
    seq(|g|, i requires 0 <= i < |g| => VStrip(g[i], key))
  }

  /**
   * The list after `deleteNode(key, graph)` finds `key`: every node loses its first `key`
   * destination, then the node holding `key` leaves the list. (The loop also lowers the
   * deleted node's own indegree once per parent, which goes with it.)
   */
  function VDeleted<K(==), V>(g: seq<VNode<K, V>>, key: K): (r: seq<VNode<K, V>>)
    requires key in Keys(Shape(g))
    ensures |r| == |g| - 1
  {
    RemoveAt(VStripAll(g, key), Find(Shape(g), key).value)
  }

  lemma VDeletedAt<K, V>(g: seq<VNode<K, V>>, key: K, j: nat)
    requires key in Keys(Shape(g)) && j < |g| - 1
    ensures Skip(j, Find(Shape(g), key).value) < |g|
    ensures VDeleted(g, key)[j] == VStrip(g[Skip(j, Find(Shape(g), key).value)], key)
  {
    var i := Find(Shape(g), key).value;
    var st := VStripAll(g, key);
    assert VDeleted(g, key) == st[..i] + st[i + 1..];
    assert VDeleted(g, key)[j] == st[Skip(j, i)];
  }

  /** Deleting here and deleting in the multi-parent list agree on the shape. */
  lemma ShapeDeleted<K, V>(g: seq<VNode<K, V>>, key: K)
    requires key in Keys(Shape(g))
    ensures Shape(VDeleted(g, key)) == Deleted(Shape(g), key)
  {
    var a := Shape(VDeleted(g, key));
    var b := Deleted(Shape(g), key);
    forall j | 0 <= j < |a| ensures a[j] == b[j] {
      DeletedAt(Shape(g), key, j);
      VDeletedAt(g, key, j);
    }
  }

  // ---------------------------------------------------------------- edges

  /** The speculative insertion of `addEdge(v, w)`: `w` appended to `v`'s destinations, both counters raised. */
  function VLinked<K(==), V>(g: seq<VNode<K, V>>, v: K, w: K): (r: seq<VNode<K, V>>)
    requires v in Keys(Shape(g)) && w in Keys(Shape(g))
    ensures |r| == |g|
  {
    var iv := Find(Shape(g), v).value;
    var iw := Find(Shape(g), w).value;
    var g1 := g[iv := g[iv].(destinations := g[iv].destinations + [w], outdegree := g[iv].outdegree + 1)];
    g1[iw := g1[iw].(indegree := g1[iw].indegree + 1)]
  }

  /** The undo of `addEdge`: the first `w` removed from `v`'s destinations, both counters lowered. */
  function VUnlinked<K(==), V>(g: seq<VNode<K, V>>, v: K, w: K): (r: seq<VNode<K, V>>)
    ensures |r| == |g|
  {
    if v in Keys(Shape(g)) && w in Keys(Shape(g)) then
      var iv := Find(Shape(g), v).value;
      var iw := Find(Shape(g), w).value;
      var g1 := g[iv := g[iv].(destinations := RemoveFirst(g[iv].destinations, w), outdegree := g[iv].outdegree - 1)];
      g1[iw := g1[iw].(indegree := g1[iw].indegree - 1)]
    else g
  }

  /** Node `i` after linking. */
  lemma VLinkedAt<K, V>(g: seq<VNode<K, V>>, v: K, w: K, i: nat)
    requires v in Keys(Shape(g)) && w in Keys(Shape(g)) && i < |g|
    ensures var iv, iw := Find(Shape(g), v).value, Find(Shape(g), w).value;
      VLinked(g, v, w)[i] ==
        VNode(g[i].key, g[i].val,
              if i == iv then g[i].destinations + [w] else g[i].destinations,
              if i == iw then g[i].indegree + 1 else g[i].indegree,
              if i == iv then g[i].outdegree + 1 else g[i].outdegree)
  {
  }

  /** Linking keeps the keys, hence every lookup, in place. */
  lemma VLinkedKeys<K, V>(g: seq<VNode<K, V>>, v: K, w: K)
    requires v in Keys(Shape(g)) && w in Keys(Shape(g))
    ensures Keys(Shape(VLinked(g, v, w))) == Keys(Shape(g))
    ensures forall k :: Find(Shape(VLinked(g, v, w)), k) == Find(Shape(g), k)
  {
    var h := VLinked(g, v, w);
    forall i | 0 <= i < |g| ensures Shape(h)[i].key == Shape(g)[i].key {
      VLinkedAt(g, v, w, i);
    }
    SameKeys(Shape(g), Shape(h));
    forall k ensures Find(Shape(h), k) == Find(Shape(g), k) {
      FindKeys(Shape(h), Shape(g), k);
    }
  }

  /** What linking then unlinking does to node `i`: only `v`'s destination list may change. */
  lemma VLinkUnlinkAt<K, V>(g: seq<VNode<K, V>>, v: K, w: K, i: nat)
    requires v in Keys(Shape(g)) && w in Keys(Shape(g)) && i < |g|
    ensures |VUnlinked(VLinked(g, v, w), v, w)| == |g|
    ensures VUnlinked(VLinked(g, v, w), v, w)[i] ==
              g[i].(destinations := if i == Find(Shape(g), v).value
                                    then RemoveFirst(g[i].destinations + [w], w) else g[i].destinations)
  {
    var h := VLinked(g, v, w);
    VLinkedKeys(g, v, w);
    VLinkedAt(g, v, w, i);
  }

  /** `r` is `g` with, at most, the entries of some destination lists in another order. */
  ghost predicate Reordered<K, V>(g: seq<VNode<K, V>>, r: seq<VNode<K, V>>) {
    |g| == |r| &&
    forall i :: 0 <= i < |g| ==>
      r[i] == g[i].(destinations := r[i].destinations) && multiset(r[i].destinations) == multiset(g[i].destinations)
  }

  /**
   * Linking then unlinking gives back the list up to the order of entries, and exactly
   * the list when the edge was new (otherwise the older `w` entry moves to the end).
   */
  lemma {:induction false} VLinkUnlink<K, V>(g: seq<VNode<K, V>>, v: K, w: K)
    requires v in Keys(Shape(g)) && w in Keys(Shape(g))
    ensures Reordered(g, VUnlinked(VLinked(g, v, w), v, w))
    ensures w !in VNodeOf(g, v).destinations ==> VUnlinked(VLinked(g, v, w), v, w) == g
  {
    var u := VUnlinked(VLinked(g, v, w), v, w);
    var iv := Find(Shape(g), v).value;
    assert |u| == |g| by { VLinkUnlinkAt(g, v, w, 0); }
    forall i | 0 <= i < |g|
      ensures u[i] == g[i].(destinations := u[i].destinations)
      ensures multiset(u[i].destinations) == multiset(g[i].destinations)
    {
      VLinkUnlinkAt(g, v, w, i);
      RemoveAppendedSame(g[i].destinations, w);
    }
    if w !in VNodeOf(g, v).destinations {
      RemoveFirstAppended(g[iv].destinations, w);
      forall i | 0 <= i < |g| ensures u[i] == g[i] {
        VLinkUnlinkAt(g, v, w, i);
      }
    }
  }

  /** Reordered lists have shapes equal up to entry order. */
  lemma ReorderedShape<K, V>(g: seq<VNode<K, V>>, r: seq<VNode<K, V>>)
    requires Reordered(g, r)
    ensures SameUpToOrder(Shape(g), Shape(r))
  {
  }

  // ---------------------------------------------------------------- what the cycle check sees

  /** Two multi-parent lists that agree on every key, destination list and outdegree counter. */
  ghost predicate SameEdges<K, V>(g: seq<Node<K, V>>, h: seq<Node<K, V>>) {
    |g| == |h| &&
    forall i :: 0 <= i < |g| ==>
      g[i].key == h[i].key && g[i].destinations == h[i].destinations && g[i].outdegree == h[i].outdegree
  }

  /** Keys, simple edges, acyclicity and the outdegree sum depend on nothing else. */
  lemma SameEdgesAgree<K(!new), V>(g: seq<Node<K, V>>, h: seq<Node<K, V>>)
    requires SameEdges(g, h)
    ensures Keys(g) == Keys(h)
    ensures SimpleEdges(g) <==> SimpleEdges(h)
    ensures Acyclic(g) <==> Acyclic(h)
    ensures SumOut(g) == SumOut(h)
  {
    SameKeys(g, h);
    forall rank ensures Ranks(g, rank) <==> Ranks(h, rank) {
    }
    if Acyclic(g) {
      var rank :| Ranks(g, rank);
      assert Ranks(h, rank);
    }
    if Acyclic(h) {
      var rank :| Ranks(h, rank);
      assert Ranks(g, rank);
    }
    SameEdgesSumOut(g, h);
  }

  lemma {:induction false} SameEdgesSumOut<K, V>(g: seq<Node<K, V>>, h: seq<Node<K, V>>)
    requires SameEdges(g, h)
    ensures SumOut(g) == SumOut(h)
    decreases |g|
  {
    if g != [] {
      SameEdgesSumOut(g[..|g| - 1], h[..|h| - 1]);
    }
  }

  /**
   * Linking here and linking in the multi-parent list have the same edges, so the shape
   * of the linked list is well formed, has one more destination entry, and has simple
   * edges and no cycle exactly when the multi-parent linked list has.
   */
  lemma ShapeLinked<K(!new), V>(g: seq<VNode<K, V>>, v: K, w: K)
    requires WellFormed(Shape(g)) && v in Keys(Shape(g)) && w in Keys(Shape(g))
    ensures WellFormed(Shape(VLinked(g, v, w)))
    ensures SumOut(Shape(VLinked(g, v, w))) == SumOut(Shape(g)) + 1
    ensures SimpleEdges(Shape(VLinked(g, v, w))) <==> SimpleEdges(Linked(Shape(g), v, w))
    ensures Acyclic(Shape(VLinked(g, v, w))) <==> Acyclic(Linked(Shape(g), v, w))
  {
    var a := Shape(VLinked(g, v, w));
    var b := Linked(Shape(g), v, w);
    LinkedWellFormed(Shape(g), v, w);
    forall i | 0 <= i < |g|
      ensures a[i].key == b[i].key && a[i].destinations == b[i].destinations && a[i].outdegree == b[i].outdegree
    {
      VLinkedAt(g, v, w, i);
      LinkedAt(Shape(g), v, w, i);
    }
    SameEdgesAgree(a, b);
  }

  /**
   * What `addEdge(v, w)` leaves as the node list `r` of `g`, reporting `added`: with a
   * null or unknown key, `g` itself and false. Otherwise the edge stays (true) exactly
   * when `w` was not yet a destination of `v` and the linked list has no cycle; a refused
   * edge is undone, which gives `g` up to the order of destination entries, and `g`
   * itself when the edge was new.
   */
  ghost predicate EdgeOutcome<K(!new), V>(g: seq<VNode<K, V>>, v: Option<K>, w: Option<K>, added: bool,
                                          r: seq<VNode<K, V>>) {
    if Present(Shape(g), v) && Present(Shape(g), w) then
      (added <==> w.value !in VNodeOf(g, v.value).destinations && Acyclic(Shape(VLinked(g, v.value, w.value)))) &&
      (added ==> r == VLinked(g, v.value, w.value)) &&
      (!added ==> r == VUnlinked(VLinked(g, v.value, w.value), v.value, w.value) && Reordered(g, r) &&
                  (w.value !in VNodeOf(g, v.value).destinations ==> r == g))
    else
      !added && r == g
  }

  /** A kept edge: the linked list is sound with one more destination entry. */
  lemma VEdgeKept<K(!new), V>(g: seq<VNode<K, V>>, v: K, w: K)
    requires Sound(Shape(g)) && v in Keys(Shape(g)) && w in Keys(Shape(g))
    requires SimpleEdges(Shape(VLinked(g, v, w))) && Acyclic(Shape(VLinked(g, v, w)))
    ensures EdgeOutcome(g, Some(v), Some(w), true, VLinked(g, v, w))
    ensures Sound(Shape(VLinked(g, v, w))) && SumOut(Shape(VLinked(g, v, w))) == SumOut(Shape(g)) + 1
  {
    ShapeLinked(g, v, w);
    LinkedWellFormed(Shape(g), v, w);
    NodeOfShape(g, v);
  }

  /** A refused edge: the undone list is sound with as many destination entries as before. */
  lemma VEdgeRefused<K(!new), V>(g: seq<VNode<K, V>>, v: K, w: K, r: seq<VNode<K, V>>)
    requires Sound(Shape(g)) && v in Keys(Shape(g)) && w in Keys(Shape(g))
    requires r == VUnlinked(VLinked(g, v, w), v, w)
    requires !(SimpleEdges(Shape(VLinked(g, v, w))) && Acyclic(Shape(VLinked(g, v, w))))
    ensures EdgeOutcome(g, Some(v), Some(w), false, r)
    ensures Sound(Shape(r)) && SumOut(Shape(r)) == SumOut(Shape(g))
  {
    RefusedWhy(g, v, w);
    VLinkUnlink(g, v, w);
    ReorderedSound(g, r);
  }

  /** A refused edge either repeated an edge or closed a cycle. */
  lemma RefusedWhy<K(!new), V>(g: seq<VNode<K, V>>, v: K, w: K)
    requires Sound(Shape(g)) && v in Keys(Shape(g)) && w in Keys(Shape(g))
    requires !(SimpleEdges(Shape(VLinked(g, v, w))) && Acyclic(Shape(VLinked(g, v, w))))
    ensures !(w !in VNodeOf(g, v).destinations && Acyclic(Shape(VLinked(g, v, w))))
  {
    ShapeLinked(g, v, w);
    LinkedWellFormed(Shape(g), v, w);
    NodeOfShape(g, v);
  }

  /** Reordering destination entries keeps the shape sound and the outdegree sum. */
  lemma ReorderedSound<K(!new), V>(g: seq<VNode<K, V>>, r: seq<VNode<K, V>>)
    requires Sound(Shape(g)) && Reordered(g, r)
    ensures Sound(Shape(r)) && SumOut(Shape(r)) == SumOut(Shape(g))
  {
    ReorderedShape(g, r);
    SameUpToOrderSound(Shape(g), Shape(r));
  }

  /** `addNode`'s append: a fresh node under a new key keeps the shape sound and adds no edge. */
  lemma ShapeAppendFresh<K(!new), V>(g: seq<VNode<K, V>>, key: K, val: V)
    requires Sound(Shape(g)) && key !in Keys(Shape(g))
    ensures Shape(g + [VFresh(key, val)]) == Shape(g) + [Fresh(key, val)]
    ensures Keys(Shape(g + [VFresh(key, val)])) == Keys(Shape(g)) + [key]
    ensures Sound(Shape(g + [VFresh(key, val)]))
    ensures SumOut(Shape(g + [VFresh(key, val)])) == SumOut(Shape(g))
  {
    assert Shape(g + [VFresh(key, val)]) == Shape(g) + [Fresh(key, val)];
    AppendFreshSound(Shape(g), key, val);
  }

  // ---------------------------------------------------------------- indegree counters

  /**
   * Every indegree counter equals the number of nodes that list the node among their
   * destinations. `addNode` and `addEdge` keep this; `deleteNode` keeps it only for a node
   * without destinations, since the children of a deleted node keep their counters.
   */
  ghost predicate InCounted<K, V>(g: seq<VNode<K, V>>) {
    forall i :: 0 <= i < |g| ==> g[i].indegree == Parents(Shape(g), g[i].key)
  }

  function Listed<K(==), V>(n: Node<K, V>, x: K): nat {
    if x in n.destinations then 1 else 0
  }

  lemma {:induction false} ParentsConcat<K, V>(a: seq<Node<K, V>>, b: seq<Node<K, V>>, x: K)
    ensures Parents(a + b, x) == Parents(a, x) + Parents(b, x)
    decreases |b|
  {
    if b == [] {
      assert a + b == a;
    } else {
      assert (a + b)[..|a + b| - 1] == a + b[..|b| - 1];
      ParentsConcat(a, b[..|b| - 1], x);
    }
  }

  /** Counting the parents of `x` over one more node of `g`. */
  lemma ShapePrefixParents<K, V>(g: seq<VNode<K, V>>, j: nat, x: K)
    requires j < |g|
    ensures Parents(Shape(g[..j + 1]), x) == Parents(Shape(g[..j]), x) + (if x in g[j].destinations then 1 else 0)
  {
    var s := Shape(g[..j + 1]);
    assert s[..j] == Shape(g[..j]);
    assert s[j] == Outline(g[j]);
  }

  lemma ParentsSingle<K, V>(n: Node<K, V>, x: K)
    ensures Parents([n], x) == Listed(n, x)
  {
    assert [n][..0] == [];
  }

  lemma ParentsSplit<K, V>(g: seq<Node<K, V>>, i: nat, x: K)
    requires i < |g|
    ensures Parents(g, x) == Parents(g[..i], x) + Listed(g[i], x) + Parents(g[i + 1..], x)
  {
    assert g == g[..i] + [g[i]] + g[i + 1..];
    ParentsConcat(g[..i] + [g[i]], g[i + 1..], x);
    ParentsConcat(g[..i], [g[i]], x);
    ParentsSingle(g[i], x);
  }

  /** Replacing one node changes the count by whether the old and the new node list `x`. */
  lemma ParentsUpdate<K, V>(g: seq<Node<K, V>>, i: nat, n: Node<K, V>, x: K)
    requires i < |g|
    ensures Parents(g[i := n], x) == Parents(g, x) - Listed(g[i], x) + Listed(n, x)
  {
    ParentsSplit(g, i, x);
    ParentsSplit(g[i := n], i, x);
    assert g[i := n][..i] == g[..i] && g[i := n][i + 1..] == g[i + 1..];
  }

  lemma ParentsRemoveAt<K, V>(g: seq<Node<K, V>>, i: nat, x: K)
    requires i < |g|
    ensures Parents(RemoveAt(g, i), x) == Parents(g, x) - Listed(g[i], x)
  {
    ParentsSplit(g, i, x);
    ParentsConcat(g[..i], g[i + 1..], x);
  }

  /** Stripping `key` everywhere does not change who lists any other key. */
  lemma {:induction false} ParentsStripAll<K, V>(g: seq<Node<K, V>>, key: K, x: K)
    requires x != key
    ensures Parents(StripAll(g, key), x) == Parents(g, x)
    decreases |g|
  {
    if g != [] {
      var s := StripAll(g, key);
      assert s[..|s| - 1] == StripAll(g[..|g| - 1], key);
      ParentsStripAll(g[..|g| - 1], key, x);
      RemoveFirstIn(g[|g| - 1].destinations, key, x);
    }
  }

  /** The count depends only on which nodes list `x`. */
  lemma {:induction false} ParentsSameMembers<K, V>(g: seq<Node<K, V>>, h: seq<Node<K, V>>, x: K)
    requires |g| == |h| && forall i :: 0 <= i < |g| ==> (x in g[i].destinations <==> x in h[i].destinations)
    ensures Parents(g, x) == Parents(h, x)
    decreases |g|
  {
    if g != [] {
      ParentsSameMembers(g[..|g| - 1], h[..|h| - 1], x);
    }
  }

  lemma {:induction false} ParentsNone<K, V>(g: seq<Node<K, V>>, x: K)
    requires forall i :: 0 <= i < |g| ==> x !in g[i].destinations
    ensures Parents(g, x) == 0
    decreases |g|
  {
    if g != [] {
      ParentsNone(g[..|g| - 1], x);
    }
  }

  /** A node added under a new key has no parents yet, matching its counter 0. */
  lemma AppendFreshCounted<K(!new), V>(g: seq<VNode<K, V>>, key: K, val: V)
    requires Sound(Shape(g)) && key !in Keys(Shape(g)) && InCounted(g)
    ensures InCounted(g + [VFresh(key, val)])
  {
    var h := g + [VFresh(key, val)];
    assert Shape(h) == Shape(g) + [Fresh(key, val)];
    forall x ensures Parents(Shape(h), x) == Parents(Shape(g), x) {
      ParentsConcat(Shape(g), [Fresh(key, val)], x);
      ParentsSingle(Fresh(key, val), x);
    }
    forall i | 0 <= i < |g| ensures key !in Shape(g)[i].destinations {
    }
    ParentsNone(Shape(g), key);
  }

  /** A new edge from `v` to `w` adds one parent to `w`, matching its raised counter. */
  lemma LinkedCounted<K(!new), V>(g: seq<VNode<K, V>>, v: K, w: K)
    requires WellFormed(Shape(g)) && v in Keys(Shape(g)) && w in Keys(Shape(g)) && InCounted(g)
    requires w !in VNodeOf(g, v).destinations
    ensures InCounted(VLinked(g, v, w))
  {
    var h := VLinked(g, v, w);
    var iv, iw := Find(Shape(g), v).value, Find(Shape(g), w).value;
    var n := Outline(g[iv]).(destinations := g[iv].destinations + [w], outdegree := g[iv].outdegree + 1);
    forall i | 0 <= i < |g| ensures Shape(h)[i] == Shape(g)[iv := n][i] {
      VLinkedAt(g, v, w, i);
    }
    assert Shape(h) == Shape(g)[iv := n];
    forall i | 0 <= i < |h| ensures h[i].indegree == Parents(Shape(h), h[i].key) {
      VLinkedAt(g, v, w, i);
      ParentsUpdate(Shape(g), iv, n, g[i].key);
      FindUnique(Shape(g), i);
    }
  }

  /** Reordering destination entries changes no count. */
  lemma ReorderedCounted<K(!new), V>(g: seq<VNode<K, V>>, r: seq<VNode<K, V>>)
    requires Reordered(g, r) && InCounted(g)
    ensures InCounted(r)
  {
    forall x ensures Parents(Shape(r), x) == Parents(Shape(g), x) {
      forall i | 0 <= i < |g| ensures x in Shape(g)[i].destinations <==> x in Shape(r)[i].destinations {
        assert x in g[i].destinations <==> x in multiset(g[i].destinations);
        assert x in r[i].destinations <==> x in multiset(r[i].destinations);
      }
      ParentsSameMembers(Shape(g), Shape(r), x);
    }
  }

  /** Deleting a node without destinations leaves every other node's parents as they were. */
  lemma DeletedCounted<K(!new), V>(g: seq<VNode<K, V>>, key: K)
    requires WellFormed(Shape(g)) && key in Keys(Shape(g)) && InCounted(g)
    requires VNodeOf(g, key).destinations == []
    ensures InCounted(VDeleted(g, key))
  {
    var d := VDeleted(g, key);
    ShapeDeleted(g, key);
    forall j | 0 <= j < |d| ensures d[j].indegree == Parents(Shape(d), d[j].key) {
      DeletedCountedAt(g, key, j);
    }
  }

  lemma DeletedCountedAt<K(!new), V>(g: seq<VNode<K, V>>, key: K, j: nat)
    requires WellFormed(Shape(g)) && key in Keys(Shape(g)) && InCounted(g)
    requires VNodeOf(g, key).destinations == [] && j < |g| - 1
    ensures VDeleted(g, key)[j].indegree == Parents(Deleted(Shape(g), key), VDeleted(g, key)[j].key)
  {
    var t := Find(Shape(g), key).value;
    VDeletedAt(g, key, j);
    var m := Skip(j, t);
    FindUnique(Shape(g), m);
    var x := g[m].key;
    assert VDeleted(g, key)[j].key == x && VDeleted(g, key)[j].indegree == g[m].indegree;
    ParentsRemoveAt(StripAll(Shape(g), key), t, x);
    ParentsStripAll(Shape(g), key, x);
  }
}
