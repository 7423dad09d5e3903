/**
 * The single-counter graph of lowestCommonAncestor/src/lowestCommonAncestor/DirectedAcyclicGraph.java
 * as a class: an insertion-ordered list of node records and the edge counter `E`. The
 * cycle check runs leaf removal on a copy, and `LCA` scans two paths that the stub
 * `getLongestPath` always returns empty. Java's `null` arguments and results are `None`.
 */
module VariantDag {
  import opened Wrappers
  import opened Lists
  import opened DagNodes
  import opened CycleGuard
  import opened GraphInvariants
  import opened VariantNodes

  /** The exception `LCA` lets escape when its root argument names no node. */
  datatype Thrown = NullPointer

  /** `get(key, graph)`: the position of the first node holding `key`. */
  method Position<K(==), V>(key: K, graph: seq<VNode<K, V>>) returns (r: Option<nat>)
    ensures r == Find(Shape(graph), key)
  {
    var i := 0;
    while i < |graph|
      invariant 0 <= i <= |graph|
      invariant forall j :: 0 <= j < i ==> graph[j].key != key
    {
      if graph[i].key == key {
        assert Keys(Shape(graph))[i] == key;
        return Some(i);
      }
      i := i + 1;
    }
    assert forall j :: 0 <= j < |graph| ==> Shape(graph)[j].key != key;
    return None;
  }

  /** `getLeaf(graph)`: the position of the first node whose outdegree counter is 0. */
  method Leaf<K, V>(graph: seq<VNode<K, V>>) returns (r: Option<nat>)
    ensures r.Some? ==> r.value < |graph| && graph[r.value].outdegree == 0 &&
                        forall j :: 0 <= j < r.value ==> graph[j].outdegree != 0
    ensures r.None? ==> forall j :: 0 <= j < |graph| ==> graph[j].outdegree != 0
    ensures r == LeafIndex(Shape(graph))
  {
    var i := 0;
    while i < |graph|
      invariant 0 <= i <= |graph|
      invariant forall j :: 0 <= j < i ==> graph[j].outdegree != 0
    {
      if graph[i].outdegree == 0 {
        return Some(i);
      }
      i := i + 1;
    }
    return None;
  }

  /**
   * `LCA`'s nested scan: `path1` from the back, and for each of its keys `path2` from the
   * back, until a key of `path1` is found on `path2`. The answer is the last key of
   * `path1` that lies on `path2`, or null when the paths share none.
   */
  method LastShared<K(==)>(path1: seq<K>, path2: seq<K>) returns (r: Option<K>)
    ensures r.None? <==> forall i :: 0 <= i < |path1| ==> path1[i] !in path2
    ensures r.Some? ==> exists i :: 0 <= i < |path1| && path1[i] == r.value && r.value in path2 &&
                                    forall m :: i < m < |path1| ==> path1[m] !in path2
  {
    r := None;
    var found := false;
    var i := |path1| - 1;
    while i > -1 && !found
      invariant -1 <= i < |path1|
      invariant !found ==> r.None? && forall m :: i < m < |path1| ==> path1[m] !in path2
      invariant found ==> 0 <= i + 1 < |path1| && r == Some(path1[i + 1]) && path1[i + 1] in path2 &&
                          forall m :: i + 1 < m < |path1| ==> path1[m] !in path2
      decreases i + 1
    {
      var j := |path2| - 1;
      while j > -1 && !found
        invariant -1 <= j < |path2|
        invariant forall m :: i < m < |path1| ==> path1[m] !in path2
        invariant !found ==> r.None? && forall n :: j < n < |path2| ==> path2[n] != path1[i]
        invariant found ==> r == Some(path1[i]) && path1[i] in path2
        decreases j + 1
      {
        if path1[i] == path2[j] {
          found := true;
          r := Some(path1[i]);
        }
        j := j - 1;
      }
      i := i - 1;
    }
  }

  /**
   * The state of `deleteNode`'s loop after `j` nodes: those are stripped of one `key`
   * entry, the rest are as they were, and node `t`, which holds `key`, has in addition
   * lost one indegree for each of the first `j` nodes that listed `key`.
   */
  ghost predicate VStrippedUpTo<K, V>(graph: seq<VNode<K, V>>, work: seq<VNode<K, V>>, key: K, t: nat, j: nat) {
    |work| == |graph| && t < |graph| && j <= |graph| &&
    (forall m :: 0 <= m < j && m != t ==> work[m] == VStrip(graph[m], key)) &&
    (forall m :: j <= m < |graph| && m != t ==> work[m] == graph[m]) &&
    graph[t].key == key &&
    work[t] == (if t < j then VStrip(graph[t], key) else graph[t]).(indegree := graph[t].indegree - ListedBefore(graph, key, j))
  }

  /** A step on a node that lists `key`: it loses that entry and an outdegree, node `t` an indegree. */
  lemma VStripStep<K, V>(graph: seq<VNode<K, V>>, work: seq<VNode<K, V>>, key: K, t: nat, j: nat)
    requires VStrippedUpTo(graph, work, key, t, j) && j < |graph| && key in work[j].destinations
    ensures var n := work[j];
      var w1 := work[j := n.(destinations := RemoveFirst(n.destinations, key), outdegree := n.outdegree - 1)];
      VStrippedUpTo(graph, w1[t := w1[t].(indegree := w1[t].indegree - 1)], key, t, j + 1)
  {
  }

  /** A step on a node that does not list `key` changes nothing. */
  lemma VStripSkip<K, V>(graph: seq<VNode<K, V>>, work: seq<VNode<K, V>>, key: K, t: nat, j: nat)
    requires VStrippedUpTo(graph, work, key, t, j) && j < |graph| && key !in work[j].destinations
    ensures VStrippedUpTo(graph, work, key, t, j + 1)
  {
  }

  /** How many of the first `j` nodes of `graph` list `key`. */
  function ListedBefore<K(==), V>(graph: seq<VNode<K, V>>, key: K, j: nat): nat
    requires j <= |graph|
  {
    if j == 0 then 0 else ListedBefore(graph, key, j - 1) + (if key in graph[j - 1].destinations then 1 else 0)
  }

  /** Counted over a prefix, the listings are the parents of `key` in that prefix. */
  lemma {:induction false} ListedBeforeParents<K, V>(graph: seq<VNode<K, V>>, key: K, j: nat)
    requires j <= |graph|
    ensures ListedBefore(graph, key, j) == Parents(Shape(graph[..j]), key)
  {
    if j > 0 {
      ListedBeforeParents(graph, key, j - 1);
      ShapePrefixParents(graph, j - 1, key);
    }
  }

  /** After the whole loop node `t` has lost one indegree per node that listed `key`. */
  lemma VStrippedCount<K, V>(graph: seq<VNode<K, V>>, work: seq<VNode<K, V>>, key: K, t: nat)
    requires VStrippedUpTo(graph, work, key, t, |graph|)
    ensures work[t].indegree == graph[t].indegree - Parents(Shape(graph), key)
  {
    ListedBeforeParents(graph, key, |graph|);
    assert graph[..|graph|] == graph;
  }

  /** Once every node other than `t` is stripped of `key`, removing node `t` gives `VDeleted`. */
  lemma VStrippedIsDeleted<K, V>(graph: seq<VNode<K, V>>, work: seq<VNode<K, V>>, key: K, t: nat)
    requires key in Keys(Shape(graph)) && t == Find(Shape(graph), key).value
    requires VStrippedUpTo(graph, work, key, t, |graph|)
    ensures RemoveAt(work, t) == VDeleted(graph, key)
  {
    RemoveAtSame(work, VStripAll(graph, key), t);
  }

  /**
   * `deleteNode`'s loop: every node of `graph` that lists `key` loses that entry and an
   * outdegree, and the node holding `key` loses one indegree per node that listed it.
   */
  method StripFrom<K(==), V>(key: K, graph: seq<VNode<K, V>>, t: nat) returns (work: seq<VNode<K, V>>)
    requires t < |graph| && graph[t].key == key
    ensures VStrippedUpTo(graph, work, key, t, |graph|)
    ensures work[t].indegree == graph[t].indegree - Parents(Shape(graph), key)
  {
    work := graph;
    var j := 0;
    while j < |work|
      invariant 0 <= j <= |work| && VStrippedUpTo(graph, work, key, t, j)
    {
      var n := work[j];
      if key in n.destinations {
        VStripStep(graph, work, key, t, j);
        work := work[j := n.(destinations := RemoveFirst(n.destinations, key), outdegree := n.outdegree - 1)];
        // the node being deleted loses an indegree
        var d := work[t];
        work := work[t := d.(indegree := d.indegree - 1)];
      } else {
        VStripSkip(graph, work, key, t, j);
      }
      j := j + 1;
    }
    VStrippedCount(graph, work, key, t);
  }

  class Graph<K(==,!new), V(==)> {
    /** The node records, in insertion order. */
    var nodes: seq<VNode<K, V>>
    /** The edge counter that `E()` returns. */
    var E: int

    /**
     * The node list is sound, and `E` never falls below the number of destination
     * entries (it exceeds it by the incoming edges of nodes deleted so far).
     */
    ghost predicate Valid()
      reads this
    {
      Sound(Shape(nodes)) && E >= SumOut(Shape(nodes))
    }

    constructor ()
      ensures Valid() && nodes == [] && E == 0
    {
      nodes := [];
      E := 0;
      new;
      assert Ranks(Shape(nodes), map[]);
    }

    /** `N()`: the number of nodes, which is the number of distinct keys. */
    function N(): (n: nat)
      reads this
      ensures UniqueKeys(Shape(nodes)) ==> n == |KeySet(Shape(nodes))|
    {
      if UniqueKeys(Shape(nodes)) then KeySetSize(Shape(nodes)); |nodes| else |nodes|
    }

    /** `addNode(key, val)`: a null key or value, or a key already present, changes nothing. */
    method AddNode(key: Option<K>, val: Option<V>)
      requires Valid()
      modifies this
      ensures Valid() && E == old(E)
      ensures if key.Some? && val.Some? && key.value !in Keys(Shape(old(nodes)))
              then nodes == old(nodes) + [VFresh(key.value, val.value)] && N() == old(N()) + 1 &&
                   Keys(Shape(nodes)) == Keys(Shape(old(nodes))) + [key.value]
              else nodes == old(nodes)
      ensures InCounted(old(nodes)) ==> InCounted(nodes)
    {
      if key.Some? && val.Some? {
        var i := 0;
        while i < |nodes|
          invariant 0 <= i <= |nodes|
          invariant forall j :: 0 <= j < i ==> nodes[j].key != key.value
        {
          if nodes[i].key == key.value {
            assert Keys(Shape(nodes))[i] == key.value;
            return;
          }
          i := i + 1;
        }
        KeysIndex(Shape(nodes), key.value);
        ShapeAppendFresh(nodes, key.value, val.value);
        if InCounted(nodes) {
          AppendFreshCounted(nodes, key.value, val.value);
        }
        nodes :=  nodes + [VFresh(key.value, val.value)];
      }
    }

    /** `get(key)`: the node holding `key`, or null for a null or unknown key. */
    method Get(key: Option<K>) returns (r: Option<VNode<K, V>>)
      ensures r.Some? <==> Present(Shape(nodes), key)
      ensures r.Some? ==> r.value in nodes && r.value.key == key.value
      ensures r.Some? ==> r.value == VNodeOf(nodes, key.value)
    {
      if key.None? {
        return None;
      }
      var i := Position(key.value, nodes);
      if i.None? {
        return None;
      }
      return Some(nodes[i.value]);
    }

    /** `isValidNode(key)`: whether a node holds `key`. */
    method IsValidNode(key: Option<K>) returns (b: bool)
      ensures b <==> Present(Shape(nodes), key)
    {
      var r := Get(key);
      b := r.Some?;
    }

    /** `isValidNode(key, val)`: whether some node holds `key` together with an equal value. */
    method IsValidNodeWithValue(key: Option<K>, val: Option<V>) returns (b: bool)
      ensures b <==> key.Some? && val.Some? &&
                     exists i :: 0 <= i < |nodes| && nodes[i].key == key.value && nodes[i].val == val.value
    {
      if key.Some? && val.Some? {
        var i := 0;
        while i < |nodes|
          invariant 0 <= i <= |nodes|
          invariant forall j :: 0 <= j < i ==> !(nodes[j].key == key.value && nodes[j].val == val.value)
        {
          if nodes[i].key == key.value && nodes[i].val == val.value {
            return true;
          }
          i := i + 1;
        }
      }
      return false;
    }

    /**
     * `indegree(key)`: the node's indegree counter, which counts the nodes listing it as
     * long as the counters are up to date; -1 for a null or unknown key.
     */
    method Indegree(key: Option<K>) returns (d: int)
      ensures Present(Shape(nodes), key) ==> d == VNodeOf(nodes, key.value).indegree
      ensures Present(Shape(nodes), key) && InCounted(nodes) ==> d == Parents(Shape(nodes), key.value)
      ensures !Present(Shape(nodes), key) ==> d == -1
    {
      var r := Get(key);
      if r.Some? {
        d := r.value.indegree;
      } else {
        d := -1;
      }
    }

    /** `outdegree(key)`: the node's counter, which counts its destination entries; -1 for an unknown key. */
    method Outdegree(key: Option<K>) returns (d: int)
      ensures Present(Shape(nodes), key) ==> d == VNodeOf(nodes, key.value).outdegree
      ensures Present(Shape(nodes), key) && Valid() ==> d == |VNodeOf(nodes, key.value).destinations|
      ensures !Present(Shape(nodes), key) ==> d == -1
    {
      var r := Get(key);
      if r.Some? {
        d := r.value.outdegree;
      } else {
        d := -1;
      }
    }

    /**
     * `deleteNode(key, graph)`: when `key` is a node of this graph (the check looks at the
     * live list, not at `graph`), strip one `key` entry from every destination list of
     * `graph` that has one and remove the node from `graph`. The callers pass a `graph`
     * that holds every live key they ask for.
     */
    method DeleteFrom(key: Option<K>, graph: seq<VNode<K, V>>) returns (found: bool, r: seq<VNode<K, V>>)
      requires Present(Shape(nodes), key) ==> Present(Shape(graph), key)
      ensures found <==> Present(Shape(nodes), key)
      ensures !found ==> r == graph
      ensures found ==> r == VDeleted(graph, key.value)
    {
      var valid := IsValidNode(key);
      if !valid {
        return false, graph;
      }
      var k := key.value;
      var at := Position(k, graph);
      var t := at.value;
      var work := StripFrom(k, graph, t);
      VStrippedIsDeleted(graph, work, k, t);
      return true, RemoveAt(work, t);
    }

    /**
     * `deleteNode(key)`: true when the key was present. The node goes, every parent loses
     * its entry for it and one outdegree, and `E` drops by the node's own outdegree only,
     * so the gap between `E` and the destination entries grows by its number of parents.
     * The children keep their indegree counters.
     */
    method DeleteNode(key: Option<K>) returns (found: bool)
      requires Valid()
      modifies this
      ensures Valid()
      ensures found <==> Present(Shape(old(nodes)), key)
      ensures !found ==> nodes == old(nodes) && E == old(E)
      ensures found ==> nodes == VDeleted(old(nodes), key.value) &&
                        E == old(E) - VNodeOf(old(nodes), key.value).outdegree &&
                        E - SumOut(Shape(nodes)) == old(E - SumOut(Shape(nodes))) + Parents(Shape(old(nodes)), key.value)
      ensures found ==> forall k :: k in Keys(Shape(nodes)) <==> k in Keys(Shape(old(nodes))) && k != key.value
      ensures found && InCounted(old(nodes)) && VNodeOf(old(nodes), key.value).destinations == [] ==> InCounted(nodes)
    {
      var toBeDel := Get(key);
      if Present(Shape(nodes), key) {
        var k := key.value;
        if InCounted(nodes) && VNodeOf(nodes, k).destinations == [] {
          DeletedCounted(nodes, k);
        }
        ShapeDeleted(nodes, k);
        DeletedSound(Shape(nodes), k);
        DeletedWellFormed(Shape(nodes), k);
        NoSelfLoop(Shape(nodes), Find(Shape(nodes), k).value);
      }
      var rest;
      found, rest := DeleteFrom(key, nodes);
      nodes := rest;
      if found {
        // `toBeDel` is the removed node itself, so its list has been stripped of `key` too
        E := E - |VStrip(toBeDel.value, key.value).destinations|;
      }
    }

    /** The copy `isAcyclic()` makes: a new node per node with its fields copied, entry by entry. */
    method CopyNodes() returns (copy: seq<VNode<K, V>>)
      ensures copy == nodes
    {
      copy := [];
      var i := 0;
      while i < |nodes|
        invariant 0 <= i <= |nodes| && copy == nodes[..i]
      {
        var n := nodes[i];
        var c := VFresh(n.key, n.val);
        var j := 0;
        while j < |n.destinations|
          invariant 0 <= j <= |n.destinations|
          invariant c == VFresh(n.key, n.val).(destinations := n.destinations[..j])
        {
          c := c.(destinations := c.destinations + [n.destinations[j]]);
          j := j + 1;
        }
        assert n.destinations[..j] == n.destinations;
        c := c.(indegree := n.indegree, outdegree := n.outdegree);
        assert c == n;
        copy := copy + [c];
        assert nodes[..i + 1] == nodes[..i] + [n];
        i := i + 1;
      }
      assert nodes[..|nodes|] == nodes;
    }

    /**
     * `isAcyclic(graph)`: up to `size + 1` rounds of deleting the first leaf of the copied
     * list; true when the list empties, false when no leaf is left. Neither the live
     * nodes nor `E` change.
     */
    method IsAcyclicOn(graph: seq<VNode<K, V>>) returns (acyclic: bool)
      requires WellFormed(Shape(graph))
      requires forall k :: k in Keys(Shape(graph)) ==> k in Keys(Shape(nodes))
      ensures acyclic == LeafRemovalEmpties(Shape(graph))
    {
      var g := graph;
      var size := |g|;
      var i := 0;
      while i <= size
        invariant i <= size && |g| + i == size
        invariant WellFormed(Shape(g))
        invariant forall k :: k in Keys(Shape(g)) ==> k in Keys(Shape(nodes))
        invariant LeafRemovalEmpties(Shape(g)) == LeafRemovalEmpties(Shape(graph))
      {
        if |g| == 0 {
          return true;
        }
        var leaf := Leaf(g);
        if leaf.None? {
          return false;
        }
        var k := g[leaf.value].key;
        FindUnique(Shape(g), leaf.value);
        ShapeDeleted(g, k);
        DeletedWellFormed(Shape(g), k);
        var _, g' := DeleteFrom(Some(k), g);
        g := g';
        i := i + 1;
      }
      return false;
    }

    /**
     * `isAcyclic()`: runs leaf removal on a copy. The live nodes and `E` stay as they
     * were, and the answer is true exactly when the destination lists are repetition-free
     * and live and the graph has no cycle.
     */
    method IsAcyclic() returns (acyclic: bool)
      requires WellFormed(Shape(nodes))
      ensures acyclic <==> SimpleEdges(Shape(nodes)) && Acyclic(Shape(nodes))
    {
      var copy := CopyNodes();
      LeafRemovalDecides(Shape(copy));
      acyclic := IsAcyclicOn(copy);
    }

    /**
     * `addEdge(v, w)`: with both keys present, link the edge, then keep it when the graph
     * stays acyclic (true) or undo it (false); an unknown or null key changes nothing.
     * A repeated edge is refused like a cycle.
     */
    method AddEdge(v: Option<K>, w: Option<K>) returns (added: bool)
      requires Valid()
      modifies this
      ensures Valid() && EdgeOutcome(old(nodes), v, w, added, nodes)
      ensures E == old(E) + (if added then 1 else 0)
      ensures InCounted(old(nodes)) ==> InCounted(nodes)
    {
      var okV := IsValidNode(v);
      var okW := IsValidNode(w);
      if !(okV && okW) {
        return false;
      }
      var g0 := nodes;
      ShapeLinked(g0, v.value, w.value);
      nodes := VLinked(g0, v.value, w.value);
      E := E + 1;
      var ok := IsAcyclic();
      if !ok {
        VEdgeRefused(g0, v.value, w.value, VUnlinked(nodes, v.value, w.value));
        if InCounted(g0) {
          ReorderedCounted(g0, VUnlinked(nodes, v.value, w.value));
        }
        nodes := VUnlinked(nodes, v.value, w.value);
        E := E - 1;
        return false;
      }
      VEdgeKept(g0, v.value, w.value);
      if InCounted(g0) {
        LinkedCounted(g0, v.value, w.value);
      }
      return true;
    }

    /** `getLongestPath(root, node)`: a stub that always returns an empty list. */
    method GetLongestPath(root: Option<K>, node: Option<K>) returns (path: seq<K>)
      ensures path == []
    {
      path := [];
    }

    /**
     * `LCA(root, srcNode1, srcNode2)`: the guard reads the root's counters first, so an
     * unknown or null root throws. Past the guard the two paths come from the stub and are
     * empty, so the scan finds nothing and the answer is null whatever the guard decides.
     */
    method LCA(root: Option<K>, src1: Option<K>, src2: Option<K>) returns (r: Result<Option<K>, Thrown>)
      ensures r.Failure? <==> !Present(Shape(nodes), root)
      ensures r.Success? ==> r.value.None?
    {
      var top := Get(root);
      if top.None? {
        return Failure(NullPointer);
      }
      var ok1 := IsValidNode(src1);
      var ok2 := IsValidNode(src2);
      if top.value.indegree == 0 && top.value.outdegree != 0 && ok1 && ok2 {
        var path1 := GetLongestPath(root, src1);
        var path2 := GetLongestPath(root, src2);
        var lca := LastShared(path1, path2);
        return Success(lca);
      }
      return Success(None);
    }
  }
}
