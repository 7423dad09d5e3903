/**
 * The multi-parent graph of LowestCommonAncestor/src/lowestCommonAncestor/DirectedAcyclicGraph.java
 * as a class: an insertion-ordered list of node records and the edge counter `E`.
 * Java's `null` arguments and results are `None`.
 */
module Dag {
  import opened Wrappers
  import opened Lists
  import opened DagNodes
  import opened CycleGuard
  import opened GraphInvariants
  import opened DfsOrder
  import opened PathEnumerator
  import opened LcaResolver

  /** `get(key, graph)`: the position of the first node holding `key`. */
  method Locate<K(==), V>(key: K, graph: seq<Node<K, V>>) returns (r: Option<nat>)
    ensures r == Find(graph, key)
  {
    var i := 0;
    while i < |graph|
      invariant 0 <= i <= |graph|
      invariant forall j :: 0 <= j < i ==> graph[j].key != key
    {
      if graph[i].key == key {
        assert Keys(graph)[i] == key;
        return Some(i);
      }
      i := i + 1;
    }
    return None;
  }

  /** `getLeaf(graph)`: the position of the first node whose outdegree counter is 0. */
  method GetLeaf<K, V>(graph: seq<Node<K, V>>) returns (r: Option<nat>)
    ensures r.Some? ==> r.value < |graph| && graph[r.value].outdegree == 0 &&
                        forall j :: 0 <= j < r.value ==> graph[j].outdegree != 0
    ensures r.None? ==> forall j :: 0 <= j < |graph| ==> graph[j].outdegree != 0
    ensures r == LeafIndex(graph)
  {
    var i := 0;
    while i < |graph|
      invariant 0 <= i <= |graph|
      invariant forall j :: 0 <= j < i ==> graph[j].outdegree != 0
    {
      if graph[i].outdegree == 0 {
        return Some(i);
      }
      i := i + 1;
    }
    return None;
  }

  /**
   * The state of `deleteNode`'s loop after `j` nodes: those are stripped of one `key`
   * entry, the rest are as they were, except that node `t`, which holds `key`, keeps
   * its other fields apart from destinations open to change.
   */
  ghost predicate StrippedUpTo<K, V>(graph: seq<Node<K, V>>, work: seq<Node<K, V>>, key: K, t: nat, j: nat) {
    |work| == |graph| && t < |graph| && j <= |graph| &&
    (forall m :: 0 <= m < j && m != t ==> work[m] == Strip(graph[m], key)) &&
    (forall m :: j <= m < |graph| && m != t ==> work[m] == graph[m]) &&
    work[t].key == key &&
    work[t].destinations == if t < j then Strip(graph[t], key).destinations else graph[t].destinations
  }

  /** A step on a node that lists `key`: it loses that entry and an outdegree, node `t` an indegree and an ancestor. */
  lemma StripStep<K, V>(graph: seq<Node<K, V>>, work: seq<Node<K, V>>, key: K, t: nat, j: nat)
    requires StrippedUpTo(graph, work, key, t, j) && j < |graph| && key in work[j].destinations
    ensures var n := work[j];
      var w1 := work[j := n.(destinations := RemoveFirst(n.destinations, key), outdegree := n.outdegree - 1)];
      StrippedUpTo(graph, w1[t := w1[t].(indegree := w1[t].indegree - 1, ancestors := RemoveFirst(w1[t].ancestors, key))],
                   key, t, j + 1)
  {
  }

  /** A step on a node that does not list `key` changes nothing. */
  lemma StripSkip<K, V>(graph: seq<Node<K, V>>, work: seq<Node<K, V>>, key: K, t: nat, j: nat)
    requires StrippedUpTo(graph, work, key, t, j) && j < |graph| && key !in work[j].destinations
    ensures StrippedUpTo(graph, work, key, t, j + 1)
  {
  }

  /** Once every node other than `t` is stripped of `key`, removing node `t` gives `Deleted`. */
  lemma StrippedIsDeleted<K, V>(graph: seq<Node<K, V>>, work: seq<Node<K, V>>, key: K, t: nat)
    requires key in Keys(graph) && t == Find(graph, key).value
    requires StrippedUpTo(graph, work, key, t, |graph|)
    ensures RemoveAt(work, t) == Deleted(graph, key)
    ensures work[t].destinations == Strip(NodeOf(graph, key), key).destinations
  {
    RemoveAtSame(work, StripAll(graph, key), t);
  }

  class Graph<K(==,!new), V(==)> {
    /** The node records, in insertion order. */
    var nodes: seq<Node<K, V>>
    /** The edge counter that `E()` returns. */
    var E: int

    /**
     * The node list is sound, and `E` never falls below the number of destination
     * entries (it exceeds it by the incoming edges of nodes deleted so far).
     */
    ghost predicate Valid()
      reads this
    {
      Sound(nodes) && E >= SumOut(nodes)
    }

    constructor ()
      ensures Valid() && nodes == [] && E == 0
    {
      nodes := [];
      E := 0;
      new;
      assert Ranks(nodes, map[]);
    }

    /** `N()`: the number of nodes, which is the number of distinct keys. */
    function N(): (n: nat)
      reads this
      ensures UniqueKeys(nodes) ==> n == |KeySet(nodes)|
    {
      if UniqueKeys(nodes) then KeySetSize(nodes); |nodes| else |nodes|
    }

    /** `addNode(key, val)`: a null key or value, or a key already present, changes nothing. */
    method AddNode(key: Option<K>, val: Option<V>)
      requires Valid()
      modifies this
      ensures Valid() && E == old(E)
      ensures if key.Some? && val.Some? && key.value !in Keys(old(nodes))
              then nodes == old(nodes) + [Fresh(key.value, val.value)] && N() == old(N()) + 1 &&
                   Keys(nodes) == Keys(old(nodes)) + [key.value]
              else nodes == old(nodes)
      ensures AncestorsConsistent(old(nodes)) ==> AncestorsConsistent(nodes)
    {
      if key.Some? && val.Some? {
        var i := 0;
        while i < |nodes|
          invariant 0 <= i <= |nodes|
          invariant forall j :: 0 <= j < i ==> nodes[j].key != key.value
        {
          if nodes[i].key == key.value {
            assert Keys(nodes)[i] == key.value;
            return;
          }
          i := i + 1;
        }
        KeysIndex(nodes, key.value);
        AppendFreshSound(nodes, key.value, val.value);
        if AncestorsConsistent(nodes) {
          AppendFreshConsistent(nodes, key.value, val.value);
        }
        nodes := nodes + [Fresh(key.value, val.value)];
      }
    }

    /** `get(key)`: the node holding `key`, or null for a null or unknown key. */
    method Get(key: Option<K>) returns (r: Option<Node<K, V>>)
      ensures r.Some? <==> Present(nodes, key)
      ensures r.Some? ==> r.value in nodes && r.value.key == key.value
      ensures r.Some? ==> r.value == NodeOf(nodes, key.value)
    {
      if key.None? {
        return None;
      }
      var i := Locate(key.value, nodes);
      if i.None? {
        return None;
      }
      return Some(nodes[i.value]);
    }

    /** `isValidNode(key)`: whether a node holds `key`. */
    method IsValidNode(key: Option<K>) returns (b: bool)
      ensures b <==> Present(nodes, key)
    {
      var r := Get(key);
      b := r.Some?;
    }

    /** `isValidNode(key, val)`: whether some node holds `key` together with an equal value. */
    method IsValidNodeWithValue(key: Option<K>, val: Option<V>) returns (b: bool)
      ensures b <==> key.Some? && val.Some? &&
                     exists i :: 0 <= i < |nodes| && nodes[i].key == key.value && nodes[i].val == val.value
    {
      if key.Some? && val.Some? {
        var i := 0;
        while i < |nodes|
          invariant 0 <= i <= |nodes|
          invariant forall j :: 0 <= j < i ==> !(nodes[j].key == key.value && nodes[j].val == val.value)
        {
          if nodes[i].key == key.value && nodes[i].val == val.value {
            return true;
          }
          i := i + 1;
        }
      }
      return false;
    }

    /** `indegree(key)`: the node's counter, which counts its ancestor entries; -1 for an unknown key. */
    method Indegree(key: Option<K>) returns (d: int)
      ensures Present(nodes, key) ==> d == NodeOf(nodes, key.value).indegree
      ensures Present(nodes, key) && Valid() ==> d == |NodeOf(nodes, key.value).ancestors|
      ensures !Present(nodes, key) ==> d == -1
    {
      var r := Get(key);
      if r.Some? {
        d := r.value.indegree;
      } else {
        d := -1;
      }
    }

    /** `outdegree(key)`: the node's counter, which counts its destination entries; -1 for an unknown key. */
    method Outdegree(key: Option<K>) returns (d: int)
      ensures Present(nodes, key) ==> d == NodeOf(nodes, key.value).outdegree
      ensures Present(nodes, key) && Valid() ==> d == |NodeOf(nodes, key.value).destinations|
      ensures !Present(nodes, key) ==> d == -1
    {
      var r := Get(key);
      if r.Some? {
        d := r.value.outdegree;
      } else {
        d := -1;
      }
    }

    /**
     * `deleteNode(key, graph)`: strip one `key` entry from every destination list that
     * has one, remove the node, and lower `E` by the removed node's remaining destinations.
     */
    method DeleteFrom(key: Option<K>, graph: seq<Node<K, V>>) returns (found: bool, r: seq<Node<K, V>>)
      modifies this`E
      ensures found <==> Present(graph, key)
      ensures !found ==> r == graph && E == old(E)
      ensures found ==> r == Deleted(graph, key.value) &&
                        E == old(E) - |Strip(NodeOf(graph, key.value), key.value).destinations|
    {
      if key.None? {
        return false, graph;
      }
      var k := key.value;
      var at := Locate(k, graph);
      if at.None? {
        return false, graph;
      }
      var t := at.value;
      var work := graph;
      var j := 0;
      while j < |work|
        invariant 0 <= j <= |work| && StrippedUpTo(graph, work, k, t, j) && E == old(E)
      {
        var n := work[j];
        if k in n.destinations {
          StripStep(graph, work, k, t, j);
          work := work[j := n.(destinations := RemoveFirst(n.destinations, k), outdegree := n.outdegree - 1)];
          // the node being deleted loses an indegree and the first `key` among its ancestors
          var d := work[t];
          work := work[t := d.(indegree := d.indegree - 1, ancestors := RemoveFirst(d.ancestors, k))];
        } else {
          StripSkip(graph, work, k, t, j);
        }
        j := j + 1;
      }
      assert StrippedUpTo(graph, work, k, t, |graph|);
      StrippedIsDeleted(graph, work, k, t);
      E := E - |work[t].destinations|;
      return true, RemoveAt(work, t);
    }

    /**
     * `deleteNode(key)`: true when the key was present. The node goes, every parent loses
     * its entry for it and one outdegree, and `E` drops by the node's own outdegree only,
     * so the gap between `E` and the destination entries grows by its number of parents.
     */
    method DeleteNode(key: Option<K>) returns (found: bool)
      requires Valid()
      modifies this
      ensures Valid()
      ensures found <==> Present(old(nodes), key)
      ensures !found ==> nodes == old(nodes) && E == old(E)
      ensures found ==> nodes == Deleted(old(nodes), key.value) &&
                        E == old(E) - NodeOf(old(nodes), key.value).outdegree &&
                        E - SumOut(nodes) == old(E - SumOut(nodes)) + Parents(old(nodes), key.value)
      ensures found ==> forall k :: k in Keys(nodes) <==> k in Keys(old(nodes)) && k != key.value
      ensures found && AncestorsConsistent(old(nodes)) && NodeOf(old(nodes), key.value).destinations == [] ==>
                AncestorsConsistent(nodes)
    {
      if Present(nodes, key) {
        DeletedSound(nodes, key.value);
        DeletedWellFormed(nodes, key.value);
        if AncestorsConsistent(nodes) && NodeOf(nodes, key.value).destinations == [] {
          DeletedConsistent(nodes, key.value);
        }
      }
      found, nodes := DeleteFrom(key, nodes);
    }

    /** `cloneGraph()`: a copy of every node with `visited` cleared. */
    method CloneGraph() returns (copy: seq<Node<K, V>>)
      ensures copy == Cleared(nodes)
    {
      copy := [];
      var i := 0;
      while i < |nodes|
        invariant 0 <= i <= |nodes| && |copy| == i
        invariant forall m :: 0 <= m < i ==> copy[m] == nodes[m].(visited := false)
      {
        var n := nodes[i];
        var c := Fresh(n.key, n.val);
        c := c.(destinations := c.destinations + n.destinations, indegree := n.indegree,
                outdegree := n.outdegree, ancestors := c.ancestors + n.ancestors);
        copy := copy + [c];
        i := i + 1;
      }
    }

    /** `resetVisited()`: clears every node's `visited` flag. */
    method ResetVisited()
      modifies this
      ensures nodes == Cleared(old(nodes)) && E == old(E)
    {
      var i := 0;
      while i < |nodes|
        invariant 0 <= i <= |nodes| == |old(nodes)|
        invariant forall m :: 0 <= m < i ==> nodes[m] == old(nodes)[m].(visited := false)
        invariant forall m :: i <= m < |nodes| ==> nodes[m] == old(nodes)[m]
        invariant E == old(E)
      {
        nodes := nodes[i := nodes[i].(visited := false)];
        i := i + 1;
      }
      assert nodes == Cleared(old(nodes));
    }

    /**
     * `isAcyclic(graph)`: up to `size + 1` rounds of deleting the first leaf of the
     * (copied) list; true when the list empties, false when no leaf is left. Every deleted
     * leaf has no destinations, so the calls to `deleteNode` leave `E` as it was.
     */
    method IsAcyclicOn(graph: seq<Node<K, V>>) returns (acyclic: bool)
      requires WellFormed(graph)
      modifies this`E
      ensures acyclic == LeafRemovalEmpties(graph)
      ensures E == old(E)
    {
      var g := graph;
      var size := |g|;
      var i := 0;
      while i <= size
        invariant i <= size && |g| + i == size
        invariant WellFormed(g)
        invariant LeafRemovalEmpties(g) == LeafRemovalEmpties(graph)
        invariant E == old(E)
      {
        if |g| == 0 {
          return true;
        }
        var leaf := GetLeaf(g);
        if leaf.None? {
          return false;
        }
        var k := g[leaf.value].key;
        FindUnique(g, leaf.value);
        DeletedWellFormed(g, k);
        var _, g' := DeleteFrom(Some(k), g);
        g := g';
        i := i + 1;
      }
      return false;
    }

    /**
     * `isAcyclic()`: runs leaf removal on a clone. The live nodes and `E` stay as they
     * were, and the answer is true exactly when the destination lists are repetition-free
     * and live and the graph has no cycle.
     */
    method IsAcyclic() returns (acyclic: bool)
      requires WellFormed(nodes)
      modifies this`E
      ensures E == old(E)
      ensures acyclic <==> SimpleEdges(nodes) && Acyclic(nodes)
    {
      var copy := CloneGraph();
      ClearedSound(nodes);
      LeafRemovalDecides(copy);
      acyclic := IsAcyclicOn(copy);
    }

    /**
     * `addEdge(v, w)`: with both keys present, link the edge, then keep it when the graph
     * stays acyclic (true) or undo it (false); an unknown or null key changes nothing.
     * A repeated edge is refused like a cycle. Undoing removes the first `w` and the first
     * `v`, so a refused repeated edge moves the existing entries to the end of their lists.
     */
    method AddEdge(v: Option<K>, w: Option<K>) returns (added: bool)
      requires Valid()
      modifies this
      ensures Valid() && AddEdgeOutcome(old(nodes), v, w, added, nodes)
      ensures E == old(E) + (if added then 1 else 0)
      ensures AncestorsConsistent(old(nodes)) ==> AncestorsConsistent(nodes)
    {
      var source := Get(v);
      var dest := Get(w);
      if source.None? || dest.None? {
        return false;
      }
      var g0 := nodes;
      LinkedWellFormed(g0, v.value, w.value);
      nodes := Linked(g0, v.value, w.value);
      E := E + 1;
      var ok := IsAcyclic();
      if !ok {
        EdgeRefused(g0, v.value, w.value, Unlinked(nodes, v.value, w.value));
        if AncestorsConsistent(g0) {
          SameUpToOrderConsistent(g0, Unlinked(nodes, v.value, w.value));
        }
        nodes := Unlinked(nodes, v.value, w.value);
        E := E - 1;
        return false;
      }
      EdgeKept(g0, v.value, w.value);
      if AncestorsConsistent(g0) {
        LinkedConsistent(g0, v.value, w.value);
      }
      return true;
    }

    /**
     * `topologicalSortUtil(v, stack)`: mark `v`, search every unvisited destination, then
     * push `v` on top. Ghost arguments: the node list `g` whose edges the search follows
     * (only flags change while it runs), a ranking of `g`, and the keys whose calls are
     * still running (`gray`), all ranked above `v`. The stack only grows on top.
     */
    method TopologicalSortUtil(v: K, stack: seq<K>, ghost g: seq<Node<K, V>>, ghost rank: map<K, nat>,
                               ghost gray: set<K>) returns (stack': seq<K>)
      requires WellFormed(g) && SimpleEdges(g) && Ranks(g, rank)
      requires DfsInv(g, nodes, stack, gray) && v in Keys(g) && v !in stack && v !in gray
      requires Below(rank, v, gray)
      modifies this
      ensures DfsInv(g, nodes, stack', gray) && E == old(E)
      ensures v in stack' && IsSuffix(stack, stack') && FlagsGrow(old(nodes), nodes)
      decreases Unvisited(nodes)
    {
      SameButVisitedKeys(g, nodes);
      var i := Locate(v, nodes);
      var at := i.value;
      ghost var gray' := gray + {v};
      MarkGray(g, nodes, stack, gray, at);
      nodes := nodes[at := nodes[at].(visited := true)];
      assert FlagsGrow(old(nodes), nodes);
      var ds := nodes[at].destinations;
      assert ds == NodeOf(g, v).destinations;
      forall m | 0 <= m < |ds| ensures ds[m] in Keys(g) && Below(rank, ds[m], gray') {
        BelowGray(rank, v, gray, ds[m]);
      }
      stack' := stack;
      var j := 0;
      while j < |ds|
        invariant 0 <= j <= |ds|
        invariant DfsInv(g, nodes, stack', gray') && E == old(E)
        invariant v !in stack' && Finished(ds, j, stack')
        invariant IsSuffix(stack, stack') && FlagsGrow(old(nodes), nodes)
        invariant Unvisited(nodes) < old(Unvisited(nodes))
      {
        var key := ds[j];
        SameButVisitedKeys(g, nodes);
        var n := Locate(key, nodes);
        ghost var before, flags := stack', nodes;
        if !nodes[n.value].visited {
          stack' := TopologicalSortUtil(key, stack', g, rank, gray');
          SuffixTrans(stack, before, stack');
          FlagsGrowTrans(old(nodes), flags, nodes);
        } else {
          VisitedFinished(g, nodes, stack', gray', rank, n.value);
        }
        FinishedGrow(ds, j, before, stack');
        j := j + 1;
      }
      PushFinished(g, nodes, stack', gray, v);
      SuffixPush(stack, stack', v);
      stack' := [v] + stack';
    }

    /**
     * `topologicalSort()`: clear every flag, then search from each unvisited node in list
     * order. The keys come back in the order the stack pops them: every key once, and
     * for every edge the source before the destination. Only the flags change.
     */
    method TopologicalSort() returns (order: seq<K>)
      requires Valid()
      modifies this
      ensures Valid() && E == old(E) && SameButVisited(old(nodes), nodes)
      ensures forall i :: 0 <= i < |nodes| ==> nodes[i].visited
      ensures TopologicalOrder(nodes, order) && |order| == |nodes|
    {
      ghost var g0 := nodes;
      var stack: seq<K> := [];
      ResetVisited();
      ClearedSound(g0);
      ghost var g := nodes;
      ghost var rank :| Ranks(g, rank);
      var i := 0;
      while i < |nodes|
        invariant 0 <= i <= |nodes|
        invariant DfsInv(g, nodes, stack, {}) && E == old(E) && Finished(Keys(g), i, stack)
      {
        ghost var before := stack;
        assert nodes[i].key == Keys(g)[i] && Below(rank, nodes[i].key, {});
        if !nodes[i].visited {
          stack := TopologicalSortUtil(nodes[i].key, stack, g, rank, {});
        } else {
          VisitedFinished(g, nodes, stack, {}, rank, i);
        }
        FinishedGrow(Keys(g), i, before, stack);
        i := i + 1;
      }
      order := stack;
      SameButVisitedKeys(g, nodes);
      forall m | 0 <= m < |nodes| ensures nodes[m].visited {
        assert nodes[m].key == Keys(g)[m];
      }
      forall k | k in Keys(g) ensures k in order {
        var m :| 0 <= m < |Keys(g)| && Keys(g)[m] == k;
      }
      assert TopologicalOrder(g, order);
      SameButVisitedOrder(g, nodes, order);
      TopologicalOrderLength(nodes, order);
      SameButVisitedSound(g0, nodes);
    }

    /**
     * `getPaths(srcKey)`: null for a null or unknown key, otherwise every upward path from
     * the key to a node without ancestors, in the order the recursion finds them.
     */
    method GetPaths(key: Option<K>) returns (paths: Option<seq<seq<K>>>)
      requires Valid() && AncestorsConsistent(nodes)
      ensures paths.Some? <==> Present(nodes, key)
      ensures paths.Some? ==> paths.value == Chains(nodes, Heights(nodes), key.value)
      ensures paths.Some? ==> forall p :: p in paths.value <==> IsChain(nodes, key.value, p)
    {
      var src := Get(key);
      if src.None? {
        return None;
      }
      ghost var rank := Heights(nodes);
      var found := BuildPaths(key.value, [], [], rank);
      PrefixedEmpty(Chains(nodes, rank, key.value));
      ChainsExact(nodes, rank, key.value);
      return Some(found);
    }

    /**
     * `buildPaths(srcKey, paths, accPath)`: appends a copy of the accumulator and extends it
     * through the ancestors, so that every upward path from `k`, behind `acc`, is appended.
     * The ghost `rank` only bounds the recursion.
     */
    method BuildPaths(k: K, paths: seq<seq<K>>, acc: seq<K>, ghost rank: map<K, nat>) returns (paths': seq<seq<K>>)
      requires Climbs(nodes, rank) && k in Keys(nodes)
      ensures paths' == paths + Prefixed(acc, Chains(nodes, rank, k))
      decreases |nodes| - rank[k], 1
    {
      paths' := paths + [acc];
      paths' := BuildAncestorsPaths(k, paths', |paths|, rank);
      SpreadAppended(paths, acc, Chains(nodes, rank, k));
    }

    /**
     * `buildAncestorsPaths(srcKey, paths, accPath)`, where the accumulator is the path at
     * index `i`: the first upward path from `k` is added onto that path in place, and every
     * further one is appended behind a snapshot of it.
     */
    method BuildAncestorsPaths(k: K, paths: seq<seq<K>>, i: nat, ghost rank: map<K, nat>) returns (paths': seq<seq<K>>)
      requires Climbs(nodes, rank) && k in Keys(nodes) && i < |paths|
      ensures paths' == Spread(paths, i, paths[i], Chains(nodes, rank, k))
      ensures paths' == paths[i := paths[i] + Chains(nodes, rank, k)[0]] + Prefixed(paths[i], Chains(nodes, rank, k)[1..])
      decreases |nodes| - rank[k], 0
    {
      var clone := paths[i] + [k];
      paths' := paths[i := clone];
      var node := Get(Some(k));
      var ancestors := node.value.ancestors;
      if ancestors == [] {
        assert Chains(nodes, rank, k) == [[k]];
        return;
      }
      Climb(nodes, rank, k, ancestors[0]);
      paths' := BuildAncestorsPaths(ancestors[0], paths', i, rank);
      SpreadOver(paths, i, clone, clone, Chains(nodes, rank, ancestors[0]));
      assert ChainsVia(nodes, rank, k, 1) == Chains(nodes, rank, ancestors[0]);
      var j := 1;
      while j < |ancestors|
        invariant 1 <= j <= |ancestors|
        invariant paths' == Spread(paths, i, clone, ChainsVia(nodes, rank, k, j))
      {
        Climb(nodes, rank, k, ancestors[j]);
        paths' := BuildPaths(ancestors[j], paths', clone, rank);
        SpreadMore(paths, i, clone, ChainsVia(nodes, rank, k, j), Chains(nodes, rank, ancestors[j]));
        j := j + 1;
      }
      SpreadChains(nodes, rank, k, paths, i);
    }

    /**
     * `LCA(srcNode1, srcNode2)`: null unless both keys are present; otherwise the first
     * element of the longest intersection of an upward path of the first key with one of
     * the second. It is present exactly when the two keys have upward paths that meet, and
     * it is then where an upward path of the first key first reaches an upward path of the
     * second.
     */
    method LCA(a: Option<K>, b: Option<K>) returns (r: Option<K>)
      requires Valid() && AncestorsConsistent(nodes)
      ensures r == if Present(nodes, a) && Present(nodes, b)
                   then LcaOf(Chains(nodes, Heights(nodes), a.value), Chains(nodes, Heights(nodes), b.value)) else None
      ensures r.Some? <==> Present(nodes, a) && Present(nodes, b) &&
                           exists p, q, x :: IsChain(nodes, a.value, p) && IsChain(nodes, b.value, q) && x in p && x in q
      ensures r.Some? ==> exists p, q :: IsChain(nodes, a.value, p) && IsChain(nodes, b.value, q) &&
                                         FirstShared(p, q, r.value)
      ensures Present(nodes, a) && b == a ==> r == a
    {
      var okA := IsValidNode(a);
      var okB := IsValidNode(b);
      if !(okA && okB) {
        return None;
      }
      var pathList1 := GetPaths(a);
      var pathList2 := GetPaths(b);
      if pathList1.None? || pathList2.None? {
        return None;
      }
      r := LcaOf(pathList1.value, pathList2.value);
      LcaOfMeaning(pathList1.value, pathList2.value);
      if b == a {
        ChainsSound(nodes, Heights(nodes), a.value);
        LcaOfCommonHead(pathList1.value, pathList2.value, a.value);
      }
    }
  }
}
