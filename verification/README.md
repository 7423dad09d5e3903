# Lowest common ancestors in a DAG and in a binary search tree

This project models, in Dafny, the three data structures of the LCA_Java repository.
It also proves what each of their operations promises.

- **The multi-parent graph** (`LowestCommonAncestor/.../DirectedAcyclicGraph.java`).
  The graph is an insertion-ordered list of node records. Each record holds a key, a value,
  a `destinations` list (children), an `ancestors` list (parents), `indegree` and
  `outdegree` counters and a `visited` flag. A global edge counter `E` sits beside the list.
  - `addEdge` inserts an edge speculatively and runs the cycle check on a clone, which
    removes outdegree-0 nodes one at a time. If the clone does not empty, the edge is
    rolled back.
  - `topologicalSort` is a depth-first search that pushes finished nodes onto a stack.
  - `getPaths` enumerates every upward chain from a key through ancestor entries.
  - `LCA` returns the first key of the longest pairwise intersection of the two keys'
    chains.

  Dafny: class `Dag.Graph` over a `seq` of `DagNodes.Node` records with `E` as a field.
  The cycle check's meaning is in `CycleGuard`. The edge, deletion and consistency
  invariants are in `GraphInvariants` and `DagNodes`. Depth-first order is in `DfsOrder`,
  chain enumeration in `PathEnumerator`, and the choice of answer in `LcaResolver`.
- **The binary search tree** (`LowestCommonAncestor/.../BinarySearchTree.java`).
  Each node stores its subtree count `N`.
  - `put`, `get` and `contains` work as in any symbol table.
  - `delete` replaces a node with its in-order predecessor.
  - `height` and `median` are computed from the subtree counts.
  - `getPath` is a root-to-key search with a backtracking accumulator.
  - `LCA` returns the common proper ancestor with the lowest subtree.

  Dafny: the datatype `SearchTree.Tree` with its functions and lemmas, and the class
  `Bst.BinarySearchTree`, whose `root` field the mutators replace.
- **The earlier graph variant** (`lowestCommonAncestor/.../DirectedAcyclicGraph.java`).
  It has the same node list, counters, rolled-back `addEdge` and leaf-removal check, but
  nodes keep no ancestor list. Its `LCA` relies on a `getLongestPath` that always returns
  an empty list.

  Dafny: class `VariantDag.Graph` over `VariantNodes.VNode` records. `VariantNodes.Shape`
  views the variant's records as multi-parent records with no ancestors. Through that
  view, the cycle-check theory proved for the main graph carries over unchanged.

Java `null` arguments and results are `Option` values. Java `==` on keys and values is
value equality. A `NullPointerException` that the source raises is a `Failure` result.

## Model

| member | source | states |
|---|---|---|
| Dag.Graph.AddNode | LowestCommonAncestor/src/lowestCommonAncestor/DirectedAcyclicGraph.java:59-70 | A null key, a null value or an existing key changes nothing. Otherwise a node with no edges and both degrees 0 is appended. `E` and the graph invariants are kept. |
| Dag.Graph.Get | LowestCommonAncestor/src/lowestCommonAncestor/DirectedAcyclicGraph.java:72-88 | The record stored under the key is returned, or null for a null or unknown key. |
| Dag.Locate | LowestCommonAncestor/src/lowestCommonAncestor/DirectedAcyclicGraph.java:77-88 | The linear scan returns the index of the first node holding the key, or none. |
| Dag.Graph.IsValidNode | LowestCommonAncestor/src/lowestCommonAncestor/DirectedAcyclicGraph.java:244-247 | True exactly for a non-null key of a live node. |
| Dag.Graph.IsValidNodeWithValue | LowestCommonAncestor/src/lowestCommonAncestor/DirectedAcyclicGraph.java:249-260 | True exactly for a live key whose node holds an equal, non-null value. |
| Dag.Graph.Indegree | LowestCommonAncestor/src/lowestCommonAncestor/DirectedAcyclicGraph.java:262-269 | -1 for an unknown key. Otherwise the stored counter, which equals the length of the node's ancestor list. |
| Dag.Graph.Outdegree | LowestCommonAncestor/src/lowestCommonAncestor/DirectedAcyclicGraph.java:271-278 | -1 for an unknown key. Otherwise the stored counter, which equals the length of the node's destination list. |
| Dag.Graph.N | LowestCommonAncestor/src/lowestCommonAncestor/DirectedAcyclicGraph.java:134-137 | The node count is the number of distinct live keys. |
| Dag.Graph.DeleteFrom | LowestCommonAncestor/src/lowestCommonAncestor/DirectedAcyclicGraph.java:108-131 | The key's first occurrence leaves every destination list, with that node's outdegree lowered, and the node is removed. An unknown key changes nothing. |
| Dag.Graph.DeleteNode | LowestCommonAncestor/src/lowestCommonAncestor/DirectedAcyclicGraph.java:98-131 | Returns whether the key existed. `E` drops by the node's own outdegree only, so E minus the sum of outdegrees grows by the node's parent count. Every other key stays. Ancestor lists stay consistent when the node had no children. |
| Dag.GetLeaf | LowestCommonAncestor/src/lowestCommonAncestor/DirectedAcyclicGraph.java:233-242 | The first node with outdegree 0, or none when every node has an outgoing edge. |
| Dag.Graph.CloneGraph | LowestCommonAncestor/src/lowestCommonAncestor/DirectedAcyclicGraph.java:211-225 | The copy equals the live records with every `visited` flag cleared. |
| Dag.Graph.IsAcyclicOn | LowestCommonAncestor/src/lowestCommonAncestor/DirectedAcyclicGraph.java:193-209 | The result is whether repeatedly deleting the first outdegree-0 node empties the list. The live graph and `E` are left as they were. |
| Dag.Graph.IsAcyclic | LowestCommonAncestor/src/lowestCommonAncestor/DirectedAcyclicGraph.java:183-186 | True exactly when the graph has no repeated or dangling destination entry and some ranking makes every edge go downhill, that is, no cycle. |
| CycleGuard.LeafRemovalDecides | LowestCommonAncestor/src/lowestCommonAncestor/DirectedAcyclicGraph.java:193-209 | Leaf removal empties a well-formed list exactly when its edges are simple and acyclic, in both directions. |
| Dag.Graph.AddEdge | LowestCommonAncestor/src/lowestCommonAncestor/DirectedAcyclicGraph.java:151-181 | An unknown endpoint changes nothing and returns false. An accepted edge appends `w` to `v`'s destinations and `v` to `w`'s ancestors, raises both degrees and `E` by one, and leaves the graph acyclic. A refused edge (a cycle, a self-loop or a repeat) restores `E`, the degrees and the list contents. |
| GraphInvariants.EdgeKept | LowestCommonAncestor/src/lowestCommonAncestor/DirectedAcyclicGraph.java:151-157 | A kept edge leaves a sound graph whose outdegree sum is one higher. |
| GraphInvariants.EdgeRefused | LowestCommonAncestor/src/lowestCommonAncestor/DirectedAcyclicGraph.java:158-172 | A rollback leaves the same lists up to order, the same outdegree sum and a sound graph. A new edge's rollback leaves exactly the old graph. |
| GraphInvariants.RejectedEdge | LowestCommonAncestor/src/lowestCommonAncestor/DirectedAcyclicGraph.java:158-172 | Adding and then removing an edge changes every list only in order. |
| GraphInvariants.LinkedWellFormed | LowestCommonAncestor/src/lowestCommonAncestor/DirectedAcyclicGraph.java:151-157 | The speculative insertion keeps the counters equal to the list lengths and raises the outdegree sum by one. It keeps edges simple exactly when the edge is new. |
| GraphInvariants.DeletedSound | LowestCommonAncestor/src/lowestCommonAncestor/DirectedAcyclicGraph.java:108-131 | Deletion keeps a sound graph. The outdegree sum drops by the key's parent count plus its own outdegree. |
| GraphInvariants.DeletedConsistent | LowestCommonAncestor/src/lowestCommonAncestor/DirectedAcyclicGraph.java:108-131 | Deleting a node without children keeps every ancestor entry pointing at a live parent that lists the child. |
| GraphInvariants.LinkedConsistent | LowestCommonAncestor/src/lowestCommonAncestor/DirectedAcyclicGraph.java:151-157 | An inserted edge keeps every ancestor entry pointing at a live parent that lists the child. |
| Dag.Graph.ResetVisited | LowestCommonAncestor/src/lowestCommonAncestor/DirectedAcyclicGraph.java:90-96 | Every `visited` flag becomes false and nothing else changes. |
| Dag.Graph.TopologicalSortUtil | LowestCommonAncestor/src/lowestCommonAncestor/DirectedAcyclicGraph.java:285-300 | The key ends on the stack above what was there before. Every key it reaches is finished before it. Flags only turn on. |
| Dag.Graph.TopologicalSort | LowestCommonAncestor/src/lowestCommonAncestor/DirectedAcyclicGraph.java:304-322 | Every key is listed exactly once, and for every edge v→w, v comes before w. The edges are untouched and every node ends visited. |
| DfsOrder.EdgeGoesForward | LowestCommonAncestor/src/lowestCommonAncestor/DirectedAcyclicGraph.java:304-322 | In a topological order, the source of every edge precedes its target. |
| DfsOrder.TopologicalOrderLength | LowestCommonAncestor/src/lowestCommonAncestor/DirectedAcyclicGraph.java:304-322 | A topological order of a list with unique keys is exactly as long as the list. |
| Dag.Graph.GetPaths | LowestCommonAncestor/src/lowestCommonAncestor/DirectedAcyclicGraph.java:331-342 | Null for an unknown key. Otherwise the paths are exactly the upward chains from the key, in recursion order. |
| Dag.Graph.BuildPaths | LowestCommonAncestor/src/lowestCommonAncestor/DirectedAcyclicGraph.java:351-356 | The enumeration appends the accumulator followed by each chain from the key. |
| Dag.Graph.BuildAncestorsPaths | LowestCommonAncestor/src/lowestCommonAncestor/DirectedAcyclicGraph.java:366-386 | The shared accumulator path is extended by the first chain. Each further chain is appended behind its own copy of the accumulator. |
| PathEnumerator.ChainsExact | LowestCommonAncestor/src/lowestCommonAncestor/DirectedAcyclicGraph.java:331-386 | A path is enumerated from a key exactly when it climbs ancestor entries from that key to a node without ancestors. |
| PathEnumerator.ChainsComplete | LowestCommonAncestor/src/lowestCommonAncestor/DirectedAcyclicGraph.java:366-386 | Every upward chain is enumerated. |
| PathEnumerator.Heights | LowestCommonAncestor/src/lowestCommonAncestor/DirectedAcyclicGraph.java:366-386 | In an acyclic graph with consistent ancestor entries, every ancestor ranks above its child, so the recursion terminates. |
| Lists.Intersection | LowestCommonAncestor/src/lowestCommonAncestor/DirectedAcyclicGraph.java:388-391 | The common elements of two paths, each once, in the first path's order. |
| Lists.IntersectionHead | LowestCommonAncestor/src/lowestCommonAncestor/DirectedAcyclicGraph.java:388-391 | The intersection starts with the first element of the first path that occurs in the second. |
| LcaResolver.Longest | LowestCommonAncestor/src/lowestCommonAncestor/DirectedAcyclicGraph.java:413-416 | The chosen intersection is at least as long as every other, and no earlier one is as long. |
| LcaResolver.LcaOfMeaning | LowestCommonAncestor/src/lowestCommonAncestor/DirectedAcyclicGraph.java:400-422 | An answer exists exactly when some pair of paths shares a key. The answer is then the first shared key of such a pair. |
| LcaResolver.LcaOfCommonHead | LowestCommonAncestor/src/lowestCommonAncestor/DirectedAcyclicGraph.java:400-422 | When every path of the first key starts at a key that every path of the second contains, that key is the answer. |
| Dag.Graph.LCA | LowestCommonAncestor/src/lowestCommonAncestor/DirectedAcyclicGraph.java:400-422 | Null for an unknown key. Otherwise the first key of the first longest pairwise intersection of the two keys' chains. It is non-null exactly when some chains of the two keys meet. A key is its own LCA. |
| SearchTree.SizeCounts | LowestCommonAncestor/src/lowestCommonAncestor/BinarySearchTree.java:42-51 | With correct counts, `size` is the number of keys in order. |
| Bst.BinarySearchTree.Size | LowestCommonAncestor/src/lowestCommonAncestor/BinarySearchTree.java:42-51 | `size()` is the number of keys. |
| Bst.BinarySearchTree.IsEmpty | LowestCommonAncestor/src/lowestCommonAncestor/BinarySearchTree.java:36-39 | True exactly when the tree holds no key. |
| SearchTree.GetFinds | LowestCommonAncestor/src/lowestCommonAncestor/BinarySearchTree.java:76-94 | The comparison search finds a node exactly for the keys of the tree, with the value the tree maps the key to. |
| Bst.BinarySearchTree.Get | LowestCommonAncestor/src/lowestCommonAncestor/BinarySearchTree.java:71-74 | The stored value, or null for an absent key. |
| Bst.BinarySearchTree.Contains | LowestCommonAncestor/src/lowestCommonAncestor/BinarySearchTree.java:60-62 | True exactly for the keys in the tree. |
| SearchTree.PutSpec | LowestCommonAncestor/src/lowestCommonAncestor/BinarySearchTree.java:112-120 | Insertion keeps key order and correct counts and maps the key to the new value. The size grows by one only for a new key. |
| Bst.BinarySearchTree.Put | LowestCommonAncestor/src/lowestCommonAncestor/BinarySearchTree.java:103-110 | A null value deletes the key. Any other value becomes the key's value and every other entry stays. |
| SearchTree.HeightBounds | LowestCommonAncestor/src/lowestCommonAncestor/BinarySearchTree.java:142-157 | -1 exactly for the empty tree. Below the number of keys, and above either subtree's height. |
| Bst.BinarySearchTree.Height | LowestCommonAncestor/src/lowestCommonAncestor/BinarySearchTree.java:138-140 | -1 exactly for the empty tree, and otherwise below the number of keys. No key's `getPath` has more than h + 1 keys, and some key's has exactly h + 1. |
| SearchTree.HeightDepth | LowestCommonAncestor/src/lowestCommonAncestor/BinarySearchTree.java:142-157 | The height is the number of links on the longest root-to-key path: no key lies deeper, and in a search tree some key lies exactly that deep. |
| SearchTree.CompareHeights | LowestCommonAncestor/src/lowestCommonAncestor/BinarySearchTree.java:159-162 | Non-positive exactly when the first key's subtree is no higher than the second's. |
| SearchTree.SelectInOrder | LowestCommonAncestor/src/lowestCommonAncestor/BinarySearchTree.java:177-208 | Selection by subtree counts returns the key at that 1-based position of the sorted keys, and null outside the range. |
| SearchTree.MedianSplits | LowestCommonAncestor/src/lowestCommonAncestor/BinarySearchTree.java:173-208 | The median key has (size-1)/2 keys below it and size/2 above it. |
| Bst.BinarySearchTree.Median | LowestCommonAncestor/src/lowestCommonAncestor/BinarySearchTree.java:173-175 | Null for an empty tree. Otherwise the sorted key at position (size+1)/2, with the split above. |
| SearchTree.MaxSpec | LowestCommonAncestor/src/lowestCommonAncestor/BinarySearchTree.java:327-334 | `max` finds the largest key of a non-empty subtree and its value. |
| SearchTree.DeleteMaxSpec | LowestCommonAncestor/src/lowestCommonAncestor/BinarySearchTree.java:319-325 | Removing the maximum keeps order and counts, drops exactly that key and lowers the size by one. |
| SearchTree.DeleteSpec | LowestCommonAncestor/src/lowestCommonAncestor/BinarySearchTree.java:301-317 | Deletion with predecessor replacement keeps order and counts and drops exactly the key. An absent key changes nothing. |
| Bst.BinarySearchTree.Delete | LowestCommonAncestor/src/lowestCommonAncestor/BinarySearchTree.java:297-299 | The key and its value leave the tree and every other entry stays. The root is reassigned (see Findings). |
| SearchTree.DeleteAsWrittenBelowRoot | LowestCommonAncestor/src/lowestCommonAncestor/BinarySearchTree.java:297-317 | For any key other than the root's, the public `delete` as written deletes the key. |
| SearchTree.DeleteAsWrittenAtRoot | LowestCommonAncestor/src/lowestCommonAncestor/BinarySearchTree.java:297-317 | As written, deleting the root key leaves it in the tree with its value. With a two-child root whose left child has no right child, the tree also loses its order. |
| SearchTree.DeleteAsWrittenLosesPredecessor | LowestCommonAncestor/src/lowestCommonAncestor/BinarySearchTree.java:297-317 | As written, deleting the root key when its predecessor lies deeper in the left subtree deletes the predecessor instead, and leaves the root's count one too high. |
| SearchTree.DeleteRootExample | LowestCommonAncestor/src/lowestCommonAncestor/BinarySearchTree.java:297-299 | After puts 2, 1, 3, deleting 2 as written leaves `get(2)` returning the old value. The corrected delete removes it. |
| SearchTree.TrailFinds | LowestCommonAncestor/src/lowestCommonAncestor/BinarySearchTree.java:356-373 | The backtracking search returns a path exactly when the key is in the tree. The path descends child by child from the root to the key. |
| SearchTree.TrailSearches | LowestCommonAncestor/src/lowestCommonAncestor/BinarySearchTree.java:356-373 | In a search tree that path is the comparison path: each step goes left for a smaller key and right otherwise. |
| Bst.BinarySearchTree.PathFrom | LowestCommonAncestor/src/lowestCommonAncestor/BinarySearchTree.java:356-373 | Reports whether the key is below the node and leaves the accumulator extended by exactly the path down to it. |
| Bst.BinarySearchTree.GetPath | LowestCommonAncestor/src/lowestCommonAncestor/BinarySearchTree.java:341-354 | Null exactly for an absent key. Otherwise the keys from the root (first) down to the key (last). |
| SearchTree.AboveAncestors | LowestCommonAncestor/src/lowestCommonAncestor/BinarySearchTree.java:382-396 | Every key above a key on its path is a proper ancestor whose subtree holds it. |
| SearchTree.AboveHeights | LowestCommonAncestor/src/lowestCommonAncestor/BinarySearchTree.java:382-396 | Further down a key's path, subtrees are strictly lower. |
| SearchTree.Lowest | LowestCommonAncestor/src/lowestCommonAncestor/BinarySearchTree.java:391-395 | Picks a key whose subtree is no higher than any other candidate's, or null when there is no candidate. |
| SearchTree.LowestCommon | LowestCommonAncestor/src/lowestCommonAncestor/BinarySearchTree.java:382-396 | The chosen common ancestor is a proper ancestor of both keys and strictly lower than every other common proper ancestor. |
| Bst.BinarySearchTree.LCA | LowestCommonAncestor/src/lowestCommonAncestor/BinarySearchTree.java:382-396 | Null unless both keys are present and share a proper ancestor, so also when either is the root. Otherwise the deepest common proper ancestor. |
| VariantDag.Graph.AddNode | lowestCommonAncestor/src/lowestCommonAncestor/DirectedAcyclicGraph.java:61-74 | A null key, a null value or an existing key changes nothing. Otherwise a node with no destinations and both counters 0 is appended. Counters that count parents keep doing so. |
| VariantDag.Graph.Get | lowestCommonAncestor/src/lowestCommonAncestor/DirectedAcyclicGraph.java:76-78 | The record stored under the key, or null for a null or unknown key. |
| VariantDag.Position | lowestCommonAncestor/src/lowestCommonAncestor/DirectedAcyclicGraph.java:80-91 | The scan returns the index of the first node holding the key, or none. |
| VariantDag.Graph.N | lowestCommonAncestor/src/lowestCommonAncestor/DirectedAcyclicGraph.java:131-134 | The node count is the number of distinct live keys. |
| VariantDag.Graph.IsValidNode | lowestCommonAncestor/src/lowestCommonAncestor/DirectedAcyclicGraph.java:231-242 | True exactly for a non-null key of a live node. |
| VariantDag.Graph.IsValidNodeWithValue | lowestCommonAncestor/src/lowestCommonAncestor/DirectedAcyclicGraph.java:244-255 | True exactly for a live key whose node holds an equal, non-null value. |
| VariantDag.Graph.Indegree | lowestCommonAncestor/src/lowestCommonAncestor/DirectedAcyclicGraph.java:257-268 | -1 for an unknown key. Otherwise the stored counter, which equals the number of parents when counters are up to date. |
| VariantDag.Graph.Outdegree | lowestCommonAncestor/src/lowestCommonAncestor/DirectedAcyclicGraph.java:270-280 | -1 for an unknown key. Otherwise the stored counter, which equals the length of the node's destination list. |
| VariantDag.StripFrom | lowestCommonAncestor/src/lowestCommonAncestor/DirectedAcyclicGraph.java:114-122 | Every node loses the key's first destination entry and one outdegree. The deleted node's own indegree drops by one per node that listed it, its parent count. |
| VariantDag.Graph.DeleteFrom | lowestCommonAncestor/src/lowestCommonAncestor/DirectedAcyclicGraph.java:107-128 | False and no change unless the key is live. Otherwise the graph with the key stripped from every destination list and its node removed. |
| VariantNodes.ShapeDeleted | lowestCommonAncestor/src/lowestCommonAncestor/DirectedAcyclicGraph.java:107-128 | The variant's deletion is the multi-parent graph's deletion, seen without ancestor lists. |
| VariantNodes.DeletedCounted | lowestCommonAncestor/src/lowestCommonAncestor/DirectedAcyclicGraph.java:107-128 | Deleting a node without children keeps every indegree equal to its number of parents. |
| VariantDag.Graph.DeleteNode | lowestCommonAncestor/src/lowestCommonAncestor/DirectedAcyclicGraph.java:93-100 | Returns whether the key existed. Only then does `E` drop, by the node's own outdegree. Every other key stays, and the graph stays sound. |
| VariantDag.Leaf | lowestCommonAncestor/src/lowestCommonAncestor/DirectedAcyclicGraph.java:220-229 | The first node with outdegree 0, or none when every node has an outgoing edge. |
| VariantDag.Graph.CopyNodes | lowestCommonAncestor/src/lowestCommonAncestor/DirectedAcyclicGraph.java:177-189 | The copy holds the same key, value, destinations and counters for every node. |
| VariantDag.Graph.IsAcyclicOn | lowestCommonAncestor/src/lowestCommonAncestor/DirectedAcyclicGraph.java:199-212 | The result is whether repeatedly deleting the first outdegree-0 node empties the copy. The live graph and `E` are untouched. |
| VariantDag.Graph.IsAcyclic | lowestCommonAncestor/src/lowestCommonAncestor/DirectedAcyclicGraph.java:175-191 | True exactly when destination entries are simple and acyclic. |
| VariantNodes.SameEdgesAgree | lowestCommonAncestor/src/lowestCommonAncestor/DirectedAcyclicGraph.java:175-212 | Two lists with the same keys, destinations and outdegrees agree on simplicity, acyclicity and the outdegree sum. |
| VariantNodes.ShapeLinked | lowestCommonAncestor/src/lowestCommonAncestor/DirectedAcyclicGraph.java:148-157 | The speculative insertion keeps counters matching and raises the outdegree sum by one. It creates a cycle exactly when the multi-parent insertion would. |
| VariantNodes.VLinkUnlink | lowestCommonAncestor/src/lowestCommonAncestor/DirectedAcyclicGraph.java:158-171 | The rollback restores every counter and every destination list up to order, and restores exactly the old lists for a new edge. |
| VariantNodes.VEdgeKept | lowestCommonAncestor/src/lowestCommonAncestor/DirectedAcyclicGraph.java:148-173 | A kept edge leaves a sound graph whose outdegree sum is one higher. |
| VariantNodes.VEdgeRefused | lowestCommonAncestor/src/lowestCommonAncestor/DirectedAcyclicGraph.java:158-173 | A refused edge is one already present or one that closes a cycle. Its rollback leaves a sound graph with the same outdegree sum. |
| VariantNodes.LinkedCounted | lowestCommonAncestor/src/lowestCommonAncestor/DirectedAcyclicGraph.java:148-157 | Inserting a new edge keeps every indegree equal to the node's number of parents. |
| VariantNodes.AppendFreshCounted | lowestCommonAncestor/src/lowestCommonAncestor/DirectedAcyclicGraph.java:61-74 | Appending a fresh node keeps every indegree equal to the node's number of parents. |
| VariantDag.Graph.AddEdge | lowestCommonAncestor/src/lowestCommonAncestor/DirectedAcyclicGraph.java:148-173 | An unknown endpoint changes nothing and returns false. A new edge that keeps the graph acyclic is appended, with both counters and `E` raised. Otherwise the insertion is rolled back and `E` is restored. Up-to-date indegrees stay up to date. |
| VariantDag.Graph.GetLongestPath | lowestCommonAncestor/src/lowestCommonAncestor/DirectedAcyclicGraph.java:282-288 | Always the empty list. |
| VariantDag.LastShared | lowestCommonAncestor/src/lowestCommonAncestor/DirectedAcyclicGraph.java:306-319 | The nested backward scans find the last element of the first path that occurs in the second, or none when the paths share nothing. |
| VariantDag.Graph.LCA | lowestCommonAncestor/src/lowestCommonAncestor/DirectedAcyclicGraph.java:298-322 | Fails with a null dereference exactly when the root is null or unknown. Every other call answers null, because the paths it compares are empty. |

## Left out

- Printing and string rendering: `printKeysInOrder`, `prettyPrintKeys`, `Node.toString` and the `println` calls in both graphs' `addEdge` (LowestCommonAncestor/src/lowestCommonAncestor/DirectedAcyclicGraph.java:178 and lowestCommonAncestor/src/lowestCommonAncestor/DirectedAcyclicGraph.java:170) are console output.
- `Dag.Graph.TopologicalSort` returns the keys as a sequence. The source joins them into a space-separated string.
- Dag.Graph.LCA, Dag.Graph.GetPaths: require every ancestor entry to name a live parent that lists the child. After `deleteNode` removes a node with children, those children keep dangling ancestor entries and the source's path search dereferences null. That case is not modelled.
- Dag.Graph.DeleteNode, VariantDag.Graph.DeleteNode: ancestor consistency (main graph) and indegree counts (variant) are proved to survive only the deletion of a node without children. The source never updates a deleted node's children, so for other deletions they go stale. That is the source's behaviour, not a gap in the proof.
- `E` is bounded below by the sum of outdegrees, not equal to it. Deletion does not subtract the stripped incoming edges.
- `LCA` symmetry in the main graph is not claimed. The first longest intersection wins ties, so the answer can depend on argument order.
- Object identity: `==` on keys (`addNode`) and on values (the variant's `isValidNode`) is modelled as value equality.
- Tree nodes are values. The source's in-place field updates and node sharing become the construction of a new tree, and the class reassigns `root`.
- Search-tree keys are integers. The source accepts any `Comparable` key.
- Bst.BinarySearchTree.GetPath: requires a non-empty tree. The source dereferences the null root of an empty tree.
- The depth-first search and the path enumeration carry ghost ranks, used only for termination.
- Bst.BinarySearchTree.Put: with a null value it deletes through the corrected `Delete`, so it removes even the root key. The source's `put(key, null)` calls the public `delete` as written, which leaves a root key in place (see Findings).
- Bst.BinarySearchTree.Delete: models the evidently intended root reassignment. The code as written is `SearchTree.DeleteAsWritten`; see Findings.
- VariantDag.Graph.DeleteFrom: requires the key to be present in the list it strips whenever it is present in the live list. The source checks the live list and then indexes the other. It has two callers, and both meet this. The public `deleteNode` passes the live list itself. `isAcyclic(graph)` passes its copy, with a key it has just taken from that copy.
- VariantDag.Graph.LCA: the source's test expects an answer from it. The stubbed `getLongestPath` makes every guarded call answer null, and the model follows the code.
- The main graph's `E()` and the variant's `E()` are plain field reads of `E`. They are covered by the `E` postconditions of the mutators.

## Findings

| source | as written | input that shows it | evidently intended | confidence | as-written member | corrected member |
|---|---|---|---|---|---|---|
| LowestCommonAncestor/src/lowestCommonAncestor/BinarySearchTree.java:297-299 | `delete(key)` calls `delete(root, key)` and discards the returned subtree, so a root whose replacement is a new node is never replaced | put 2, 1, 3, then delete(2): `get(2)` still returns the value stored under 2. With a predecessor deeper in the left subtree, the predecessor's key is deleted instead and the root's count goes stale. `put(rootKey, null)` behaves the same way. | `root = delete(root, key)` | not executed; follows from the proved lemmas | SearchTree.DeleteAsWritten (DeleteAsWrittenAtRoot, DeleteAsWrittenLosesPredecessor, DeleteRootExample) | Bst.BinarySearchTree.Delete and Bst.BinarySearchTree.Put (SearchTree.DeleteSpec) |
