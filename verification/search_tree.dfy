/**
 * The nodes of the binary search tree as values: a key, a value, two subtrees and the
 * count `N` every node keeps of its subtree. The private recursive helpers of
 * `BinarySearchTree` (`size`, `getNode`, `get`, `put`, `height`, `median`, `max`,
 * `deleteMax`, `delete`) are functions on these values, proved against three reference
 * views of a tree: its key set, its key-to-value map and its in-order key sequence.
 * Keys are integers, compared the way `compareTo` compares them.
 */
module SearchTree {
  import opened Wrappers
  import opened Lists

  datatype Tree<V> = Nil | Node(key: int, val: V, left: Tree<V>, right: Tree<V>, n: int)

  // ---------------------------------------------------------------- reference views

  function Keys<V>(t: Tree<V>): set<int> {
    match t
    case Nil => {}
    case Node(k, _, l, r, _) => Keys(l) + {k} + Keys(r)
  }

  /** The key-to-value map a tree stands for. */
  function Contents<V>(t: Tree<V>): map<int, V> {
    match t
    case Nil => map[]
    case Node(k, v, l, r, _) => (Contents(l) + Contents(r))[k := v]
  }

  /** The keys in order: left subtree, node, right subtree. */
  function InOrder<V>(t: Tree<V>): seq<int> {
    match t
    case Nil => []
    case Node(k, _, l, r, _) => InOrder(l) + [k] + InOrder(r)
  }

  /** Every key of a left subtree is smaller, every key of a right subtree larger. */
  ghost predicate Ordered<V>(t: Tree<V>) {
    match t
    case Nil => true
    case Node(k, _, l, r, _) =>
      (forall x :: x in Keys(l) ==> x < k) && (forall x :: x in Keys(r) ==> k < x) &&
      Ordered(l) && Ordered(r)
  }

  /** Every node's count `N` is one more than the counts of its two subtrees. */
  ghost predicate Sized<V>(t: Tree<V>) {
    match t
    case Nil => true
    case Node(_, _, l, r, n) => n == 1 + Size(l) + Size(r) && Sized(l) && Sized(r)
  }

  ghost predicate IsBst<V>(t: Tree<V>) {
    Ordered(t) && Sized(t)
  }

  /** `size(x)`: 0 for null, the stored count otherwise. */
  function Size<V>(t: Tree<V>): int {
    if t.Nil? then 0 else t.n
  }

  /** The stored counts count the keys. */
  lemma {:induction false} SizeCounts<V>(t: Tree<V>)
    requires Sized(t)
    ensures Size(t) == |InOrder(t)| >= 0
  {
    if t.Node? {
      SizeCounts(t.left);
      SizeCounts(t.right);
    }
  }

  /** The in-order sequence holds exactly the keys of the tree. */
  lemma {:induction false} InOrderKeys<V>(t: Tree<V>)
    ensures forall x :: x in InOrder(t) <==> x in Keys(t)
  {
    if t.Node? {
      InOrderKeys(t.left);
      InOrderKeys(t.right);
    }
  }

  /** In an ordered tree the in-order sequence is strictly increasing. */
  lemma {:induction false} InOrderSorted<V>(t: Tree<V>)
    requires Ordered(t)
    ensures forall i, j :: 0 <= i < j < |InOrder(t)| ==> InOrder(t)[i] < InOrder(t)[j]
  {
    if t.Node? {
      var l, r := InOrder(t.left), InOrder(t.right);
      InOrderSorted(t.left);
      InOrderSorted(t.right);
      InOrderKeys(t.left);
      InOrderKeys(t.right);
      var s := InOrder(t);
      assert s == l + [t.key] + r;
      forall i, j | 0 <= i < j < |s| ensures s[i] < s[j] {
        if i < |l| {
          assert s[i] == l[i] && s[i] in Keys(t.left);
        } else if i > |l| {
          assert s[i] == r[i - |l| - 1] && s[j] == r[j - |l| - 1];
        }
        if j > |l| {
          assert s[j] == r[j - |l| - 1] && s[j] in Keys(t.right);
        } else if j < |l| {
          assert s[j] == l[j];
        }
      }
    }
  }

  /** A search tree has as many keys as its root counts. */
  lemma KeyCount<V>(t: Tree<V>)
    requires IsBst(t)
    ensures |Keys(t)| == Size(t) == |InOrder(t)|
  {
    SizeCounts(t);
    InOrderSorted(t);
    InOrderKeys(t);
    SortedElements(InOrder(t));
    forall x ensures x in Elements(InOrder(t)) <==> x in Keys(t) {
    }
    assert Elements(InOrder(t)) == Keys(t);
  }

  /** The map of a tree has the tree's keys. */
  lemma {:induction false} ContentsKeys<V>(t: Tree<V>)
    ensures Contents(t).Keys == Keys(t)
  {
    if t.Node? {
      ContentsKeys(t.left);
      ContentsKeys(t.right);
    }
  }

  // ---------------------------------------------------------------- search

  /** `getNode(root, key)`: follow the comparisons down to the node holding `key`, or null. */
  function GetNode<V>(t: Tree<V>, key: int): (r: Tree<V>)
    ensures r.Node? ==> r.key == key
  {
    match t
    case Nil => Nil
    case Node(k, _, l, rt, _) =>
      if key < k then GetNode(l, key)
      else if key > k then GetNode(rt, key)
      else t
  }

  /** `get(root, key)`: the value of the node `getNode` finds, or null. */
  function Get<V>(t: Tree<V>, key: int): Option<V> {
    var node := GetNode(t, key);
    if node.Nil? then None else Some(node.val)
  }

  /**
   * In an ordered tree the search finds a node exactly for the keys of the tree, with the
   * value the tree maps the key to, and the node found is the whole subtree under it.
   */
  lemma {:induction false} GetFinds<V>(t: Tree<V>, key: int)
    requires Ordered(t)
    ensures GetNode(t, key).Node? <==> key in Keys(t)
    ensures Get(t, key) == if key in Contents(t) then Some(Contents(t)[key]) else None
    ensures Keys(GetNode(t, key)) <= Keys(t)
  {
    ContentsKeys(t);
    if t.Node? {
      ContentsKeys(t.left);
      ContentsKeys(t.right);
      if key < t.key {
        GetFinds(t.left, key);
      } else if key > t.key {
        GetFinds(t.right, key);
      }
    }
  }

  // ---------------------------------------------------------------- insertion

  /**
   * `put(x, key, val)`: a new node of count 1 in place of null, the value replaced at an
   * equal key, and the count recomputed on the way back up.
   */
  function Put<V>(t: Tree<V>, key: int, val: V): (r: Tree<V>)
    ensures r.Node?
  {
    match t
    case Nil => Node(key, val, Nil, Nil, 1)
    case Node(k, v, l, rt, _) =>
      if key < k then
        var l' := Put(l, key, val);
        Node(k, v, l', rt, 1 + Size(l') + Size(rt))
      else if key > k then
        var rt' := Put(rt, key, val);
        Node(k, v, l, rt', 1 + Size(l) + Size(rt'))
      else
        Node(k, val, l, rt, 1 + Size(l) + Size(rt))
  }

  /**
   * Insertion keeps a search tree a search tree, maps `key` to `val` and leaves every
   * other key alone; the size grows by one exactly when the key is new.
   */
  lemma PutSpec<V>(t: Tree<V>, key: int, val: V)
    requires IsBst(t)
    ensures IsBst(Put(t, key, val))
    ensures Keys(Put(t, key, val)) == Keys(t) + {key}
    ensures Contents(Put(t, key, val)) == Contents(t)[key := val]
    ensures Size(Put(t, key, val)) == Size(t) + if key in Keys(t) then 0 else 1
  {
    PutKeys(t, key, val);
    PutOrdered(t, key, val);
    PutSized(t, key, val);
    PutContents(t, key, val);
  }

  lemma {:induction false} PutKeys<V>(t: Tree<V>, key: int, val: V)
    ensures Keys(Put(t, key, val)) == Keys(t) + {key}
  {
    if t.Node? {
      if key < t.key {
        PutKeys(t.left, key, val);
      } else if key > t.key {
        PutKeys(t.right, key, val);
      }
    }
  }

  lemma {:induction false} PutOrdered<V>(t: Tree<V>, key: int, val: V)
    requires Ordered(t)
    ensures Ordered(Put(t, key, val))
  {
    if t.Node? {
      if key < t.key {
        PutKeys(t.left, key, val);
        PutOrdered(t.left, key, val);
      } else if key > t.key {
        PutKeys(t.right, key, val);
        PutOrdered(t.right, key, val);
      }
    }
  }

  lemma {:induction false} PutSized<V>(t: Tree<V>, key: int, val: V)
    requires IsBst(t)
    ensures Sized(Put(t, key, val))
    ensures Size(Put(t, key, val)) == Size(t) + if key in Keys(t) then 0 else 1
  {
    if t.Node? {
      if key < t.key {
        PutSized(t.left, key, val);
      } else if key > t.key {
        PutSized(t.right, key, val);
      }
    }
  }

  lemma {:induction false} PutContents<V>(t: Tree<V>, key: int, val: V)
    requires Ordered(t)
    ensures Contents(Put(t, key, val)) == Contents(t)[key := val]
  {
    if t.Node? {
      var cl, cr := Contents(t.left), Contents(t.right);
      if key < t.key {
        PutContents(t.left, key, val);
        ContentsKeys(t.right);
        UpdateLeft(cl, cr, key, val, t.key, t.val);
      } else if key > t.key {
        PutContents(t.right, key, val);
        UpdateRight(cl, cr, key, val, t.key, t.val);
      }
    }
  }

  /** An update in the left operand of a union, under a later update elsewhere. */
  lemma UpdateLeft<V>(a: map<int, V>, b: map<int, V>, x: int, y: V, k: int, v: V)
    requires x !in b && x != k
    ensures (a[x := y] + b)[k := v] == ((a + b)[k := v])[x := y]
  {
  }

  /** An update in the right operand of a union, under a later update elsewhere. */
  lemma UpdateRight<V>(a: map<int, V>, b: map<int, V>, x: int, y: V, k: int, v: V)
    requires x != k
    ensures (a + b[x := y])[k := v] == ((a + b)[k := v])[x := y]
  {
  }

  // ---------------------------------------------------------------- height

  /** `height(node)`: -1 for null, one more than the higher subtree otherwise. */
  function Height<V>(t: Tree<V>): int {
    match t
    case Nil => -1
    case Node(_, _, l, r, _) =>
      var lh, rh := Height(l), Height(r);
      (if lh >= rh then lh else rh) + 1
  }

  /**
   * The height counts the links down to the deepest leaf: -1 exactly for the empty tree,
   * below the number of keys, and above the height of either subtree.
   */
  lemma {:induction false} HeightBounds<V>(t: Tree<V>)
    requires Sized(t)
    ensures -1 <= Height(t) < Size(t)
    ensures Height(t) == -1 <==> t.Nil?
    ensures t.Node? ==> Height(t.left) < Height(t) && Height(t.right) < Height(t)
  {
    if t.Node? {
      HeightBounds(t.left);
      HeightBounds(t.right);
    }
  }

  /** `Integer.compare(a, b)`. */
  function Compare(a: int, b: int): (r: int)
    ensures r < 0 <==> a < b
    ensures r == 0 <==> a == b
    ensures r > 0 <==> a > b
  {
    if a < b then -1 else if a == b then 0 else 1
  }

  /** The height of the subtree under the node holding `key` (-1 when there is none). */
  function SubHeight<V>(t: Tree<V>, key: int): int {
    Height(GetNode(t, key))
  }

  /** `compareHeights(key1, key2)`: the heights of the two keys' subtrees compared. */
  function CompareHeights<V>(t: Tree<V>, key1: int, key2: int): (r: int)
    ensures r <= 0 <==> SubHeight(t, key1) <= SubHeight(t, key2)
  {
    Compare(Height(GetNode(t, key1)), Height(GetNode(t, key2)))
  }

  // ---------------------------------------------------------------- median

  /**
   * `median(node, positionWanted)`: the key at 1-based position `pos` of the in-order
   * sequence, steering by the left subtree's count, or null when it runs off the tree.
   */
  function Select<V>(t: Tree<V>, pos: int): Option<int> {
    match t
    case Nil => None
    case Node(k, _, l, r, _) =>
      var leftCount := Size(l);
      if leftCount + 1 == pos then Some(k)
      else if leftCount >= pos then Select(l, pos)
      else if r.Nil? then None
      else Select(r, pos - (leftCount + 1))
  }

  /** The selection finds the key at that position of the in-order sequence, and nothing outside it. */
  lemma {:induction false} SelectInOrder<V>(t: Tree<V>, pos: int)
    requires Sized(t)
    ensures Select(t, pos) == if 1 <= pos <= |InOrder(t)| then Some(InOrder(t)[pos - 1]) else None
  {
    SizeCounts(t);
    if t.Node? {
      var l, r := InOrder(t.left), InOrder(t.right);
      SizeCounts(t.left);
      SizeCounts(t.right);
      assert InOrder(t) == l + [t.key] + r;
      if |l| + 1 == pos {
      } else if |l| >= pos {
        SelectInOrder(t.left, pos);
      } else if t.right.Nil? {
      } else {
        SelectInOrder(t.right, pos - (|l| + 1));
      }
    }
  }

  /**
   * The key `median()` returns for a non-empty tree: position `(size + 1) / 2` of the
   * in-order sequence, so that in an ordered tree exactly `(size - 1) / 2` keys are
   * smaller and `size / 2` larger.
   */
  lemma MedianSplits<V>(t: Tree<V>)
    requires IsBst(t) && t.Node?
    ensures Select(t, (Size(t) + 1) / 2).Some?
    ensures var m := Select(t, (Size(t) + 1) / 2).value;
            m in Keys(t) &&
            |set x | x in Keys(t) && x < m| == (Size(t) - 1) / 2 &&
            |set x | x in Keys(t) && x > m| == Size(t) / 2
  {
    SizeCounts(t);
    var s := InOrder(t);
    var p := (Size(t) + 1) / 2 - 1;
    SelectInOrder(t, p + 1);
    InOrderSorted(t);
    InOrderKeys(t);
    var m := s[p];
    SortedSplit(s, p);
    assert (set x | x in Keys(t) && x < m) == (set x | x in s && x < m);
    assert (set x | x in Keys(t) && x > m) == (set x | x in s && x > m);
  }

  /** In a strictly increasing sequence, `p` entries lie below position `p` and the rest above it. */
  lemma SortedSplit(s: seq<int>, p: nat)
    requires p < |s| && forall i, j :: 0 <= i < j < |s| ==> s[i] < s[j]
    ensures |set x | x in s && x < s[p]| == p
    ensures |set x | x in s && x > s[p]| == |s| - p - 1
  {
    CountBelow(s, p);
    CountAbove(s, p);
  }

  lemma CountBelow(s: seq<int>, p: nat)
    requires p < |s| && forall i, j :: 0 <= i < j < |s| ==> s[i] < s[j]
    ensures |set x | x in s && x < s[p]| == p
  {
    var below := s[..p];
    forall x | x in s && x < s[p] ensures x in below {
      var i :| 0 <= i < |s| && s[i] == x;
      assert below[i] == x;
    }
    assert (set x | x in s && x < s[p]) == Elements(below);
    SortedElements(below);
  }

  lemma CountAbove(s: seq<int>, p: nat)
    requires p < |s| && forall i, j :: 0 <= i < j < |s| ==> s[i] < s[j]
    ensures |set x | x in s && x > s[p]| == |s| - p - 1
  {
    var above := s[p + 1..];
    forall x | x in s && x > s[p] ensures x in above {
      var i :| 0 <= i < |s| && s[i] == x;
      assert above[i - p - 1] == x;
    }
    assert (set x | x in s && x > s[p]) == Elements(above);
    SortedElements(above);
  }

  function Elements(s: seq<int>): set<int> {
    set x | x in s
  }

  /** A strictly increasing sequence has as many elements as entries. */
  lemma {:induction false} SortedElements(s: seq<int>)
    requires forall i, j :: 0 <= i < j < |s| ==> s[i] < s[j]
    ensures |Elements(s)| == |s|
  {
    if s != [] {
      var init := s[..|s| - 1];
      SortedElements(init);
      assert Elements(s) == Elements(init) + {s[|s| - 1]};
      assert s[|s| - 1] !in Elements(init);
    }
  }

  // ---------------------------------------------------------------- deletion

  /** `max(node)`: the rightmost node. */
  function Max<V>(t: Tree<V>): (m: Tree<V>)
    requires t.Node?
    ensures m.Node?
  {
    if t.right.Nil? then t else Max(t.right)
  }

  /** In an ordered tree the rightmost node holds the largest key, with its value. */
  lemma {:induction false} MaxSpec<V>(t: Tree<V>)
    requires Ordered(t) && t.Node?
    ensures Max(t).key in Keys(t) && forall x :: x in Keys(t) ==> x <= Max(t).key
    ensures Max(t).key in Contents(t) && Contents(t)[Max(t).key] == Max(t).val
  {
    ContentsKeys(t);
    if t.right.Node? {
      MaxSpec(t.right);
      ContentsKeys(t.right);
    }
  }

  /** `deleteMax(node)`: the rightmost node replaced by its left subtree, counts recomputed. */
  function DeleteMax<V>(t: Tree<V>): Tree<V>
    requires t.Node?
  {
    if t.right.Nil? then t.left
    else
      var r' := DeleteMax(t.right);
      Node(t.key, t.val, t.left, r', 1 + Size(r') + Size(t.left))
  }

  /** Removing the maximum keeps a search tree and drops exactly the largest key. */
  lemma DeleteMaxSpec<V>(t: Tree<V>)
    requires IsBst(t) && t.Node?
    ensures IsBst(DeleteMax(t))
    ensures Keys(DeleteMax(t)) == Keys(t) - {Max(t).key}
    ensures Contents(DeleteMax(t)) == Contents(t) - {Max(t).key}
    ensures Size(DeleteMax(t)) == Size(t) - 1
  {
    DeleteMaxKeys(t);
    DeleteMaxSized(t);
    DeleteMaxContents(t);
  }

  lemma {:induction false} DeleteMaxKeys<V>(t: Tree<V>)
    requires Ordered(t) && t.Node?
    ensures Keys(DeleteMax(t)) == Keys(t) - {Max(t).key}
    ensures Ordered(DeleteMax(t))
  {
    if t.right.Node? {
      DeleteMaxKeys(t.right);
      MaxSpec(t.right);
    }
  }

  lemma {:induction false} DeleteMaxSized<V>(t: Tree<V>)
    requires Sized(t) && t.Node?
    ensures Sized(DeleteMax(t)) && Size(DeleteMax(t)) == Size(t) - 1
  {
    if t.right.Node? {
      DeleteMaxSized(t.right);
    }
  }

  lemma {:induction false} DeleteMaxContents<V>(t: Tree<V>)
    requires Ordered(t) && t.Node?
    ensures Contents(DeleteMax(t)) == Contents(t) - {Max(t).key}
  {
    ContentsKeys(t.left);
    ContentsKeys(t.right);
    if t.right.Node? {
      DeleteMaxContents(t.right);
      MaxSpec(t.right);
      RemoveRight(Contents(t.left), Contents(t.right), Max(t).key, t.key, t.val);
    } else {
      assert Contents(t.right) == map[];
      assert Contents(t) == Contents(t.left)[t.key := t.val];
    }
  }

  /** A removal from the left operand of a union, under a later update elsewhere. */
  lemma RemoveLeft<V>(a: map<int, V>, b: map<int, V>, x: int, k: int, v: V)
    requires x !in b && x != k
    ensures ((a - {x}) + b)[k := v] == ((a + b)[k := v]) - {x}
  {
  }

  /** A removal from the right operand of a union, under a later update elsewhere. */
  lemma RemoveRight<V>(a: map<int, V>, b: map<int, V>, x: int, k: int, v: V)
    requires x !in a && x != k
    ensures (a + (b - {x}))[k := v] == ((a + b)[k := v]) - {x}
  {
  }

  /** The predecessor `x` of the removed root `k` takes its place. */
  lemma ReplaceRoot<V>(a: map<int, V>, b: map<int, V>, k: int, v: V, x: int)
    requires k !in a && k !in b && x in a && x !in b
    ensures ((a - {x}) + b)[x := a[x]] == ((a + b)[k := v]) - {k}
  {
  }

  /**
   * `delete(node, key)`: search for `key`; a node with one subtree missing is replaced by
   * the other, a node with two by its in-order predecessor (`max` of the left subtree),
   * which leaves the left subtree through `deleteMax`; counts are recomputed on the way up.
   */
  function Delete<V>(t: Tree<V>, key: int): Tree<V> {
    match t
    case Nil => Nil
    case Node(k, v, l, r, _) =>
      if key < k then
        var l' := Delete(l, key);
        Node(k, v, l', r, Size(l') + Size(r) + 1)
      else if key > k then
        var r' := Delete(r, key);
        Node(k, v, l, r', Size(l) + Size(r') + 1)
      else if r.Nil? then l
      else if l.Nil? then r
      else
        var m := Max(l);
        var l' := DeleteMax(l);
        Node(m.key, m.val, l', r, Size(l') + Size(r) + 1)
  }

  /** Deletion keeps a search tree and drops exactly `key`; deleting an absent key changes nothing. */
  lemma DeleteSpec<V>(t: Tree<V>, key: int)
    requires IsBst(t)
    ensures IsBst(Delete(t, key))
    ensures Keys(Delete(t, key)) == Keys(t) - {key}
    ensures Contents(Delete(t, key)) == Contents(t) - {key}
    ensures Size(Delete(t, key)) == Size(t) - if key in Keys(t) then 1 else 0
  {
    DeleteKeys(t, key);
    DeleteOrdered(t, key);
    DeleteSized(t, key);
    DeleteContents(t, key);
  }

  lemma {:induction false} DeleteKeys<V>(t: Tree<V>, key: int)
    requires Ordered(t)
    ensures Keys(Delete(t, key)) == Keys(t) - {key}
  {
    if t.Node? {
      if key < t.key {
        DeleteKeys(t.left, key);
      } else if key > t.key {
        DeleteKeys(t.right, key);
      } else if t.left.Node? && t.right.Node? {
        DeleteMaxKeys(t.left);
        MaxSpec(t.left);
      }
    }
  }

  lemma {:induction false} DeleteOrdered<V>(t: Tree<V>, key: int)
    requires Ordered(t)
    ensures Ordered(Delete(t, key))
  {
    if t.Node? {
      if key < t.key {
        DeleteKeys(t.left, key);
        DeleteOrdered(t.left, key);
      } else if key > t.key {
        DeleteKeys(t.right, key);
        DeleteOrdered(t.right, key);
      } else if t.left.Node? && t.right.Node? {
        var m := Max(t.left);
        DeleteMaxKeys(t.left);
        MaxSpec(t.left);
        assert forall x :: x in Keys(DeleteMax(t.left)) ==> x < m.key;
        assert forall x :: x in Keys(t.right) ==> m.key < x;
      }
    }
  }

  lemma {:induction false} DeleteSized<V>(t: Tree<V>, key: int)
    requires IsBst(t)
    ensures Sized(Delete(t, key))
    ensures Size(Delete(t, key)) == Size(t) - if key in Keys(t) then 1 else 0
  {
    if t.Node? {
      if key < t.key {
        DeleteSized(t.left, key);
      } else if key > t.key {
        DeleteSized(t.right, key);
      } else if t.left.Node? && t.right.Node? {
        DeleteMaxSized(t.left);
      }
    }
  }

  lemma {:induction false} DeleteContents<V>(t: Tree<V>, key: int)
    requires Ordered(t)
    ensures Contents(Delete(t, key)) == Contents(t) - {key}
  {
    if t.Node? {
      var cl, cr := Contents(t.left), Contents(t.right);
      ContentsKeys(t.left);
      ContentsKeys(t.right);
      if key < t.key {
        DeleteContents(t.left, key);
        RemoveLeft(cl, cr, key, t.key, t.val);
      } else if key > t.key {
        DeleteContents(t.right, key);
        RemoveRight(cl, cr, key, t.key, t.val);
      } else {
        DeleteRootContents(t);
      }
    }
  }

  /** Deleting the key at the root of an ordered tree drops exactly that key from the map. */
  lemma DeleteRootContents<V>(t: Tree<V>)
    requires Ordered(t) && t.Node?
    ensures Contents(Delete(t, t.key)) == Contents(t) - {t.key}
  {
    var cl, cr := Contents(t.left), Contents(t.right);
    ContentsKeys(t.left);
    ContentsKeys(t.right);
    if t.right.Nil? {
      assert Delete(t, t.key) == t.left;
      assert Contents(t) - {t.key} == cl;
    } else if t.left.Nil? {
      assert Delete(t, t.key) == t.right;
      assert Contents(t) - {t.key} == cr;
    } else {
      PredecessorContents(t);
    }
  }

  lemma PredecessorContents<V>(t: Tree<V>)
    requires Ordered(t) && t.Node? && t.left.Node? && t.right.Node?
    ensures Contents(Delete(t, t.key)) == Contents(t) - {t.key}
  {
    var cl, cr := Contents(t.left), Contents(t.right);
    ContentsKeys(t.left);
    ContentsKeys(t.right);
    var m := Max(t.left);
    var l' := DeleteMax(t.left);
    var d := Node(m.key, m.val, l', t.right, Size(l') + Size(t.right) + 1);
    assert Delete(t, t.key) == d;
    assert Contents(d) == (Contents(l') + cr)[m.key := m.val];
    DeleteMaxContents(t.left);
    MaxSpec(t.left);
    ReplaceRoot(cl, cr, t.key, t.val, m.key);
  }

  /**
   * What the public `delete(key)` leaves as the root, which calls `delete(root, key)` and
   * drops its result. Below the root the in-place updates take effect. At the root an
   * answer other than the root itself is lost: with a subtree missing nothing changes;
   * with two, the left subtree loses its maximum (or, when the left child is that
   * maximum, the left child takes the root's right subtree as its own), and the root
   * keeps its key and its stale count.
   */
  function DeleteAsWritten<V>(t: Tree<V>, key: int): Tree<V> {
    match t
    case Nil => Nil
    case Node(k, v, l, r, n) =>
      if key != k then Delete(t, key)
      else if r.Nil? || l.Nil? then t
      else if l.right.Nil? then Node(k, v, Node(l.key, l.val, l.left, r, Size(l.left) + Size(r) + 1), r, n)
      else Node(k, v, DeleteMax(l), r, n)
  }

  /** Below the root, the public `delete` deletes. */
  lemma DeleteAsWrittenBelowRoot<V>(t: Tree<V>, key: int)
    requires IsBst(t) && (t.Nil? || key != t.key)
    ensures DeleteAsWritten(t, key) == Delete(t, key)
    ensures key !in Keys(DeleteAsWritten(t, key))
  {
    DeleteSpec(t, key);
  }

  /**
   * At the root, the public `delete` leaves the key in place: the search still finds it
   * with its old value. When the left child is the predecessor and the right subtree is
   * not empty, the tree moreover loses its order.
   */
  lemma DeleteAsWrittenAtRoot<V>(t: Tree<V>)
    requires IsBst(t) && t.Node?
    ensures Get(DeleteAsWritten(t, t.key), t.key) == Some(t.val)
    ensures t.left.Node? && t.left.right.Nil? && t.right.Node? ==> !Ordered(DeleteAsWritten(t, t.key))
  {
    var d := DeleteAsWritten(t, t.key);
    if t.left.Node? && t.left.right.Nil? && t.right.Node? {
      assert t.right.key in Keys(d.left);
    }
  }

  /**
   * When the predecessor lies deeper in the left subtree, the public `delete` of the root
   * key deletes the predecessor instead, and the root keeps its old count, one too high.
   */
  lemma DeleteAsWrittenLosesPredecessor<V>(t: Tree<V>)
    requires IsBst(t) && t.Node? && t.left.Node? && t.left.right.Node? && t.right.Node?
    ensures Keys(DeleteAsWritten(t, t.key)) == Keys(t) - {Max(t.left).key}
    ensures Max(t.left).key != t.key
    ensures !Sized(DeleteAsWritten(t, t.key))
  {
    MaxSpec(t.left);
    DeleteMaxSpec(t.left);
  }

  /** The smallest such tree: keys 2, 1 and 3 put in that order, then `delete(2)`. */
  lemma DeleteRootExample()
    ensures var t := Put(Put(Put(Nil, 2, 'B'), 1, 'A'), 3, 'C');
            t.key == 2 && Get(DeleteAsWritten(t, 2), 2) == Some('B') && Get(Delete(t, 2), 2) == None
  {
  }

  // ---------------------------------------------------------------- paths

  /**
   * The node list `getPath(root, child, path)` leaves behind: the nodes from `t` down to
   * the first node holding `child` in a search that tries the left subtree before the
   * right one, or nothing when no node holds `child`.
   */
  function Trail<V>(t: Tree<V>, child: int): (p: seq<Tree<V>>)
    ensures forall i :: 0 <= i < |p| ==> p[i].Node?
  {
    match t
    case Nil => []
    case Node(k, _, l, r, _) =>
      if k == child then [t]
      else if Trail(l, child) != [] then [t] + Trail(l, child)
      else if Trail(r, child) != [] then [t] + Trail(r, child)
      else []
  }

  /** A walk from `t` down child links to a node holding `child`. */
  ghost predicate Descends<V>(t: Tree<V>, child: int, p: seq<Tree<V>>) {
    p != [] && p[0] == t && (forall i :: 0 <= i < |p| ==> p[i].Node?) && p[|p| - 1].key == child &&
    forall i :: 0 <= i < |p| - 1 ==> p[i + 1] == p[i].left || p[i + 1] == p[i].right
  }

  /**
   * The search finds a path exactly when the key is in the tree, and the path descends
   * from the root to it.
   */
  lemma {:induction false} TrailFinds<V>(t: Tree<V>, child: int)
    ensures Trail(t, child) != [] <==> child in Keys(t)
    ensures Trail(t, child) != [] ==> Descends(t, child, Trail(t, child))
  {
    if t.Node? {
      TrailFinds(t.left, child);
      TrailFinds(t.right, child);
    }
  }

  /**
   * In an ordered tree the path is the search path: it steps left exactly where `child`
   * is smaller than the node's key, and every node before the last holds another key.
   */
  lemma {:induction false} TrailSearches<V>(t: Tree<V>, child: int)
    requires Ordered(t) && child in Keys(t)
    ensures var p := Trail(t, child);
            forall i :: 0 <= i < |p| - 1 ==>
              p[i].Node? && p[i].key != child && p[i + 1] == if child < p[i].key then p[i].left else p[i].right
  {
    var p := Trail(t, child);
    if t.key != child {
      TrailFinds(t.left, child);
      TrailFinds(t.right, child);
      var sub := if child < t.key then t.left else t.right;
      assert p == [t] + Trail(sub, child);
      TrailSearches(sub, child);
    }
  }

  /** The keys along a list of nodes. */
  function KeysOf<V>(p: seq<Tree<V>>): (ks: seq<int>)
    requires forall i :: 0 <= i < |p| ==> p[i].Node?
    ensures |ks| == |p| && forall i :: 0 <= i < |p| ==> ks[i] == p[i].key
  {
    seq(|p|, i requires 0 <= i < |p| => p[i].key)
  }

  /** The keys strictly above `child` on its path: `getPath(child)` without its last entry. */
  function Above<V>(t: Tree<V>, child: int): seq<int> {
    var p := Trail(t, child);
    TrailFinds(t, child);
    if p == [] then [] else KeysOf(p)[..|p| - 1]
  }

  /**
   * In an ordered tree every key above `child` on its path is a proper ancestor: its node
   * holds `child` in its subtree, below itself.
   */
  lemma AboveAncestors<V>(t: Tree<V>, child: int, a: int)
    requires Ordered(t) && a in Above(t, child)
    ensures a != child && GetNode(t, a).Node? && child in Keys(GetNode(t, a))
  {
    var p := Trail(t, child);
    TrailFinds(t, child);
    var ks := KeysOf(p);
    var i :| 0 <= i < |p| - 1 && ks[i] == a;
    TrailSearches(t, child);
    TrailNode(t, child, i);
  }

  /**
   * The height is the number of links on the longest root-to-key path: no key lies deeper,
   * and in an ordered tree some key lies exactly that deep.
   */
  lemma {:induction false} HeightDepth<V>(t: Tree<V>)
    ensures forall k :: k in Keys(t) ==> |Trail(t, k)| <= Height(t) + 1
    ensures Ordered(t) && t.Node? ==> exists k :: k in Keys(t) && |Trail(t, k)| == Height(t) + 1
  {
    if t.Node? {
      HeightDepth(t.left);
      HeightDepth(t.right);
      forall k | k in Keys(t) ensures |Trail(t, k)| <= Height(t) + 1 {
        TrailFinds(t.left, k);
        TrailFinds(t.right, k);
      }
      if Ordered(t) {
        if t.left.Nil? && t.right.Nil? {
          assert |Trail(t, t.key)| == Height(t) + 1;
        } else if Height(t.left) >= Height(t.right) {
          var k :| k in Keys(t.left) && |Trail(t.left, k)| == Height(t.left) + 1;
          TrailFinds(t.left, k);
          assert Trail(t, k) == [t] + Trail(t.left, k);
        } else {
          var k :| k in Keys(t.right) && |Trail(t.right, k)| == Height(t.right) + 1;
          TrailFinds(t.left, k);
          TrailFinds(t.right, k);
          assert Trail(t, k) == [t] + Trail(t.right, k);
        }
      }
    }
  }

  /** Each node on the path of an ordered tree is what the search for its key finds, and holds `child` below it. */
  lemma {:induction false} TrailNode<V>(t: Tree<V>, child: int, i: nat)
    requires Ordered(t) && i < |Trail(t, child)|
    ensures Trail(t, child)[i].Node? && GetNode(t, Trail(t, child)[i].key) == Trail(t, child)[i]
    ensures child in Keys(Trail(t, child)[i])
  {
    var p := Trail(t, child);
    TrailFinds(t, child);
    if i > 0 {
      TrailFinds(t.left, child);
      TrailFinds(t.right, child);
      var sub := if Trail(t.left, child) != [] then t.left else t.right;
      assert p == [t] + Trail(sub, child);
      TrailNode(sub, child, i - 1);
      assert p[i] == Trail(sub, child)[i - 1];
      GetFinds(sub, p[i].key);
      assert p[i].key in Keys(sub);
    }
  }

  /**
   * Subtree heights strictly decrease down the path of an ordered tree, so of two keys
   * above `child` the one nearer to it has the lower subtree.
   */
  lemma AboveHeights<V>(t: Tree<V>, child: int, i: nat, j: nat)
    requires Ordered(t) && i < j < |Above(t, child)|
    ensures SubHeight(t, Above(t, child)[j]) < SubHeight(t, Above(t, child)[i])
  {
    var p := Trail(t, child);
    TrailFinds(t, child);
    TrailNode(t, child, i);
    TrailNode(t, child, j);
    DescendsLower(t, child, p, i, j);
  }

  lemma {:induction false} DescendsLower<V>(t: Tree<V>, child: int, p: seq<Tree<V>>, i: nat, j: nat)
    requires Descends(t, child, p) && i < j < |p|
    ensures Height(p[j]) < Height(p[i])
    decreases j - i
  {
    assert p[i + 1] == p[i].left || p[i + 1] == p[i].right;
    if i + 1 < j {
      DescendsLower(t, child, p, i + 1, j);
    }
  }

  // ---------------------------------------------------------------- lowest common ancestor

  /**
   * `min(this::compareHeights)` over an ordered stream, from a running minimum `acc`: the
   * minimum is replaced only by a key whose subtree is strictly lower, so the first of
   * equally high keys wins.
   */
  function MinByHeight<V>(t: Tree<V>, acc: int, rest: seq<int>): (r: int)
    ensures r == acc || r in rest
    ensures SubHeight(t, r) <= SubHeight(t, acc)
    ensures forall x :: x in rest ==> SubHeight(t, r) <= SubHeight(t, x)
    decreases |rest|
  {
    if rest == [] then acc
    else MinByHeight(t, if CompareHeights(t, acc, rest[0]) <= 0 then acc else rest[0], rest[1..])
  }

  /** The minimum of a stream of keys by subtree height, or null for an empty stream. */
  function Lowest<V>(t: Tree<V>, xs: seq<int>): (r: Option<int>)
    ensures r.None? <==> xs == []
    ensures r.Some? ==> r.value in xs && forall x :: x in xs ==> SubHeight(t, r.value) <= SubHeight(t, x)
  {
    if xs == [] then None else Some(MinByHeight(t, xs[0], xs[1..]))
  }

  /**
   * The lowest of the keys above both `key1` and `key2` is a proper ancestor of both, and
   * its subtree is strictly lower than that of any other key above both.
   */
  lemma LowestCommon<V>(t: Tree<V>, key1: int, key2: int)
    requires Ordered(t)
    ensures var r := Lowest(t, Intersection(Above(t, key1), Above(t, key2)));
            r.Some? ==>
              r.value != key1 && r.value != key2 && GetNode(t, r.value).Node? &&
              key1 in Keys(GetNode(t, r.value)) && key2 in Keys(GetNode(t, r.value)) &&
              forall c :: c in Above(t, key1) && c in Above(t, key2) && c != r.value ==>
                SubHeight(t, r.value) < SubHeight(t, c)
  {
    var p1, p2 := Above(t, key1), Above(t, key2);
    var r := Lowest(t, Intersection(p1, p2));
    if r.Some? {
      AboveAncestors(t, key1, r.value);
      AboveAncestors(t, key2, r.value);
      forall c | c in p1 && c in p2 && c != r.value
        ensures SubHeight(t, r.value) < SubHeight(t, c)
      {
        assert c in Intersection(p1, p2);
        AboveDistinctHeights(t, key1, c, r.value);
      }
    }
  }

  /** Two different keys above `child` have subtrees of different heights. */
  lemma AboveDistinctHeights<V>(t: Tree<V>, child: int, a: int, b: int)
    requires Ordered(t) && a in Above(t, child) && b in Above(t, child) && a != b
    ensures SubHeight(t, a) != SubHeight(t, b)
  {
    var p := Above(t, child);
    var i :| 0 <= i < |p| && p[i] == a;
    var j :| 0 <= j < |p| && p[j] == b;
    if i < j {
      AboveHeights(t, child, i, j);
    } else {
      AboveHeights(t, child, j, i);
    }
  }
}
