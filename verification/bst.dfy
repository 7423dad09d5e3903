/**
 * `BinarySearchTree`: a symbol table over a search tree whose root `put` and `delete`
 * replace. `delete`, and `put` with a null value, take the root `delete(root, key)`
 * returns, which the public `delete` as written drops (`SearchTree.DeleteAsWritten`);
 * with that corrected, every public operation keeps the root a search tree with correct
 * counts.
 */
module Bst {
  import opened Wrappers
  import opened Lists
  import opened SearchTree

  class BinarySearchTree<V> {
    var root: Tree<V>

    ghost predicate Valid()
      reads this
    {
      IsBst(root)
    }

    constructor ()
      ensures Valid() && root == Nil
    {
      root := Nil;
    }

    /** `size()`: the number of keys. */
    method Size() returns (s: int)
      requires Valid()
      ensures s == |Keys(root)| == |InOrder(root)|
    {
      KeyCount(root);
      s := SearchTree.Size(root);
    }

    /** `isEmpty()`: whether `size()` is 0. */
    method IsEmpty() returns (b: bool)
      requires Valid()
      ensures b <==> Keys(root) == {}
      ensures b <==> root.Nil?
    {
      var s := Size();
      b := s == 0;
    }

    /** `get(key)`: the value stored under `key`, or null. */
    method Get(key: int) returns (r: Option<V>)
      requires Valid()
      ensures r == if key in Contents(root) then Some(Contents(root)[key]) else None
    {
      GetFinds(root, key);
      r := SearchTree.Get(root, key);
    }

    /** `contains(key)`: `get(key) != null`. */
    method Contains(key: int) returns (b: bool)
      requires Valid()
      ensures b <==> key in Keys(root)
    {
      ContentsKeys(root);
      var v := Get(key);
      b := v.Some?;
    }

    /**
     * `put(key, val)`: a null value deletes the key (through the corrected `Delete`); any
     * other value is stored under `key`, replacing an earlier one.
     */
    method Put(key: int, val: Option<V>)
      requires Valid()
      modifies this
      ensures Valid()
      ensures Contents(root) == if val.Some? then old(Contents(root))[key := val.value] else old(Contents(root)) - {key}
      ensures Keys(root) == if val.Some? then old(Keys(root)) + {key} else old(Keys(root)) - {key}
    {
      if val.None? {
        Delete(key);
        return;
      }
      PutSpec(root, key, val.value);
      root := SearchTree.Put(root, key, val.value);
    }

    /**
     * `height()`: the number of links from the root down to the deepest key, -1 when
     * empty; `getPath` of any key is at most `h + 1` keys long, and of some key exactly.
     */
    method Height() returns (h: int)
      requires Valid()
      ensures -1 <= h < |Keys(root)|
      ensures h == -1 <==> root.Nil?
      ensures forall k :: k in Keys(root) ==> |Trail(root, k)| <= h + 1
      ensures root.Node? ==> exists k :: k in Keys(root) && |Trail(root, k)| == h + 1
    {
      HeightBounds(root);
      HeightDepth(root);
      KeyCount(root);
      h := SearchTree.Height(root);
    }

    /**
     * `median()`: null for an empty tree, otherwise the key at position `(size + 1) / 2`
     * of the sorted keys, with `(size - 1) / 2` keys below it and `size / 2` above.
     */
    method Median() returns (r: Option<int>)
      requires Valid()
      ensures r.None? <==> root.Nil?
      ensures r.Some? ==> r == Some(InOrder(root)[(|InOrder(root)| + 1) / 2 - 1])
      ensures r.Some? ==> r.value in Keys(root) &&
                          |set x | x in Keys(root) && x < r.value| == (|Keys(root)| - 1) / 2 &&
                          |set x | x in Keys(root) && x > r.value| == |Keys(root)| / 2
    {
      var s := Size();
      var empty := IsEmpty();
      if empty {
        return None;
      }
      KeyCount(root);
      SelectInOrder(root, (s + 1) / 2);
      MedianSplits(root);
      r := Select(root, (s + 1) / 2);
    }

    /**
     * `delete(key)`: the key and its value leave the tree; an absent key changes nothing.
     * The root becomes the tree `delete(root, key)` returns.
     */
    method Delete(key: int)
      requires Valid()
      modifies this
      ensures Valid()
      ensures Contents(root) == old(Contents(root)) - {key}
      ensures Keys(root) == old(Keys(root)) - {key}
    {
      DeleteSpec(root, key);
      root := SearchTree.Delete(root, key);
    }

    /**
     * `getPath(root, child, path)`: `node` joins the path; the path is returned once
     * `node` holds `child` or a search of its left, then its right subtree succeeds;
     * otherwise `node` leaves the path again and null is returned.
     */
    method PathFrom(node: Tree<V>, child: int, path: seq<Tree<V>>) returns (found: bool, path': seq<Tree<V>>)
      requires node.Node?
      ensures found <==> child in Keys(node)
      ensures path' == path + Trail(node, child)
      decreases node
    {
      TrailFinds(node, child);
      TrailFinds(node.left, child);
      TrailFinds(node.right, child);
      path' := path + [node];
      if node.key == child {
        return true, path';
      }
      if node.left.Node? {
        found, path' := PathFrom(node.left, child, path');
        if found {
          return;
        }
      }
      if node.right.Node? {
        found, path' := PathFrom(node.right, child, path');
        if found {
          return;
        }
      }
      path' := path'[..|path'| - 1];
      found := false;
    }

    /**
     * `getPath(child)`: the keys from the root down to `child`, or null when `child` is
     * not in the tree; in a search tree this is the comparison path of `child`.
     */
    method GetPath(child: int) returns (r: Option<seq<int>>)
      requires Valid() && root.Node?
      ensures r.Some? <==> child in Keys(root)
      ensures r.Some? ==> r.value == KeysOf(Trail(root, child))
      ensures r.Some? ==> r.value != [] && r.value[0] == root.key && r.value[|r.value| - 1] == child
    {
      var found, nodes := PathFrom(root, child, []);
      if !found {
        return None;
      }
      TrailFinds(root, child);
      var keys: seq<int> := [];
      var i := 0;
      while i < |nodes|
        invariant 0 <= i <= |nodes|
        invariant |keys| == i && forall j :: 0 <= j < i ==> keys[j] == nodes[j].key
      {
        keys := keys + [nodes[i].key];
        i := i + 1;
      }
      r := Some(keys);
    }

    /**
     * `LCA(key1, key2)`: null unless both keys are present; otherwise, of the keys above
     * `key1` on its path that also lie above `key2` on its path, the one whose subtree is
     * lowest, or null when there is none (as when either key is the root). The answer is
     * a proper ancestor of both keys, nearer to them than any other common one.
     */
    method LCA(key1: int, key2: int) returns (r: Option<int>)
      requires Valid()
      ensures r.Some? <==> key1 in Keys(root) && key2 in Keys(root) &&
                           exists c :: c in Above(root, key1) && c in Above(root, key2)
      ensures r.Some? ==> r.value in Above(root, key1) && r.value in Above(root, key2)
      ensures r.Some? ==> r.value != key1 && r.value != key2 && GetNode(root, r.value).Node? &&
                          key1 in Keys(GetNode(root, r.value)) && key2 in Keys(GetNode(root, r.value))
      ensures r.Some? ==> forall c :: c in Above(root, key1) && c in Above(root, key2) && c != r.value ==>
                            SubHeight(root, r.value) < SubHeight(root, c)
    {
      var has1 := Contains(key1);
      var has2 := Contains(key2);
      if !(has1 && has2) {
        return None;
      }
      var path1 := GetPath(key1);
      var p1 := path1.value[..|path1.value| - 1];
      var path2 := GetPath(key2);
      var p2 := path2.value[..|path2.value| - 1];
      assert p1 == Above(root, key1) && p2 == Above(root, key2);
      r := Lowest(root, Intersection(p1, p2));
      LowestCommon(root, key1, key2);
    }
  }
}
