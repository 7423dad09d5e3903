/**
 * The upward paths that `getPaths(srcKey)` enumerates in the multi-parent graph: from a
 * node through one of its ancestor entries at a time, up to a node without ancestors.
 * `Chains` lists them in the order the recursion of `buildPaths` and
 * `buildAncestorsPaths` produces them; `IsChain` says what one of them is. The two agree.
 */
module PathEnumerator {
  import opened Wrappers
  import opened Lists
  import opened DagNodes
  import opened CycleGuard
  import opened GraphInvariants

  /**
   * `rank` bounds a walk up the ancestor lists: every key is ranked below `|g|`, and every
   * ancestor entry names a live key ranked above the child.
   */
  ghost predicate Climbs<K(!new), V>(g: seq<Node<K, V>>, rank: map<K, nat>) {
    (forall k :: k in Keys(g) ==> k in rank && rank[k] < |g|) &&
    forall k, a :: k in Keys(g) && a in NodeOf(g, k).ancestors ==> a in Keys(g) && rank[k] < rank[a]
  }

  /** One step up an ancestor entry. */
  lemma Climb<K(!new), V>(g: seq<Node<K, V>>, rank: map<K, nat>, k: K, a: K)
    requires Climbs(g, rank) && k in Keys(g) && a in NodeOf(g, k).ancestors
    ensures a in Keys(g) && k in rank && a in rank && rank[k] < rank[a] < |g|
  {
  }

  /**
   * In a sound graph whose ancestor entries are consistent, the rounds of leaf removal a
   * node survives rank it: an ancestor outlives each of its children.
   */
  ghost function Heights<K(!new), V>(g: seq<Node<K, V>>): (rank: map<K, nat>)
    requires Sound(g) && AncestorsConsistent(g)
    ensures Climbs(g, rank)
  {
    LeafRemovalDecides(g);
    var rank := RemovalRanks(g);
    HeightsClimb(g, rank);
    rank
  }

  lemma HeightsClimb<K(!new), V>(g: seq<Node<K, V>>, rank: map<K, nat>)
    requires AncestorsConsistent(g) && Ranks(g, rank)
    requires forall k :: k in rank <==> k in Keys(g)
    requires forall k :: k in rank ==> rank[k] < |g|
    ensures Climbs(g, rank)
  {
    forall k, a | k in Keys(g) && a in NodeOf(g, k).ancestors ensures a in Keys(g) && rank[k] < rank[a] {
      RankedAncestor(g, rank, k, a);
    }
  }

  /** With ranks that make every edge go downhill, an ancestor ranks above its child. */
  lemma RankedAncestor<K(!new), V>(g: seq<Node<K, V>>, rank: map<K, nat>, k: K, a: K)
    requires AncestorsConsistent(g) && Ranks(g, rank) && k in Keys(g) && a in NodeOf(g, k).ancestors
    ensures a in Keys(g) && k in rank && a in rank && rank[k] < rank[a]
  {
    var ik := Find(g, k).value;
    assert a in g[ik].ancestors;
    var ia := Find(g, a).value;
    RankedEdge(g, rank, ia, k);
  }

  lemma RankedEdge<K(!new), V>(g: seq<Node<K, V>>, rank: map<K, nat>, i: nat, d: K)
    requires Ranks(g, rank) && i < |g| && d in g[i].destinations
    ensures d in rank && g[i].key in rank && rank[d] < rank[g[i].key]
  {
  }

  /**
   * The upward paths from `k`: just `[k]` at a node without ancestors, otherwise `k`
   * followed by each path from its first ancestor, then each from its second, and so on.
   */
  ghost function Chains<K(!new), V>(g: seq<Node<K, V>>, rank: map<K, nat>, k: K): (r: seq<seq<K>>)
    requires Climbs(g, rank) && k in Keys(g)
    ensures r != []
    decreases |g| - rank[k], 1
  {
    var anc := NodeOf(g, k).ancestors;
    if anc == [] then [[k]] else Prefixed([k], ChainsVia(g, rank, k, |anc|))
  }

  /** The paths from the first `n` ancestor entries of `k`, one ancestor after the other. */
  ghost function ChainsVia<K(!new), V>(g: seq<Node<K, V>>, rank: map<K, nat>, k: K, n: nat): (r: seq<seq<K>>)
    requires Climbs(g, rank) && k in Keys(g) && n <= |NodeOf(g, k).ancestors|
    ensures n > 0 ==> r != []
    decreases |g| - rank[k], 0, n
  {
    if n == 0 then []
    else
      var a := NodeOf(g, k).ancestors[n - 1];
      Climb(g, rank, k, a);
      ChainsVia(g, rank, k, n - 1) + Chains(g, rank, a)
  }

  /** `p` leads from `k` up through ancestor entries to a node without ancestors. */
  ghost predicate IsChain<K(!new), V>(g: seq<Node<K, V>>, k: K, p: seq<K>) {
    p != [] && p[0] == k && (forall i :: 0 <= i < |p| ==> p[i] in Keys(g)) &&
    (forall i :: 0 <= i < |p| - 1 ==> p[i + 1] in NodeOf(g, p[i]).ancestors) &&
    NodeOf(g, p[|p| - 1]).ancestors == []
  }

  /**
   * The path list that `buildAncestorsPaths` leaves when its accumulator is the path at
   * index `i`: that path becomes `acc` followed by the first path of `cs`, and every
   * further path of `cs` is appended behind its own copy of `acc`.
   */
  ghost function Spread<K>(paths: seq<seq<K>>, i: nat, acc: seq<K>, cs: seq<seq<K>>): seq<seq<K>>
    requires i < |paths| && cs != []
  {
    paths[i := acc + cs[0]] + Prefixed(acc, cs[1..])
  }

  /** What the path at `i` held before does not matter. */
  lemma SpreadOver<K>(paths: seq<seq<K>>, i: nat, before: seq<K>, acc: seq<K>, cs: seq<seq<K>>)
    requires i < |paths| && cs != []
    ensures Spread(paths[i := before], i, acc, cs) == Spread(paths, i, acc, cs)
  {
    assert paths[i := before][i := acc + cs[0]] == paths[i := acc + cs[0]];
  }

  /** Appending the copies for more paths extends the spread. */
  lemma SpreadMore<K>(paths: seq<seq<K>>, i: nat, acc: seq<K>, cs: seq<seq<K>>, more: seq<seq<K>>)
    requires i < |paths| && cs != []
    ensures Spread(paths, i, acc, cs) + Prefixed(acc, more) == Spread(paths, i, acc, cs + more)
  {
    assert (cs + more)[0] == cs[0];
    assert (cs + more)[1..] == cs[1..] + more;
    PrefixedAppend(acc, cs[1..], more);
  }

  /** Spreading from a path appended at the end appends every path behind `acc`. */
  lemma SpreadAppended<K>(paths: seq<seq<K>>, acc: seq<K>, cs: seq<seq<K>>)
    requires cs != []
    ensures Spread(paths + [acc], |paths|, acc, cs) == paths + Prefixed(acc, cs)
  {
    var l, r := Spread(paths + [acc], |paths|, acc, cs), paths + Prefixed(acc, cs);
    var tail := Prefixed(acc, cs[1..]);
    assert |l| == |r|;
    forall m | 0 <= m < |l| ensures l[m] == r[m] {
      if m > |paths| {
        assert l[m] == tail[m - |paths| - 1] == acc + cs[m - |paths|];
      }
    }
  }

  /**
   * Spreading the paths through the ancestors of `k` behind `acc + [k]` is spreading the
   * upward paths from `k` behind `acc`.
   */
  lemma SpreadChains<K(!new), V>(g: seq<Node<K, V>>, rank: map<K, nat>, k: K, paths: seq<seq<K>>, i: nat)
    requires Climbs(g, rank) && k in Keys(g) && i < |paths|
    requires NodeOf(g, k).ancestors != []
    ensures Spread(paths, i, paths[i] + [k], ChainsVia(g, rank, k, |NodeOf(g, k).ancestors|)) ==
            Spread(paths, i, paths[i], Chains(g, rank, k))
  {
    var via := ChainsVia(g, rank, k, |NodeOf(g, k).ancestors|);
    var all := Chains(g, rank, k);
    assert all == Prefixed([k], via);
    PrefixedTail([k], via);
    PrefixedTwice(paths[i], [k], via[1..]);
    assert paths[i] + all[0] == (paths[i] + [k]) + via[0];
  }

  /** Every enumerated path is an upward path from `k`. */
  lemma {:induction false} ChainsSound<K(!new), V>(g: seq<Node<K, V>>, rank: map<K, nat>, k: K)
    requires Climbs(g, rank) && k in Keys(g)
    ensures forall p :: p in Chains(g, rank, k) ==> IsChain(g, k, p)
    decreases |g| - rank[k], 1
  {
    var anc := NodeOf(g, k).ancestors;
    if anc != [] {
      var via := ChainsVia(g, rank, k, |anc|);
      var all := Chains(g, rank, k);
      assert all == Prefixed([k], via);
      ChainsViaSound(g, rank, k, |anc|);
      forall p | p in all ensures IsChain(g, k, p) {
        var i :| 0 <= i < |all| && all[i] == p;
        var q := via[i];
        assert q in via;
        var j :| 0 <= j < |anc| && IsChain(g, anc[j], q);
        assert p == [k] + q;
        ChainCons(g, k, q);
      }
    }
  }

  /** Every path enumerated through the first `n` ancestors is an upward path from one of them. */
  lemma {:induction false} ChainsViaSound<K(!new), V>(g: seq<Node<K, V>>, rank: map<K, nat>, k: K, n: nat)
    requires Climbs(g, rank) && k in Keys(g) && n <= |NodeOf(g, k).ancestors|
    ensures forall q :: q in ChainsVia(g, rank, k, n) ==>
              exists j :: 0 <= j < n && IsChain(g, NodeOf(g, k).ancestors[j], q)
    decreases |g| - rank[k], 0, n
  {
    if n > 0 {
      var anc := NodeOf(g, k).ancestors;
      Climb(g, rank, k, anc[n - 1]);
      ChainsViaSound(g, rank, k, n - 1);
      ChainsSound(g, rank, anc[n - 1]);
      forall q | q in ChainsVia(g, rank, k, n) ensures exists j :: 0 <= j < n && IsChain(g, anc[j], q) {
        ChainsViaMember(g, rank, k, n, q);
        if q in ChainsVia(g, rank, k, n - 1) {
          var j :| 0 <= j < n - 1 && IsChain(g, anc[j], q);
          assert 0 <= j < n && IsChain(g, anc[j], q);
        } else {
          assert IsChain(g, anc[n - 1], q);
        }
      }
    }
  }

  /** An upward path from an ancestor of `k`, with `k` in front, is one from `k`. */
  lemma ChainCons<K(!new), V>(g: seq<Node<K, V>>, k: K, q: seq<K>)
    requires k in Keys(g) && q != [] && q[0] in NodeOf(g, k).ancestors && IsChain(g, q[0], q)
    ensures IsChain(g, k, [k] + q)
  {
    var p := [k] + q;
    forall i | 0 <= i < |p| - 1 ensures p[i + 1] in NodeOf(g, p[i]).ancestors {
      if i > 0 {
        assert p[i] == q[i - 1] && p[i + 1] == q[i];
      }
    }
  }

  /** A path enumerated through the first `n` ancestors comes through one of the first `n - 1` or the `n`-th. */
  lemma ChainsViaMember<K(!new), V>(g: seq<Node<K, V>>, rank: map<K, nat>, k: K, n: nat, q: seq<K>)
    requires Climbs(g, rank) && k in Keys(g) && 0 < n <= |NodeOf(g, k).ancestors|
    ensures NodeOf(g, k).ancestors[n - 1] in Keys(g)
    ensures q in ChainsVia(g, rank, k, n) <==>
              q in ChainsVia(g, rank, k, n - 1) || q in Chains(g, rank, NodeOf(g, k).ancestors[n - 1])
  {
    Climb(g, rank, k, NodeOf(g, k).ancestors[n - 1]);
  }

  /** The paths from the `j`-th ancestor are among those from the first `n`, for `j < n`. */
  lemma {:induction false} ChainsViaHas<K(!new), V>(g: seq<Node<K, V>>, rank: map<K, nat>, k: K, n: nat, j: nat,
                                                    q: seq<K>)
    requires Climbs(g, rank) && k in Keys(g) && j < n <= |NodeOf(g, k).ancestors|
    requires NodeOf(g, k).ancestors[j] in Keys(g) && q in Chains(g, rank, NodeOf(g, k).ancestors[j])
    ensures q in ChainsVia(g, rank, k, n)
    decreases n
  {
    ChainsViaMember(g, rank, k, n, q);
    if j < n - 1 {
      ChainsViaHas(g, rank, k, n - 1, j, q);
    }
  }

  /** Every upward path from `k` is enumerated. */
  lemma {:induction false} ChainsComplete<K(!new), V>(g: seq<Node<K, V>>, rank: map<K, nat>, k: K, p: seq<K>)
    requires Climbs(g, rank) && IsChain(g, k, p)
    ensures p in Chains(g, rank, k)
    decreases |p|
  {
    var anc := NodeOf(g, k).ancestors;
    if |p| == 1 {
      assert p == [k];
    } else {
      var q := p[1..];
      var a := p[1];
      assert a in anc;
      assert IsChain(g, a, q) by {
        forall i | 0 <= i < |q| - 1 ensures q[i + 1] in NodeOf(g, q[i]).ancestors {
          assert q[i] == p[i + 1] && q[i + 1] == p[i + 2];
        }
        assert q[|q| - 1] == p[|p| - 1];
      }
      ChainsComplete(g, rank, a, q);
      var j :| 0 <= j < |anc| && anc[j] == a;
      ChainsViaHas(g, rank, k, |anc|, j, q);
      var via := ChainsVia(g, rank, k, |anc|);
      var m :| 0 <= m < |via| && via[m] == q;
      assert Chains(g, rank, k)[m] == [k] + q == p;
    }
  }

  /** `p` is enumerated from `k` exactly when it is an upward path from `k`. */
  lemma ChainsExact<K(!new), V>(g: seq<Node<K, V>>, rank: map<K, nat>, k: K)
    requires Climbs(g, rank) && k in Keys(g)
    ensures forall p :: p in Chains(g, rank, k) <==> IsChain(g, k, p)
  {
    ChainsSound(g, rank, k);
    forall p | IsChain(g, k, p) ensures p in Chains(g, rank, k) {
      ChainsComplete(g, rank, k, p);
    }
  }
}
