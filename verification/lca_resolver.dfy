/**
 * The stream pipeline at the end of the multi-parent graph's `LCA`: every intersection of
 * a distinct path of the first node with a path of the second, row by row; the longest of
 * them, the first one on a tie; and its first element, the lowest shared node.
 */
module LcaResolver {
  import opened Wrappers
  import opened Lists

  /** `pathList2.stream().map(path2 -> intersection(p, path2))`: one row of intersections. */
  function Row<K(==,!new)>(p: seq<K>, qs: seq<seq<K>>): (r: seq<seq<K>>)
    ensures |r| == |qs| && forall j :: 0 <= j < |qs| ==> r[j] == Intersection(p, qs[j])
  {
    seq(|qs|, j requires 0 <= j < |qs| => Intersection(p, qs[j]))
  }

  /** The `flatMap` of the rows: the row of each path of `ps`, in order. */
  function Pairwise<K(==,!new)>(ps: seq<seq<K>>, qs: seq<seq<K>>): (r: seq<seq<K>>)
    ensures ps == [] ==> r == []
    decreases |ps|
  {
    if ps == [] then [] else Row(ps[0], qs) + Pairwise(ps[1..], qs)
  }

  /** Every intersection of a path of `ps` with a path of `qs` is among the candidates. */
  lemma {:induction false} PairwiseHas<K(!new)>(ps: seq<seq<K>>, qs: seq<seq<K>>, i: nat, j: nat)
    requires i < |ps| && j < |qs|
    ensures Intersection(ps[i], qs[j]) in Pairwise(ps, qs)
    decreases i
  {
    assert Row(ps[0], qs)[j] == Intersection(ps[0], qs[j]);
    if i > 0 {
      PairwiseHas(ps[1..], qs, i - 1, j);
      assert ps[1..][i - 1] == ps[i];
    }
  }

  /** Every candidate is the intersection of a path of `ps` with a path of `qs`. */
  lemma {:induction false} PairwiseFrom<K(!new)>(ps: seq<seq<K>>, qs: seq<seq<K>>, x: seq<K>)
    requires x in Pairwise(ps, qs)
    ensures exists i, j :: 0 <= i < |ps| && 0 <= j < |qs| && x == Intersection(ps[i], qs[j])
    decreases |ps|
  {
    var row := Row(ps[0], qs);
    if x in row {
      var j :| 0 <= j < |qs| && row[j] == x;
      assert x == Intersection(ps[0], qs[j]);
    } else {
      PairwiseFrom(ps[1..], qs, x);
      var i, j :| 0 <= i < |ps[1..]| && 0 <= j < |qs| && x == Intersection(ps[1..][i], qs[j]);
      assert x == Intersection(ps[i + 1], qs[j]);
    }
  }

  /**
   * The reduction behind `max(comparingInt(List::size))` on an ordered stream, from
   * position `k` on with `xs[best]` the maximum so far: the running maximum is replaced
   * only by a strictly longer element.
   */
  function MaxIndex<K>(xs: seq<seq<K>>, best: nat, k: nat): (m: nat)
    requires best < k <= |xs|
    requires forall j :: 0 <= j < k ==> |xs[j]| <= |xs[best]|
    requires forall j :: 0 <= j < best ==> |xs[j]| < |xs[best]|
    ensures m < |xs|
    ensures forall j :: 0 <= j < |xs| ==> |xs[j]| <= |xs[m]|
    ensures forall j :: 0 <= j < m ==> |xs[j]| < |xs[m]|
    decreases |xs| - k
  {
    if k == |xs| then best
    else if |xs[best]| >= |xs[k]| then MaxIndex(xs, best, k + 1)
    else MaxIndex(xs, k, k + 1)
  }

  /** The longest element of `xs`, the first one among equally long ones. */
  function Longest<K>(xs: seq<seq<K>>): (r: seq<K>)
    requires xs != []
    ensures r in xs && forall x :: x in xs ==> |x| <= |r|
    ensures exists i :: 0 <= i < |xs| && xs[i] == r && forall j :: 0 <= j < i ==> |xs[j]| < |r|
  {
    xs[MaxIndex(xs, 0, 1)]
  }

  /**
   * The answer `LCA` derives from the two path lists: the first element of the longest
   * intersection, and null (`None`) when there is no intersection or the longest is empty.
   */
  function LcaOf<K(==,!new)>(p1s: seq<seq<K>>, p2s: seq<seq<K>>): Option<K> {
    var cands := Pairwise(Distinct(p1s), p2s);
    if cands == [] then None
    else
      var best := Longest(cands);
      if best == [] then None else Some(best[0])
  }

  /** `x` is the first element of `p` that also lies on `q`. */
  ghost predicate FirstShared<K>(p: seq<K>, q: seq<K>, x: K) {
    exists i :: 0 <= i < |p| && p[i] == x && x in q && forall j :: 0 <= j < i ==> p[j] !in q
  }

  /**
   * An answer exists exactly when some path of the first list shares an element with some
   * path of the second, and it is then the first element of a path of the first list that
   * lies on a path of the second.
   */
  lemma LcaOfMeaning<K(!new)>(p1s: seq<seq<K>>, p2s: seq<seq<K>>)
    ensures LcaOf(p1s, p2s).Some? <==>
              exists p, q, x :: p in p1s && q in p2s && x in p && x in q
    ensures LcaOf(p1s, p2s).Some? ==>
              exists p, q :: p in p1s && q in p2s && FirstShared(p, q, LcaOf(p1s, p2s).value)
  {
    if exists p, q, x :: p in p1s && q in p2s && x in p && x in q {
      var p, q, x :| p in p1s && q in p2s && x in p && x in q;
      LcaOfFound(p1s, p2s, p, q, x);
    }
    var r := LcaOf(p1s, p2s);
    if r.Some? {
      LcaOfShared(p1s, p2s);
      var p, q :| p in p1s && q in p2s && FirstShared(p, q, r.value);
      assert r.value in p && r.value in q;
    }
  }

  /** A shared element makes some intersection, hence the longest one, non-empty. */
  lemma LcaOfFound<K(!new)>(p1s: seq<seq<K>>, p2s: seq<seq<K>>, p: seq<K>, q: seq<K>, x: K)
    requires p in p1s && q in p2s && x in p && x in q
    ensures LcaOf(p1s, p2s).Some?
  {
    var d := Distinct(p1s);
    var cands := Pairwise(d, p2s);
    var i :| 0 <= i < |d| && d[i] == p;
    var j :| 0 <= j < |p2s| && p2s[j] == q;
    var c := Intersection(d[i], p2s[j]);
    assert x in c;
    PairwiseHas(d, p2s, i, j);
    assert |Longest(cands)| >= |c| > 0;
  }

  /** The answer is the first element of a path of the first list lying on a path of the second. */
  lemma LcaOfShared<K(!new)>(p1s: seq<seq<K>>, p2s: seq<seq<K>>)
    requires LcaOf(p1s, p2s).Some?
    ensures exists p, q :: p in p1s && q in p2s && FirstShared(p, q, LcaOf(p1s, p2s).value)
  {
    var d := Distinct(p1s);
    var cands := Pairwise(d, p2s);
    var best := Longest(cands);
    PairwiseFrom(d, p2s, best);
    var i, j :| 0 <= i < |d| && 0 <= j < |p2s| && best == Intersection(d[i], p2s[j]);
    var p, q := d[i], p2s[j];
    assert p in p1s;
    IntersectionHead(p, q);
    assert FirstShared(p, q, best[0]);
  }

  /**
   * When every path of the first list starts at `x` and every path of the second passes
   * through `x`, the answer is `x`: a node is its own lowest common ancestor.
   */
  lemma LcaOfCommonHead<K(!new)>(p1s: seq<seq<K>>, p2s: seq<seq<K>>, x: K)
    requires p1s != [] && p2s != []
    requires forall p :: p in p1s ==> p != [] && p[0] == x
    requires forall q :: q in p2s ==> x in q
    ensures LcaOf(p1s, p2s) == Some(x)
  {
    var d := Distinct(p1s);
    var cands := Pairwise(d, p2s);
    LcaOfFound(p1s, p2s, p1s[0], p2s[0], x);
    var best := Longest(cands);
    PairwiseFrom(d, p2s, best);
    var i, j :| 0 <= i < |d| && 0 <= j < |p2s| && best == Intersection(d[i], p2s[j]);
    var p, q := d[i], p2s[j];
    assert p in p1s && q in p2s;
    IntersectionHead(p, q);
    var m :| 0 <= m < |p| && p[m] == best[0] && p[m] in q && forall n :: 0 <= n < m ==> p[n] !in q;
    assert m == 0;
  }
}
