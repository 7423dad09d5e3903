/**
 * The `java.util` list and stream operations that the graph and the tree rely on,
 * stated over sequences: `List.remove(Object)`, `stream().distinct()`,
 * `stream().filter(other::contains)`, and the prefixing of paths.
 */
module Lists {

  /** No element occurs twice. */
  predicate NoDup<T(==)>(s: seq<T>) {
    forall i, j :: 0 <= i < j < |s| ==> s[i] != s[j]
  }

  lemma NoDupMultiset<T>(s: seq<T>, x: T)
    requires NoDup(s)
    ensures multiset(s)[x] <= 1
  {
    if s != [] {
      assert s == [s[0]] + s[1..];
      assert NoDup(s[1..]);
      NoDupMultiset(s[1..], x);
      if s[0] == x {
        assert x !in s[1..];
      }
    }
  }

  /** `List.remove(Object)`: drops the first occurrence of `x`, if there is one. */
  function RemoveFirst<T(==)>(s: seq<T>, x: T): (r: seq<T>)
    ensures x !in s ==> r == s
    ensures x in s ==> |r| == |s| - 1
  {
    if s == [] then []
    else if s[0] == x then s[1..]
    else [s[0]] + RemoveFirst(s[1..], x)
  }

  /** `RemoveFirst` takes away exactly one `x`, if there is one, and nothing else. */
  lemma {:induction false} RemoveFirstMultiset<T>(s: seq<T>, x: T)
    ensures multiset(RemoveFirst(s, x)) == multiset(s) - multiset{x}
  {
    if s != [] {
      assert s == [s[0]] + s[1..];
      if s[0] != x {
        RemoveFirstMultiset(s[1..], x);
      }
    }
  }

  /** Removing from a list without repetitions leaves one without repetitions and without `x`. */
  lemma RemoveFirstNoDup<T>(s: seq<T>, x: T)
    requires NoDup(s)
    ensures NoDup(RemoveFirst(s, x)) && x !in RemoveFirst(s, x)
  {
    var r := RemoveFirst(s, x);
    RemoveFirstMultiset(s, x);
    NoDupMultiset(s, x);
    assert multiset(r)[x] == 0;
    forall y ensures multiset(r)[y] <= 1 {
      NoDupMultiset(s, y);
    }
    MultisetNoDup(r);
  }

  /** Membership after `RemoveFirst`: every other element stays, `x` stays only if it was repeated. */
  lemma RemoveFirstIn<T>(s: seq<T>, x: T, y: T)
    ensures y != x ==> (y in RemoveFirst(s, x) <==> y in s)
    ensures y in RemoveFirst(s, x) ==> y in s
  {
    var r := RemoveFirst(s, x);
    RemoveFirstMultiset(s, x);
    assert y in r <==> multiset(r)[y] > 0;
    assert y in s <==> multiset(s)[y] > 0;
  }

  /** A list in which nothing occurs twice has no repetitions. */
  lemma MultisetNoDup<T>(s: seq<T>)
    requires forall y :: multiset(s)[y] <= 1
    ensures NoDup(s)
  {
    forall i, j | 0 <= i < j < |s| ensures s[i] != s[j] {
      if s[i] == s[j] {
        RepeatCount(s, i, j);
        assert false;
      }
    }
  }

  /** An element found at two positions occurs at least twice. */
  lemma RepeatCount<T>(s: seq<T>, i: nat, j: nat)
    requires i < j < |s| && s[i] == s[j]
    ensures multiset(s)[s[i]] >= 2
  {
    assert s == s[..i] + [s[i]] + s[i + 1..j] + [s[j]] + s[j + 1..];
  }

  /** If removing the first `x` leaves a list without repetitions and without `x`, the list had no repetitions. */
  lemma NoDupBeforeRemove<T>(s: seq<T>, x: T)
    requires NoDup(RemoveFirst(s, x)) && x !in RemoveFirst(s, x)
    ensures NoDup(s)
  {
    var r := RemoveFirst(s, x);
    RemoveFirstMultiset(s, x);
    forall y ensures multiset(s)[y] <= 1 {
      NoDupMultiset(r, y);
      assert multiset(r)[x] == 0;
    }
    MultisetNoDup(s);
  }

  /** Appending `x` and then removing its first occurrence gives back `s` when `x` was absent. */
  lemma {:induction false} RemoveFirstAppended<T>(s: seq<T>, x: T)
    requires x !in s
    ensures RemoveFirst(s + [x], x) == s
  {
    if s == [] {
    } else {
      assert (s + [x])[0] == s[0];
      assert (s + [x])[1..] == s[1..] + [x];
      RemoveFirstAppended(s[1..], x);
      assert [s[0]] + s[1..] == s;
    }
  }

  /** `stream().distinct()`: the first occurrence of every element, in order. */
  function Distinct<T(==,!new)>(s: seq<T>): (r: seq<T>)
    ensures NoDup(r)
    ensures forall x :: x in r <==> x in s
    ensures NoDup(s) ==> r == s
    ensures s != [] ==> r != [] && r[0] == s[0]
    ensures |r| <= |s|
    decreases |s|
  {
    if s == [] then []
    else
      var init := s[..|s| - 1];
      var d := Distinct(init);
      assert s == init + [s[|s| - 1]];
      assert NoDup(s) ==> NoDup(init) && s[|s| - 1] !in init;
      assert forall x :: x in init ==> x in s;
      if s[|s| - 1] in init then d else d + [s[|s| - 1]]
  }

  /** `stream().filter(t::contains)`: the elements of `s` that occur in `t`, in order. */
  function KeepIn<T(==,!new)>(s: seq<T>, t: seq<T>): (r: seq<T>)
    ensures forall x :: x in r <==> x in s && x in t
    ensures |r| <= |s|
    ensures NoDup(s) ==> NoDup(r)
  {
    if s == [] then []
    else
      var rest := KeepIn(s[1..], t);
      assert s == [s[0]] + s[1..];
      assert NoDup(s) ==> NoDup(s[1..]) && s[0] !in s[1..];
      (if s[0] in t then [s[0]] else []) + rest
  }

  /**
   * `p1.stream().distinct().filter(p2::contains)`: the elements common to both
   * paths, without repetition, in the order of `p1`.
   */
  function Intersection<T(==,!new)>(p1: seq<T>, p2: seq<T>): (r: seq<T>)
    ensures NoDup(r)
    ensures forall x :: x in r <==> x in p1 && x in p2
    ensures |r| <= |p1|
  {
    KeepIn(Distinct(p1), p2)
  }

  /** The first element of `KeepIn(s, t)` is the first element of `s` that occurs in `t`. */
  lemma {:induction false} KeepInHead<T(!new)>(s: seq<T>, t: seq<T>)
    requires KeepIn(s, t) != []
    ensures exists i :: 0 <= i < |s| && s[i] == KeepIn(s, t)[0] && s[i] in t &&
                        forall j :: 0 <= j < i ==> s[j] !in t
  {
    assert s != [];
    if s[0] in t {
      assert s[0] == KeepIn(s, t)[0];
    } else {
      assert KeepIn(s, t) == KeepIn(s[1..], t);
      KeepInHead(s[1..], t);
      var i :| 0 <= i < |s[1..]| && s[1..][i] == KeepIn(s[1..], t)[0] && s[1..][i] in t &&
               forall j :: 0 <= j < i ==> s[1..][j] !in t;
      assert s[i + 1] == KeepIn(s, t)[0];
      forall j | 0 <= j < i + 1 ensures s[j] !in t {
        if j > 0 { assert s[j] == s[1..][j - 1]; }
      }
    }
  }

  lemma {:induction false} KeepInAppend<T(!new)>(a: seq<T>, b: seq<T>, t: seq<T>)
    ensures KeepIn(a + b, t) == KeepIn(a, t) + KeepIn(b, t)
    decreases |a|
  {
    if a == [] {
      assert a + b == b;
    } else {
      assert (a + b)[1..] == a[1..] + b;
      KeepInAppend(a[1..], b, t);
    }
  }

  /** One more element at the end is kept by `Distinct` exactly when it is new. */
  lemma DistinctSnoc<T(!new)>(u: seq<T>, x: T)
    ensures Distinct(u + [x]) == if x in u then Distinct(u) else Distinct(u) + [x]
  {
    assert (u + [x])[..|u + [x]| - 1] == u;
  }

  /** Filtering and dropping repetitions commute. */
  lemma {:induction false} KeepInDistinct<T(!new)>(s: seq<T>, t: seq<T>)
    ensures KeepIn(Distinct(s), t) == Distinct(KeepIn(s, t))
    decreases |s|
  {
    if s != [] {
      var init, x := s[..|s| - 1], s[|s| - 1];
      assert s == init + [x];
      KeepInDistinct(init, t);
      KeepInAppend(init, [x], t);
      DistinctSnoc(init, x);
      var u := KeepIn(init, t);
      assert KeepIn([x], t) == if x in t then [x] else [];
      if x in t {
        DistinctSnoc(u, x);
        if x !in init {
          KeepInAppend(Distinct(init), [x], t);
        }
      } else {
        assert KeepIn(s, t) == u;
        if x !in init {
          KeepInAppend(Distinct(init), [x], t);
        }
      }
    }
  }

  /**
   * The first element of `Intersection(p1, p2)` is the first element of `p1` that
   * occurs in `p2`.
   */
  lemma IntersectionHead<T(!new)>(p1: seq<T>, p2: seq<T>)
    requires Intersection(p1, p2) != []
    ensures exists i :: 0 <= i < |p1| && p1[i] == Intersection(p1, p2)[0] && p1[i] in p2 &&
                        forall j :: 0 <= j < i ==> p1[j] !in p2
  {
    KeepInDistinct(p1, p2);
    KeepInHead(p1, p2);
  }

  /** Every path of `ps`, with `acc` in front of it (the copies of an accumulator that a path search makes). */
  function Prefixed<T>(acc: seq<T>, ps: seq<seq<T>>): (r: seq<seq<T>>)
    ensures |r| == |ps|
    ensures forall i :: 0 <= i < |ps| ==> r[i] == acc + ps[i]
  {
    seq(|ps|, i requires 0 <= i < |ps| => acc + ps[i])
  }

  lemma PrefixedAppend<T>(acc: seq<T>, ps: seq<seq<T>>, qs: seq<seq<T>>)
    ensures Prefixed(acc, ps + qs) == Prefixed(acc, ps) + Prefixed(acc, qs)
  {
    assert forall i :: 0 <= i < |ps + qs| ==> Prefixed(acc, ps + qs)[i] == (Prefixed(acc, ps) + Prefixed(acc, qs))[i];
  }

  lemma PrefixedTwice<T>(a: seq<T>, b: seq<T>, ps: seq<seq<T>>)
    ensures Prefixed(a, Prefixed(b, ps)) == Prefixed(a + b, ps)
  {
    forall i | 0 <= i < |ps| ensures Prefixed(a, Prefixed(b, ps))[i] == Prefixed(a + b, ps)[i] {
      assert a + (b + ps[i]) == (a + b) + ps[i];
    }
  }

  lemma PrefixedEmpty<T>(ps: seq<seq<T>>)
    ensures Prefixed([], ps) == ps
  {
    assert forall i :: 0 <= i < |ps| ==> [] + ps[i] == ps[i];
  }

  lemma PrefixedTail<T>(acc: seq<T>, ps: seq<seq<T>>)
    requires ps != []
    ensures Prefixed(acc, ps)[1..] == Prefixed(acc, ps[1..])
  {
  }
}
