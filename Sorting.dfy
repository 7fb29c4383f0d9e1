/** Sorting a finite set into the ascending sequence of its elements, the way
    Python's `sorted` turns the set of tiers, or the set of gene names hit in
    one tier, into a list. The order is a parameter: integers for tiers,
    code-point lexicographic order for gene names (module Strings). */
module Sorting {

  /** lt is a strict total order on T. */
  ghost predicate StrictTotalOrder<T(!new)>(lt: (T, T) -> bool) {
    && (forall x :: !lt(x, x))
    && (forall x, y, z :: lt(x, y) && lt(y, z) ==> lt(x, z))
    && (forall x, y :: x != y ==> lt(x, y) || lt(y, x))
  }

  /** xs is strictly ascending under lt, so in particular free of duplicates. */
  ghost predicate StrictlyAscending<T>(xs: seq<T>, lt: (T, T) -> bool) {
    forall i, j :: 0 <= i < j < |xs| ==> lt(xs[i], xs[j])
  }

  /** m is the least element of s under lt. */
  ghost predicate IsLeast<T>(m: T, s: set<T>, lt: (T, T) -> bool) {
    m in s && forall x :: x in s && x != m ==> lt(m, x)
  }

  /** Every non-empty finite set has a least element. */
  lemma {:induction false} LeastExists<T(!new)>(s: set<T>, lt: (T, T) -> bool)
    requires StrictTotalOrder(lt)
    requires s != {}
    ensures exists m :: IsLeast(m, s, lt)
    decreases |s|
  {
    var y :| y in s;
    if s - {y} == {} {
      assert s == {y};
      assert IsLeast(y, s, lt);
    } else {
      LeastExists(s - {y}, lt);
      var m :| IsLeast(m, s - {y}, lt);
      if lt(y, m) {
        forall x | x in s && x != y ensures lt(y, x) {
          if x != m {
            assert lt(m, x);
          }
        }
        assert IsLeast(y, s, lt);
      } else {
        assert IsLeast(m, s, lt);
      }
    }
  }

  /** The least element is unique. */
  lemma LeastUnique<T(!new)>(m1: T, m2: T, s: set<T>, lt: (T, T) -> bool)
    requires StrictTotalOrder(lt)
    requires IsLeast(m1, s, lt) && IsLeast(m2, s, lt)
    ensures m1 == m2
  {
  }

  /** The ascending sequence of the elements of s: what `sorted(s)` returns.
      SortedSetSpec states what it is. */
  ghost function SortedSet<T(!new)>(s: set<T>, lt: (T, T) -> bool): seq<T>
    requires StrictTotalOrder(lt)
    decreases |s|
  {
    if s == {} then []
    else
      LeastExists(s, lt);
      var m :| IsLeast(m, s, lt);
      [m] + SortedSet(s - {m}, lt)
  }

  /** SortedSet(s) is strictly ascending and holds exactly the elements of s. */
  lemma SortedSetSpec<T(!new)>(s: set<T>, lt: (T, T) -> bool)
    requires StrictTotalOrder(lt)
    ensures StrictlyAscending(SortedSet(s, lt), lt)
    ensures forall x :: x in SortedSet(s, lt) <==> x in s
    ensures |SortedSet(s, lt)| == |s|
  {
    SortedSetMembers(s, lt);
    SortedSetAscending(s, lt);
  }

  lemma {:induction false} SortedSetMembers<T(!new)>(s: set<T>, lt: (T, T) -> bool)
    requires StrictTotalOrder(lt)
    ensures forall x :: x in SortedSet(s, lt) <==> x in s
    ensures |SortedSet(s, lt)| == |s|
    decreases |s|
  {
    if s != {} {
      LeastExists(s, lt);
      var m :| IsLeast(m, s, lt) && SortedSet(s, lt) == [m] + SortedSet(s - {m}, lt);
      SortedSetMembers(s - {m}, lt);
    }
  }

  lemma {:induction false} SortedSetAscending<T(!new)>(s: set<T>, lt: (T, T) -> bool)
    requires StrictTotalOrder(lt)
    ensures StrictlyAscending(SortedSet(s, lt), lt)
    decreases |s|
  {
    if s != {} {
      LeastExists(s, lt);
      var m :| IsLeast(m, s, lt) && SortedSet(s, lt) == [m] + SortedSet(s - {m}, lt);
      var rest := SortedSet(s - {m}, lt);
      SortedSetMembers(s - {m}, lt);
      SortedSetAscending(s - {m}, lt);
      ConsAscending(m, rest, lt);
    }
  }

  /** Putting an element below all others in front of an ascending sequence
      keeps it ascending. */
  lemma ConsAscending<T>(m: T, xs: seq<T>, lt: (T, T) -> bool)
    requires StrictlyAscending(xs, lt)
    requires forall x :: x in xs ==> lt(m, x)
    ensures StrictlyAscending([m] + xs, lt)
  {
    var ys := [m] + xs;
    forall i, j | 0 <= i < j < |ys| ensures lt(ys[i], ys[j]) {
      assert ys[j] == xs[j - 1];
      if i != 0 {
        assert ys[i] == xs[i - 1];
      }
    }
  }

  /** Two strictly ascending sequences with the same elements are equal. */
  lemma {:induction false} AscendingUnique<T(!new)>(xs: seq<T>, ys: seq<T>, lt: (T, T) -> bool)
    requires StrictTotalOrder(lt)
    requires StrictlyAscending(xs, lt) && StrictlyAscending(ys, lt)
    requires forall x :: x in xs <==> x in ys
    ensures xs == ys
    decreases |xs|
  {
    if xs == [] {
      assert forall i :: 0 <= i < |ys| ==> ys[i] in xs;
    } else {
      assert ys != [] by { assert xs[0] in ys; }
      var s := set x | x in xs;
      assert IsLeast(xs[0], s, lt) by {
        forall x | x in s && x != xs[0] ensures lt(xs[0], x) {
          var j :| 0 <= j < |xs| && xs[j] == x;
        }
      }
      assert IsLeast(ys[0], s, lt) by {
        forall x | x in s && x != ys[0] ensures lt(ys[0], x) {
          var j :| 0 <= j < |ys| && ys[j] == x;
        }
      }
      LeastUnique(xs[0], ys[0], s, lt);
      forall x ensures x in xs[1..] <==> x in ys[1..] {
        TailMembers(xs, x, lt);
        TailMembers(ys, x, lt);
      }
      AscendingUnique(xs[1..], ys[1..], lt);
      assert xs == [xs[0]] + xs[1..] && ys == [ys[0]] + ys[1..];
    }
  }

  /** In a strictly ascending sequence, the tail holds exactly the elements
      other than the head. */
  lemma TailMembers<T(!new)>(xs: seq<T>, x: T, lt: (T, T) -> bool)
    requires StrictTotalOrder(lt)
    requires StrictlyAscending(xs, lt) && xs != []
    ensures x in xs[1..] <==> x in xs && x != xs[0]
  {
    if x in xs[1..] {
      var j :| 1 <= j < |xs| && xs[j] == x;
      assert lt(xs[0], xs[j]);
    }
    if x in xs && x != xs[0] {
      var j :| 0 <= j < |xs| && xs[j] == x;
      assert xs[1..][j - 1] == x;
    }
  }

  /** A strictly ascending sequence is SortedSet of its elements. */
  lemma AscendingIsSortedSet<T(!new)>(xs: seq<T>, s: set<T>, lt: (T, T) -> bool)
    requires StrictTotalOrder(lt)
    requires StrictlyAscending(xs, lt)
    requires forall x :: x in xs <==> x in s
    ensures xs == SortedSet(s, lt)
  {
    SortedSetSpec(s, lt);
    AscendingUnique(xs, SortedSet(s, lt), lt);
  }

  /** Sorting a non-empty set puts its least element first. */
  lemma SortedSetStep<T(!new)>(s: set<T>, m: T, lt: (T, T) -> bool)
    requires StrictTotalOrder(lt)
    requires IsLeast(m, s, lt)
    ensures SortedSet(s, lt) == [m] + SortedSet(s - {m}, lt)
  {
    var ys := [m] + SortedSet(s - {m}, lt);
    SortedSetSpec(s - {m}, lt);
    ConsAscending(m, SortedSet(s - {m}, lt), lt);
    AscendingIsSortedSet(ys, s, lt);
  }

  /** Finds the least element of a non-empty set by one pass over it. */
  method MinOf<T(==, !new)>(s: set<T>, lt: (T, T) -> bool) returns (m: T)
    requires StrictTotalOrder(lt)
    requires s != {}
    ensures IsLeast(m, s, lt)
  {
    m :| m in s;
    var rest := s - {m};
    while rest != {}
      invariant rest <= s && m in s && m !in rest
      invariant forall x :: x in s && x !in rest && x != m ==> lt(m, x)
      decreases |rest|
    {
      var y :| y in rest;
      if lt(y, m) {
        m := y;
      }
      rest := rest - {y};
    }
  }

  /** Sorts a set by repeatedly taking its least element. */
  method SortSet<T(==, !new)>(s: set<T>, lt: (T, T) -> bool) returns (xs: seq<T>)
    requires StrictTotalOrder(lt)
    ensures xs == SortedSet(s, lt)
  {
    xs := [];
    var rest := s;
    while rest != {}
      invariant xs + SortedSet(rest, lt) == SortedSet(s, lt)
      decreases |rest|
    {
      var m := MinOf(rest, lt);
      SortedSetStep(rest, m, lt);
      assert xs + SortedSet(rest, lt) == (xs + [m]) + SortedSet(rest - {m}, lt);
      xs := xs + [m];
      rest := rest - {m};
    }
  }
}
