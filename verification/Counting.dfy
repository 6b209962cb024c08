/** Pigeonhole facts about sequences of distinct integers. */
module Counting {
  import opened Interpolation

  function IntRange(lo: int, hi: int): set<int>
    decreases hi - lo
  {
    if hi <= lo then {} else IntRange(lo, hi - 1) + {hi - 1}
  }

  lemma {:induction false} IntRangeLaw(lo: int, hi: int)
    requires lo <= hi
    ensures |IntRange(lo, hi)| == hi - lo
    ensures forall x :: x in IntRange(lo, hi) <==> lo <= x < hi
    decreases hi - lo
  {
    if lo < hi {
      IntRangeLaw(lo, hi - 1);
    }
  }

  function Members<T>(s: seq<T>): set<T> {
    set x | x in s
  }

  lemma {:induction false} DistinctMembers<T>(s: seq<T>)
    requires Distinct(s)
    ensures |Members(s)| == |s|
  {
    if s != [] {
      var t, x := s[..|s| - 1], s[|s| - 1];
      DistinctMembers(t);
      assert s == t + [x];
      assert Members(s) == Members(t) + {x};
      assert x !in t;
    }
  }

  lemma {:induction false} SubsetSize<T>(a: set<T>, b: set<T>)
    requires a <= b
    ensures |a| <= |b|
    ensures |a| == |b| ==> a == b
    decreases |a|
  {
    if a != {} {
      var x :| x in a;
      SubsetSize(a - {x}, b - {x});
      assert a == (a - {x}) + {x} && b == (b - {x}) + {x};
    }
  }

  /** Distinct integers in a range are at most as many as the range has members. */
  lemma DistinctInRange(s: seq<int>, lo: int, hi: int)
    requires lo <= hi && Distinct(s) && forall i :: 0 <= i < |s| ==> lo <= s[i] < hi
    ensures |s| <= hi - lo
    ensures |s| == hi - lo ==> Members(s) == IntRange(lo, hi)
  {
    DistinctMembers(s);
    IntRangeLaw(lo, hi);
    SubsetSize(Members(s), IntRange(lo, hi));
  }

  /** Two enumerations of the same set are permutations of each other. */
  lemma SameMembersPermute<T>(s: seq<T>, t: seq<T>)
    requires Distinct(s) && Distinct(t) && Members(s) == Members(t)
    ensures multiset(s) == multiset(t)
  {
    DistinctMultiset(s);
    DistinctMultiset(t);
  }

  lemma {:induction false} DistinctMultiset<T>(s: seq<T>)
    requires Distinct(s)
    ensures multiset(s) == multiset(Members(s))
  {
    if s != [] {
      var t, x := s[..|s| - 1], s[|s| - 1];
      DistinctMultiset(t);
      assert s == t + [x];
      assert Members(s) == Members(t) + {x};
      assert x !in t;
    }
  }

  // ---- Sorted enumeration of a set of indices ----------------------------------------

  lemma {:induction false} FindMinimum(s: set<nat>) returns (m: nat)
    requires s != {}
    ensures m in s && forall x :: x in s ==> m <= x
  {
    m :| m in s;
    var t := s - {m};
    assert s == t + {m};
    if t != {} {
      var m' := FindMinimum(t);
      m := if m < m' then m else m';
    }
  }

  function Minimum(s: set<nat>): (m: nat)
    requires s != {}
    ensures m in s && forall x :: x in s ==> m <= x
  {
    assert exists m :: m in s && forall x :: x in s ==> m <= x by {
      var m := FindMinimum(s);
    }
    var m :| m in s && forall x :: x in s ==> m <= x;
    m
  }

  ghost predicate Increasing(s: seq<nat>) {
    forall i, j :: 0 <= i < j < |s| ==> s[i] < s[j]
  }

  /** The members of a set of indices, in increasing order */
  function Sorted(s: set<nat>): (r: seq<nat>)
    ensures Increasing(r) && Members(r) == s
  {
    if s == {} then [] else
      var m := Minimum(s);
      var rest := Sorted(s - {m});
      SmallestFirst(s, m, rest);
      [m] + rest
  }

  lemma SmallestFirst(s: set<nat>, m: nat, rest: seq<nat>)
    requires m in s && (forall x :: x in s ==> m <= x) && Increasing(rest) && Members(rest) == s - {m}
    ensures Increasing([m] + rest) && Members([m] + rest) == s
  {
    var r := [m] + rest;
    forall i | 1 <= i < |r| ensures m < r[i] {
      assert r[i] == rest[i - 1] && rest[i - 1] in Members(rest);
    }
    assert forall i, j :: 1 <= i < j < |r| ==> r[i] == rest[i - 1] && r[j] == rest[j - 1];
    assert Members(r) == {m} + Members(rest);
  }

  /** Sorting has only one outcome, whatever order the entries came in. */
  lemma {:induction false} SortedUnique(s: seq<nat>, t: seq<nat>)
    requires Increasing(s) && Increasing(t) && Members(s) == Members(t)
    ensures s == t
  {
    DistinctMembers(s);
    DistinctMembers(t);
    if s != [] {
      assert s[0] in Members(t) && t[0] in Members(s);
      assert s[0] == t[0];
      forall x ensures x in Members(s[1..]) <==> x in Members(t[1..]) {
        assert x in Members(s[1..]) <==> x in Members(s) && x != s[0];
        assert x in Members(t[1..]) <==> x in Members(t) && x != t[0];
      }
      SortedUnique(s[1..], t[1..]);
    }
  }

  function IndexOf<T(==)>(s: seq<T>, x: T): (i: nat)
    requires x in s
    ensures i < |s| && s[i] == x
  {
    if s[0] == x then 0 else 1 + IndexOf(s[1..], x)
  }
}
