/** Small facts about sequences that several components share. */
module Sequences {

  datatype Option<+T> = None | Some(value: T)

  predicate Distinct<T(==)>(s: seq<T>) {
    forall i, j | 0 <= i < j < |s| :: s[i] != s[j]
  }

  function ToSet<T(==)>(s: seq<T>): set<T> {
    set x | x in s
  }

  lemma ToSetEmpty<T>(s: seq<T>)
    ensures ToSet(s) == {} <==> s == []
  {
    if s != [] { assert s[0] in ToSet(s); }
  }

  /** The items produced by `f` for each element in turn, in order. */
  function Collect<T, R>(s: seq<T>, f: (nat, T) -> seq<R>): seq<R> {
    if s == [] then [] else Collect(s[..|s| - 1], f) + f(|s| - 1, s[|s| - 1])
  }

  lemma CollectStep<T, R>(s: seq<T>, k: nat, f: (nat, T) -> seq<R>)
    requires k < |s|
    ensures Collect(s[..k + 1], f) == Collect(s[..k], f) + f(k, s[k])
  {
    assert s[..k + 1][..k] == s[..k];
  }

  lemma {:induction false} CollectMembers<T, R>(s: seq<T>, f: (nat, T) -> seq<R>, x: R)
    ensures x in Collect(s, f) <==> exists i: nat :: i < |s| && x in f(i, s[i])
  {
    if s != [] {
      var n := |s| - 1;
      CollectMembers(s[..n], f, x);
      if x in f(n, s[n]) {
      } else if x in Collect(s[..n], f) {
        var i: nat :| i < n && x in f(i, s[..n][i]);
        assert x in f(i, s[i]);
      }
      if i: nat :| i < |s| && x in f(i, s[i]) {
        if i < n { assert x in f(i, s[..n][i]); }
      }
    }
  }

  lemma {:induction false} CollectEmpty<T, R>(s: seq<T>, f: (nat, T) -> seq<R>)
    ensures Collect(s, f) == [] <==> forall i: nat :: i < |s| ==> f(i, s[i]) == []
  {
    if s != [] {
      var n := |s| - 1;
      CollectEmpty(s[..n], f);
      if Collect(s, f) == [] {
        forall i: nat | i < |s| ensures f(i, s[i]) == [] {
          if i < n { assert f(i, s[..n][i]) == []; }
        }
      } else if forall i: nat :: i < |s| ==> f(i, s[i]) == [] {
        forall i: nat | i < n ensures f(i, s[..n][i]) == [] { assert f(i, s[i]) == []; }
        assert false;
      }
    }
  }

  /** The elements that satisfy `p`, in order. */
  function Filter<T>(s: seq<T>, p: T -> bool): seq<T> {
    if s == [] then []
    else Filter(s[..|s| - 1], p) + if p(s[|s| - 1]) then [s[|s| - 1]] else []
  }

  lemma FilterStep<T>(s: seq<T>, k: nat, p: T -> bool)
    requires k < |s|
    ensures Filter(s[..k + 1], p) == Filter(s[..k], p) + if p(s[k]) then [s[k]] else []
  {
    assert s[..k + 1][..k] == s[..k];
  }

  lemma {:induction false} FilterMembers<T>(s: seq<T>, p: T -> bool, x: T)
    ensures x in Filter(s, p) <==> x in s && p(x)
  {
    if s != [] {
      var t := s[..|s| - 1];
      FilterMembers(t, p, x);
      assert s == t + [s[|s| - 1]];
    }
  }

  /** The positions whose elements satisfy `p`. */
  function Where<T>(s: seq<T>, p: T -> bool): set<nat> {
    set i: nat | i < |s| && p(s[i])
  }

  lemma {:induction false} FilterSize<T>(s: seq<T>, p: T -> bool)
    ensures |Filter(s, p)| == |Where(s, p)|
  {
    if s != [] {
      var last := |s| - 1;
      FilterSize(s[..last], p);
      var before := Where(s[..last], p);
      assert Where(s, p) == if p(s[last]) then before + {last} else before;
    }
  }

  /** At most one element survives the filter exactly when no two positions satisfy `p`. */
  lemma {:induction false} FilterAtMostOne<T>(s: seq<T>, p: T -> bool)
    ensures |Filter(s, p)| <= 1 <==> forall i, j | 0 <= i < j < |s| :: !(p(s[i]) && p(s[j]))
  {
    if s != [] {
      var n := |s| - 1;
      var t := s[..n];
      FilterAtMostOne(t, p);
      assert forall i | 0 <= i < n :: t[i] == s[i];
      if p(s[n]) {
        if Filter(t, p) == [] {
          forall i | 0 <= i < n ensures !p(s[i]) { assert t[i] in t; FilterMembers(t, p, t[i]); }
        } else {
          var x := Filter(t, p)[0];
          FilterMembers(t, p, x);
          var i :| 0 <= i < |t| && t[i] == x;
          assert p(s[i]) && p(s[n]);
        }
      }
    }
  }

  /** The first occurrence of every element, in order. */
  function Dedupe<T(==, !new)>(s: seq<T>): (r: seq<T>)
    ensures Distinct(r)
    ensures forall x :: x in r <==> x in s
  {
    if s == [] then []
    else
      var t := Dedupe(s[..|s| - 1]);
      assert s == s[..|s| - 1] + [s[|s| - 1]];
      if s[|s| - 1] in t then t else t + [s[|s| - 1]]
  }

  lemma {:induction false} DistinctSize<T>(s: seq<T>)
    ensures |ToSet(s)| <= |s|
    ensures |ToSet(s)| == |s| <==> Distinct(s)
  {
    if s != [] {
      var t, x := s[..|s| - 1], s[|s| - 1];
      DistinctSize(t);
      assert s == t + [x];
      assert ToSet(s) == ToSet(t) + {x};
      if x in t {
        assert ToSet(s) == ToSet(t);
        var i :| 0 <= i < |t| && t[i] == x;
        assert s[i] == s[|s| - 1];
      } else {
        assert |ToSet(s)| == |ToSet(t)| + 1;
        assert forall i | 0 <= i < |t| :: s[i] == t[i] && t[i] in t;
      }
    }
  }

  /** The first position of `x`, or -1. */
  function IndexOf<T(==)>(s: seq<T>, x: T): (i: int)
    ensures -1 <= i < |s|
    ensures i == -1 <==> x !in s
    ensures i >= 0 ==> s[i] == x && x !in s[..i]
  {
    if s == [] then -1
    else if s[0] == x then 0
    else
      var i := IndexOf(s[1..], x);
      assert s == [s[0]] + s[1..];
      if i < 0 then -1 else
        assert s[..i + 1] == [s[0]] + s[1..][..i];
        i + 1
  }
}
