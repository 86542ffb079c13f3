/** Lists that hold one entry for every place that earns one, in the order of the places. */
module PlacedLists {
  import opened Sequences

  /** A place in the plan: the index of a checkpoint, of a criterion in it, and so on downwards. */
  type Place = seq<nat>

  predicate Before(a: Place, b: Place) {
    exists k :: 0 <= k < |a| && k < |b| && a[..k] == b[..k] && a[k] < b[k]
  }

  /** One entry for each of these places, in their order, and no other place earns one. */
  ghost predicate Lists<R(!new)>(entries: seq<R>, places: seq<Place>, earns: (Place, R) -> bool) {
    |places| == |entries| &&
    (forall n | 0 <= n < |entries| :: earns(places[n], entries[n])) &&
    (forall m, n | 0 <= m < n < |places| :: Before(places[m], places[n])) &&
    forall p, x | earns(p, x) :: p in places
  }

  ghost predicate ListedByPlace<R(!new)>(entries: seq<R>, earns: (Place, R) -> bool) {
    exists places :: Lists(entries, places, earns)
  }

  /** No place earns two different entries. */
  ghost predicate OneEach<R(!new)>(earns: (Place, R) -> bool) {
    forall p, x, y | earns(p, x) && earns(p, y) :: x == y
  }

  /** Then an entry is listed exactly when some place earns it. */
  lemma ListedMembers<R(!new)>(entries: seq<R>, earns: (Place, R) -> bool, x: R)
    requires ListedByPlace(entries, earns) && OneEach(earns)
    ensures x in entries <==> exists p :: earns(p, x)
  {
    var places :| Lists(entries, places, earns);
    if x in entries {
      var n :| 0 <= n < |entries| && entries[n] == x;
      assert earns(places[n], x);
    }
    if p :| earns(p, x) {
      var n :| 0 <= n < |places| && places[n] == p;
      assert earns(p, entries[n]);
    }
  }

  /** Entries that are earned below index `i`, for every `i` up to a bound. */
  function Nested<R>(inner: nat -> ((Place, R) -> bool), bound: nat): (Place, R) -> bool {
    (p: Place, x: R) => p != [] && p[0] < bound && inner(p[0])(p[1..], x)
  }

  function Prefixed(i: nat, places: seq<Place>): (r: seq<Place>)
    ensures |r| == |places| && forall k | 0 <= k < |r| :: r[k] == [i] + places[k]
  {
    seq(|places|, k requires 0 <= k < |places| => [i] + places[k])
  }

  lemma BeforePrefixed(i: nat, a: Place, b: Place)
    requires Before(a, b)
    ensures Before([i] + a, [i] + b)
  {
    var k :| 0 <= k < |a| && k < |b| && a[..k] == b[..k] && a[k] < b[k];
    assert ([i] + a)[..k + 1] == [i] + a[..k] && ([i] + b)[..k + 1] == [i] + b[..k];
    assert ([i] + a)[k + 1] < ([i] + b)[k + 1];
  }

  lemma BeforeByFirst(a: Place, b: Place)
    requires a != [] && b != [] && a[0] < b[0]
    ensures Before(a, b)
  {
    assert a[..0] == b[..0];
  }

  lemma NestedStep<R(!new)>(inner: nat -> ((Place, R) -> bool), n: nat, entries: seq<R>, places: seq<Place>,
                      more: seq<R>, below: seq<Place>)
    requires Lists(entries, places, Nested(inner, n)) && Lists(more, below, inner(n))
    ensures Lists(entries + more, places + Prefixed(n, below), Nested(inner, n + 1))
  {
    var all, longer, earns := entries + more, places + Prefixed(n, below), Nested(inner, n + 1);
    forall k | 0 <= k < |all| ensures earns(longer[k], all[k]) {
      if k < |entries| {
        assert Nested(inner, n)(places[k], entries[k]);
      } else {
        assert longer[k] == [n] + below[k - |entries|] && longer[k][1..] == below[k - |entries|];
      }
    }
    forall m, k | 0 <= m < k < |longer| ensures Before(longer[m], longer[k]) {
      NestedOrder(inner, n, entries, places, more, below, m, k);
    }
    forall p, x | earns(p, x) ensures p in longer {
      if p[0] < n {
        assert Nested(inner, n)(p, x);
      } else {
        assert p == [n] + p[1..] && p[1..] in below;
        var k :| 0 <= k < |below| && below[k] == p[1..];
        assert longer[|places| + k] == p;
      }
    }
  }

  lemma NestedOrder<R(!new)>(inner: nat -> ((Place, R) -> bool), n: nat, entries: seq<R>, places: seq<Place>,
                       more: seq<R>, below: seq<Place>, m: nat, k: nat)
    requires Lists(entries, places, Nested(inner, n)) && Lists(more, below, inner(n))
    requires m < k < |places| + |below|
    ensures var longer := places + Prefixed(n, below); Before(longer[m], longer[k])
  {
    if m < |places| <= k {
      assert Nested(inner, n)(places[m], entries[m]);
      BeforeByFirst(places[m], [n] + below[k - |places|]);
    } else if |places| <= m {
      BeforePrefixed(n, below[m - |places|], below[k - |places|]);
    }
  }

  lemma {:induction false} CollectLists<T, R(!new)>(s: seq<T>, f: (nat, T) -> seq<R>,
                                                    inner: nat -> ((Place, R) -> bool))
    requires forall i: nat | i < |s| :: ListedByPlace(f(i, s[i]), inner(i))
    ensures ListedByPlace(Collect(s, f), Nested(inner, |s|))
  {
    if s == [] {
      assert Lists(Collect(s, f), [], Nested(inner, 0));
    } else {
      var n := |s| - 1;
      forall i: nat | i < n ensures ListedByPlace(f(i, s[..n][i]), inner(i)) {
        assert ListedByPlace(f(i, s[i]), inner(i));
      }
      CollectLists(s[..n], f, inner);
      var places :| Lists(Collect(s[..n], f), places, Nested(inner, n));
      assert ListedByPlace(f(n, s[n]), inner(n));
      var below :| Lists(f(n, s[n]), below, inner(n));
      NestedStep(inner, n, Collect(s[..n], f), places, f(n, s[n]), below);
    }
  }

  lemma SamePlaces<R(!new)>(entries: seq<R>, a: (Place, R) -> bool, b: (Place, R) -> bool)
    requires ListedByPlace(entries, a) && forall p, x :: a(p, x) <==> b(p, x)
    ensures ListedByPlace(entries, b)
  {
    var places :| Lists(entries, places, a);
    assert Lists(entries, places, b);
  }

  lemma NothingListed<R(!new)>(earns: (Place, R) -> bool)
    requires forall p, x :: !earns(p, x)
    ensures ListedByPlace([], earns)
  {
    assert Lists([], [], earns);
  }

  /** One entry, at the place itself. */
  lemma OneListed<R(!new)>(x: R, earns: (Place, R) -> bool)
    requires var here: Place := []; earns(here, x)
    requires forall p, y | earns(p, y) :: p == []
    ensures ListedByPlace([x], earns)
  {
    var here: Place := [];
    var places := [here];
    assert Lists([x], places, earns);
  }
}
