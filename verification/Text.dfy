/** Strings as the platform handles them: trimming, ordering, sorting, joining and splitting. */
module Text {
  import opened Sequences

  /** White space as `trim` and `\s` understand it. */
  predicate IsSpace(c: char) {
    var n := c as int;
    9 <= n <= 13 || n == 0x20 || n == 0xA0 || n == 0x1680 || 0x2000 <= n <= 0x200A ||
    n == 0x2028 || n == 0x2029 || n == 0x202F || n == 0x205F || n == 0x3000 || n == 0xFEFF
  }

  function TrimStart(s: string): string {
    if s != [] && IsSpace(s[0]) then TrimStart(s[1..]) else s
  }

  function TrimEnd(s: string): string {
    if s != [] && IsSpace(s[|s| - 1]) then TrimEnd(s[..|s| - 1]) else s
  }

  function Trim(s: string): (r: string)
    ensures r != [] ==> !IsSpace(r[0]) && !IsSpace(r[|r| - 1])
  {
    TrimStartEnds(s);
    TrimEndEnds(TrimStart(s));
    TrimEnd(TrimStart(s))
  }

  lemma TrimStartEnds(s: string)
    ensures TrimStart(s) != [] ==> !IsSpace(TrimStart(s)[0])
  {
  }

  lemma TrimEndEnds(s: string)
    ensures TrimEnd(s) <= s
    ensures TrimEnd(s) != [] ==> !IsSpace(TrimEnd(s)[|TrimEnd(s)| - 1])
  {
  }

  lemma TrimIdempotent(s: string)
    ensures Trim(Trim(s)) == Trim(s)
  {
  }

  /** Trimming takes white space off both ends and nothing else. */
  lemma TrimExact(s: string) returns (before: string, after: string)
    ensures s == before + Trim(s) + after
    ensures (forall c | c in before :: IsSpace(c)) && forall c | c in after :: IsSpace(c)
  {
    before := TrimmedStart(s);
    after := TrimmedEnd(TrimStart(s));
  }

  lemma {:induction false} TrimmedStart(s: string) returns (before: string)
    ensures s == before + TrimStart(s) && forall c | c in before :: IsSpace(c)
  {
    if s != [] && IsSpace(s[0]) {
      var tail := s[1..];
      var rest := TrimmedStart(tail);
      before := [s[0]] + rest;
      assert s == [s[0]] + tail;
    } else {
      before := [];
    }
  }

  lemma {:induction false} TrimmedEnd(s: string) returns (after: string)
    ensures s == TrimEnd(s) + after && forall c | c in after :: IsSpace(c)
  {
    if s != [] && IsSpace(s[|s| - 1]) {
      var head := s[..|s| - 1];
      var rest := TrimmedEnd(head);
      after := rest + [s[|s| - 1]];
      assert s == head + [s[|s| - 1]];
    } else {
      after := [];
    }
  }

  lemma {:induction false} TrimStartOf(gap: string, s: string)
    requires (forall c | c in gap :: IsSpace(c)) && (s == "" || !IsSpace(s[0]))
    ensures TrimStart(gap + s) == s
  {
    if gap == "" {
      assert gap + s == s;
    } else {
      var later := gap[1..];
      TrimStartOf(later, s);
      assert (gap + s)[1..] == later + s;
    }
  }

  lemma TrimPlain(s: string)
    requires s == "" || (!IsSpace(s[0]) && !IsSpace(s[|s| - 1]))
    ensures Trim(s) == s
  {
  }

  /** `a <= b` in the order of `compareText` and of the default `sort`. */
  predicate Leq(a: string, b: string) {
    a == [] || (b != [] && (a[0] < b[0] || (a[0] == b[0] && Leq(a[1..], b[1..]))))
  }

  /** A text comes before another if it is the beginning of it or has the smaller character where they first differ. */
  lemma {:induction false} LeqExact(a: string, b: string)
    ensures Leq(a, b) <==> a <= b || exists i :: 0 <= i < |a| && i < |b| && a[..i] == b[..i] && a[i] < b[i]
  {
    if a != [] && b != [] && a[0] == b[0] {
      LeqExact(a[1..], b[1..]);
      LeqTails(a, b);
    } else if a != [] && b != [] && a[0] < b[0] {
      assert a[..0] == b[..0];
    }
  }

  lemma LeqTails(a: string, b: string)
    requires a != [] && b != [] && a[0] == b[0]
    ensures a[1..] <= b[1..] <==> a <= b
    ensures (exists i :: 0 <= i < |a[1..]| && i < |b[1..]| && a[1..][..i] == b[1..][..i] && a[1..][i] < b[1..][i]) <==>
            exists i :: 0 <= i < |a| && i < |b| && a[..i] == b[..i] && a[i] < b[i]
  {
    var x, y := a[1..], b[1..];
    assert a == [a[0]] + x && b == [a[0]] + y;
    if i :| 0 <= i < |x| && i < |y| && x[..i] == y[..i] && x[i] < y[i] {
      assert a[..i + 1] == [a[0]] + x[..i] && b[..i + 1] == [a[0]] + y[..i];
      assert a[i + 1] < b[i + 1];
    }
    if i :| 0 <= i < |a| && i < |b| && a[..i] == b[..i] && a[i] < b[i] {
      assert i > 0;
      assert x[..i - 1] == a[..i][1..] && y[..i - 1] == b[..i][1..];
      assert x[i - 1] < y[i - 1];
    }
  }

  lemma LeqAntisymmetric(a: string, b: string)
    requires Leq(a, b) && Leq(b, a)
    ensures a == b
  {
    if a != [] {
      LeqAntisymmetric(a[1..], b[1..]);
      assert a == [a[0]] + a[1..] && b == [b[0]] + b[1..];
    }
  }

  lemma LeqTransitive(a: string, b: string, c: string)
    requires Leq(a, b) && Leq(b, c)
    ensures Leq(a, c)
  {
    if a != [] && b[0] == a[0] && c[0] == b[0] {
      LeqTransitive(a[1..], b[1..], c[1..]);
    }
  }

  lemma LeqTotal(a: string, b: string)
    ensures Leq(a, b) || Leq(b, a)
  {
  }

  predicate StrictlySorted(s: seq<string>) {
    forall i, j | 0 <= i < j < |s| :: s[i] != s[j] && Leq(s[i], s[j])
  }

  function InsertUnique(x: string, s: seq<string>): (r: seq<string>)
    requires StrictlySorted(s)
    ensures StrictlySorted(r)
    ensures ToSet(r) == ToSet(s) + {x}
  {
    if s == [] then [x]
    else if x == s[0] then s
    else
      assert s == [s[0]] + s[1..];
      if Leq(x, s[0]) then
        assert forall j | 0 <= j < |s| :: Leq(x, s[j]) by {
          forall j | 0 <= j < |s| ensures Leq(x, s[j]) {
            if j > 0 { LeqTransitive(x, s[0], s[j]); }
          }
        }
        assert x !in s by {
          if x in s {
            var j :| 0 <= j < |s| && s[j] == x;
            LeqAntisymmetric(x, s[0]);
          }
        }
        [x] + s
      else
        var rest := InsertUnique(x, s[1..]);
        assert forall y | y in rest :: y != s[0] && Leq(s[0], y) by {
          LeqTotal(x, s[0]);
          forall y | y in rest ensures y != s[0] && Leq(s[0], y) { assert y in ToSet(rest); }
        }
        assert ToSet([s[0]] + rest) == {s[0]} + ToSet(rest);
        [s[0]] + rest
  }

  /** The members of the list, once each and sorted. */
  function SortUnique(s: seq<string>): (r: seq<string>)
    ensures StrictlySorted(r)
    ensures ToSet(r) == ToSet(s)
  {
    if s == [] then [] else
      assert s == [s[0]] + s[1..];
      InsertUnique(s[0], SortUnique(s[1..]))
  }

  predicate SortedByKey<T>(s: seq<T>, key: T -> string) {
    forall i, j | 0 <= i < j < |s| :: Leq(key(s[i]), key(s[j]))
  }

  /** Insertion after every element whose key is not greater. */
  function InsertByKey<T>(x: T, s: seq<T>, key: T -> string): (r: seq<T>)
    ensures multiset(r) == multiset(s) + multiset{x}
  {
    if s == [] then [x]
    else
      var last := |s| - 1;
      assert s == s[..last] + [s[last]];
      if Leq(key(s[last]), key(x)) then s + [x] else InsertByKey(x, s[..last], key) + [s[last]]
  }

  /** The stable sort `s.sort((a, b) => compareText(key(a), key(b)))`. */
  function SortByKey<T>(s: seq<T>, key: T -> string): (r: seq<T>)
    ensures multiset(r) == multiset(s)
  {
    if s == [] then []
    else
      assert s == s[..|s| - 1] + [s[|s| - 1]];
      InsertByKey(s[|s| - 1], SortByKey(s[..|s| - 1], key), key)
  }

  lemma SameMultisetSameMembers<T>(a: seq<T>, b: seq<T>, x: T)
    requires multiset(a) == multiset(b)
    ensures x in a <==> x in b
  {
    assert x in multiset(a) <==> x in multiset(b);
  }

  lemma {:induction false} InsertByKeySorted<T>(x: T, s: seq<T>, key: T -> string)
    requires SortedByKey(s, key)
    ensures SortedByKey(InsertByKey(x, s, key), key)
  {
    if s != [] {
      var last := |s| - 1;
      if Leq(key(s[last]), key(x)) {
        forall i | 0 <= i < last ensures Leq(key(s[i]), key(x)) {
          LeqTransitive(key(s[i]), key(s[last]), key(x));
        }
      } else {
        LeqTotal(key(s[last]), key(x));
        var rest := InsertByKey(x, s[..last], key);
        InsertByKeySorted(x, s[..last], key);
        forall i | 0 <= i < |rest| ensures Leq(key(rest[i]), key(s[last])) {
          assert rest[i] in multiset(rest);
          assert rest[i] in multiset(s[..last]) || rest[i] == x;
        }
      }
    }
  }

  lemma {:induction false} SortByKeySorted<T>(s: seq<T>, key: T -> string)
    ensures SortedByKey(SortByKey(s, key), key)
  {
    if s != [] {
      SortByKeySorted(s[..|s| - 1], key);
      InsertByKeySorted(s[|s| - 1], SortByKey(s[..|s| - 1], key), key);
    }
  }

  /** A strictly sorted sequence is determined by its elements. */
  lemma {:induction false} StrictlySortedUnique(a: seq<string>, b: seq<string>)
    requires StrictlySorted(a) && StrictlySorted(b) && ToSet(a) == ToSet(b)
    ensures a == b
  {
    if a == [] {
      ToSetEmpty(a);
      ToSetEmpty(b);
    } else {
      assert a[0] in ToSet(a) && a[0] in b;
      var i :| 0 <= i < |b| && b[i] == a[0];
      assert b[0] in ToSet(b) && b[0] in a;
      var j :| 0 <= j < |a| && a[j] == b[0];
      if i > 0 && j > 0 { LeqAntisymmetric(a[0], b[0]); }
      assert a[0] == b[0];
      assert a == [a[0]] + a[1..] && b == [b[0]] + b[1..];
      assert a[0] !in a[1..] && b[0] !in b[1..];
      forall x ensures x in ToSet(a[1..]) <==> x in ToSet(b[1..]) {
        assert x in ToSet(a[1..]) <==> x in ToSet(a) && x != a[0];
        assert x in ToSet(b[1..]) <==> x in ToSet(b) && x != b[0];
      }
      StrictlySortedUnique(a[1..], b[1..]);
    }
  }

  function Join(parts: seq<string>, separator: string): string {
    if parts == [] then ""
    else if |parts| == 1 then parts[0]
    else parts[0] + separator + Join(parts[1..], separator)
  }

  /** The pieces of a text that continues with these pieces after the character `x`. */
  function Prepend(x: char, c: char, pieces: seq<string>): (r: seq<string>)
    requires pieces != []
    ensures r != []
  {
    if x == c then [""] + pieces else [[x] + pieces[0]] + pieces[1..]
  }

  lemma PrependConcat(x: char, c: char, first: seq<string>, second: seq<string>)
    requires first != []
    ensures Prepend(x, c, first + second) == Prepend(x, c, first) + second
  {
    assert (first + second)[1..] == first[1..] + second;
    assert [""] + (first + second) == ([""] + first) + second;
  }

  /** The pieces of `s` between occurrences of `c`. */
  function Split(s: string, c: char): (parts: seq<string>)
    ensures parts != []
  {
    if s == [] then [""] else Prepend(s[0], c, Split(s[1..], c))
  }

  lemma {:induction false} SplitPieces(s: string, c: char)
    ensures forall p | p in Split(s, c) :: c !in p
  {
    if s != [] { SplitPieces(s[1..], c); }
  }

  lemma JoinPrepend(x: char, c: char, pieces: seq<string>)
    requires pieces != []
    ensures Join(Prepend(x, c, pieces), [c]) == [x] + Join(pieces, [c])
  {
    if x == c {
      assert ([""] + pieces)[1..] == pieces;
    } else {
      assert ([[x] + pieces[0]] + pieces[1..])[1..] == pieces[1..];
    }
  }

  lemma {:induction false} JoinSplit(s: string, c: char)
    ensures Join(Split(s, c), [c]) == s
  {
    if s != [] {
      JoinSplit(s[1..], c);
      JoinPrepend(s[0], c, Split(s[1..], c));
    }
  }

  lemma SplitCons(x: char, s: string, c: char)
    ensures Split([x] + s, c) == Prepend(x, c, Split(s, c))
  {
    assert ([x] + s)[1..] == s;
  }

  lemma {:induction false} SplitConcat(a: string, b: string, c: char)
    ensures Split(a + [c] + b, c) == Split(a, c) + Split(b, c)
  {
    if a == [] {
      SplitCons(c, b, c);
      assert a + [c] + b == [c] + b;
    } else {
      var rest := a[1..] + [c] + b;
      assert a + [c] + b == [a[0]] + rest;
      calc {
        Split(a + [c] + b, c);
        { SplitCons(a[0], rest, c); }
        Prepend(a[0], c, Split(rest, c));
        { SplitConcat(a[1..], b, c); }
        Prepend(a[0], c, Split(a[1..], c) + Split(b, c));
        { PrependConcat(a[0], c, Split(a[1..], c), Split(b, c)); }
        Prepend(a[0], c, Split(a[1..], c)) + Split(b, c);
        Split(a, c) + Split(b, c);
      }
    }
  }

  lemma {:induction false} SplitPlain(s: string, c: char)
    requires c !in s
    ensures Split(s, c) == [s]
  {
    if s != [] {
      assert forall x | x in s[1..] :: x in s;
      SplitPlain(s[1..], c);
      assert s == [s[0]] + s[1..];
    }
  }

  lemma {:induction false} SplitJoin(parts: seq<string>, c: char)
    requires |parts| >= 1 && forall p | p in parts :: c !in p
    ensures Split(Join(parts, [c]), c) == parts
  {
    if |parts| == 1 {
      SplitPlain(parts[0], c);
    } else {
      SplitJoin(parts[1..], c);
      SplitPlain(parts[0], c);
      SplitConcat(parts[0], Join(parts[1..], [c]), c);
      assert Join(parts, [c]) == parts[0] + [c] + Join(parts[1..], [c]);
    }
  }

  lemma {:induction false} JoinConcat(a: seq<string>, b: seq<string>, separator: string)
    requires a != [] && b != []
    ensures Join(a + b, separator) == Join(a, separator) + separator + Join(b, separator)
  {
    assert (a + b)[1..] == a[1..] + b;
    if |a| > 1 {
      JoinConcat(a[1..], b, separator);
    } else {
      assert a[1..] + b == b;
    }
  }

  predicate StartsWith(s: string, p: string) {
    p <= s
  }

  predicate EndsWith(s: string, p: string) {
    |p| <= |s| && s[|s| - |p|..] == p
  }

  predicate OccursAt(s: string, p: string, i: int) {
    0 <= i <= |s| - |p| && s[i..i + |p|] == p
  }

  function LastIndexFrom(s: string, p: string, from: int): (i: int)
    requires from <= |s| - |p|
    ensures -1 <= i <= from || i == -1
    ensures i >= 0 ==> OccursAt(s, p, i)
    ensures forall j | i < j <= from :: !OccursAt(s, p, j)
    decreases from + 1
  {
    if from < 0 then -1
    else if OccursAt(s, p, from) then from
    else LastIndexFrom(s, p, from - 1)
  }

  /** Where the last occurrence of `p` in `s` starts, or -1. */
  function LastIndexOf(s: string, p: string): (i: int)
    ensures i == -1 || OccursAt(s, p, i)
    ensures forall j | i < j :: !OccursAt(s, p, j)
  {
    LastIndexFrom(s, p, |s| - |p|)
  }
}
