/** Lockfile package paths: the walk up `node_modules` directories and the package name of a path. */
module LockPaths {
  import opened Sequences
  import opened Text

  const MODULES := "node_modules"
  const MARKER := "node_modules/"
  const NESTED_MARKER := "/node_modules/"

  /** Where a dependency would be installed for the package at `cursor`. */
  function Candidate(cursor: string, name: string): string {
    if cursor != "" then cursor + NESTED_MARKER + name else MARKER + name
  }

  /** The next place to look from a non-root cursor. */
  function ParentCursor(cursor: string): (parent: string)
    requires cursor != ""
    ensures |parent| < |cursor|
  {
    var nested := LastIndexOf(cursor, NESTED_MARKER);
    if nested >= 0 then cursor[..nested]
    else if StartsWith(cursor, MARKER) then ""
    else
      var separator := LastIndexOf(cursor, "/");
      if separator >= 0 then cursor[..separator] else ""
  }

  /** All the places a lookup visits, nearest first. */
  function Cursors(cursor: string): (r: seq<string>)
    ensures r != [] && r[0] == cursor
    decreases |cursor|
  {
    [cursor] + if cursor == "" then [] else Cursors(ParentCursor(cursor))
  }

  /** The nearest candidate that is installed, if any. */
  function Resolve(installed: set<string>, cursor: string, name: string): Option<string>
    decreases |cursor|
  {
    if Candidate(cursor, name) in installed then Some(Candidate(cursor, name))
    else if cursor == "" then None
    else Resolve(installed, ParentCursor(cursor), name)
  }

  /** A resolution picks the first installed candidate along the cursors, and fails only when there is none. */
  lemma {:induction false} ResolveIsNearest(installed: set<string>, cursor: string, name: string)
    ensures match Resolve(installed, cursor, name)
            case None => forall c | c in Cursors(cursor) :: Candidate(c, name) !in installed
            case Some(path) =>
              exists k | 0 <= k < |Cursors(cursor)| ::
                path == Candidate(Cursors(cursor)[k], name) && path in installed &&
                forall j | 0 <= j < k :: Candidate(Cursors(cursor)[j], name) !in installed
    decreases |cursor|
  {
    if Candidate(cursor, name) in installed {
      assert Candidate(Cursors(cursor)[0], name) in installed;
    } else if cursor != "" {
      var rest := Cursors(ParentCursor(cursor));
      ResolveIsNearest(installed, ParentCursor(cursor), name);
      assert Cursors(cursor) == [cursor] + rest;
      match Resolve(installed, cursor, name)
      case None =>
      case Some(path) =>
        var k :| 0 <= k < |rest| && path == Candidate(rest[k], name) && path in installed &&
          forall j | 0 <= j < k :: Candidate(rest[j], name) !in installed;
        assert Cursors(cursor)[k + 1] == rest[k];
        forall j | 0 <= j < k + 1 ensures Candidate(Cursors(cursor)[j], name) !in installed {
          if j > 0 { assert Cursors(cursor)[j] == rest[j - 1]; }
        }
    }
  }

  // ----- the same walk over path segments

  /** The innermost `node_modules` segment that has something on both sides, or -1. */
  function LastModules(segments: seq<string>, from: int): (k: int)
    requires from < |segments| - 1
    ensures -1 <= k
    ensures k >= 0 ==> 1 <= k <= from && segments[k] == MODULES
    ensures forall j | k < j <= from && j >= 1 :: segments[j] != MODULES
    decreases from + 1
  {
    if from < 1 then -1
    else if segments[from] == MODULES then from
    else LastModules(segments, from - 1)
  }

  /** Up to the enclosing package of a nested one, the root of a top-level one, else the parent directory. */
  function ParentSegments(segments: seq<string>): seq<string>
    requires segments != []
  {
    var k := LastModules(segments, |segments| - 2);
    if k >= 0 then segments[..k]
    else if |segments| == 1 || segments[0] == MODULES then [""]
    else segments[..|segments| - 1]
  }

  /** A path whose k-th segment is an inner `node_modules` contains the nested marker at that place. */
  lemma InnerSegmentOccurs(s: string, k: nat)
    requires 1 <= k < |Split(s, '/')| - 1 && Split(s, '/')[k] == MODULES
    ensures OccursAt(s, NESTED_MARKER, |Join(Split(s, '/')[..k], "/")|)
  {
    var parts := Split(s, '/');
    var a, b := parts[..k], parts[k + 1..];
    JoinSplit(s, '/');
    assert parts == a + ([MODULES] + b);
    JoinAroundModules(a, b);
    MarkerInside(Join(a, "/"), Join(b, "/"));
  }

  lemma JoinAroundModules(a: seq<string>, b: seq<string>)
    requires a != [] && b != []
    ensures Join(a + ([MODULES] + b), "/") == Join(a, "/") + NESTED_MARKER + Join(b, "/")
  {
    JoinConcat(a, [MODULES] + b, "/");
    JoinConcat([MODULES], b, "/");
    var x, y := Join(a, "/"), Join(b, "/");
    assert "/" + (MODULES + "/" + y) == NESTED_MARKER + y;
    assert x + "/" + (MODULES + "/" + y) == x + ("/" + (MODULES + "/" + y));
    assert x + (NESTED_MARKER + y) == x + NESTED_MARKER + y;
  }

  lemma MarkerInside(x: string, y: string)
    ensures OccursAt(x + NESTED_MARKER + y, NESTED_MARKER, |x|)
  {
  }

  lemma LongerPrefixLongerJoin(parts: seq<string>, i: nat, j: nat)
    requires 1 <= i < j <= |parts|
    ensures |Join(parts[..i], "/")| < |Join(parts[..j], "/")|
  {
    assert parts[..j] == parts[..i] + parts[i..j];
    JoinConcat(parts[..i], parts[i..j], "/");
  }

  lemma SplitAtNestedMarker(s: string, at: nat)
    requires OccursAt(s, NESTED_MARKER, at)
    ensures var k := |Split(s[..at], '/')|;
            k < |Split(s, '/')| - 1 && Split(s, '/')[..k] == Split(s[..at], '/') && Split(s, '/')[k] == MODULES
  {
    var x, y := s[..at], s[at + |NESTED_MARKER|..];
    assert s == x + NESTED_MARKER + y;
    NestedSplit(x, y);
  }

  lemma NestedSplit(x: string, y: string)
    ensures Split(x + NESTED_MARKER + y, '/') == Split(x, '/') + [MODULES] + Split(y, '/')
  {
    assert x + NESTED_MARKER + y == x + ['/'] + (MODULES + ['/'] + y);
    SplitThree(x, MODULES, y, '/');
  }

  lemma SplitThree(x: string, m: string, y: string, c: char)
    requires c !in m
    ensures Split(x + [c] + (m + [c] + y), c) == Split(x, c) + [m] + Split(y, c)
  {
    SplitConcat(x, m + [c] + y, c);
    SplitConcat(m, y, c);
    SplitPlain(m, c);
  }

  /** Walking the string and walking the segments lead to the same place. */
  lemma ParentCursorBySegments(cursor: string)
    requires cursor != ""
    ensures Split(ParentCursor(cursor), '/') == ParentSegments(Split(cursor, '/'))
  {
    var parts := Split(cursor, '/');
    var k := LastModules(parts, |parts| - 2);
    var nested := LastIndexOf(cursor, NESTED_MARKER);
    if nested >= 0 {
      SplitAtNestedMarker(cursor, nested);
      var n := |Split(cursor[..nested], '/')|;
      assert k >= n;
      if k > n {
        InnerSegmentOccurs(cursor, k);
        LongerPrefixLongerJoin(parts, n, k);
        JoinSplit(cursor[..nested], '/');
      }
    } else {
      if k >= 0 { InnerSegmentOccurs(cursor, k); assert false; }
      OuterParentBySegments(cursor, parts);
    }
  }

  /** All the places a lookup visits, as segments. */
  function SegmentCursors(segments: seq<string>): (r: seq<seq<string>>)
    requires segments != []
    decreases |segments|, segments != [""]
  {
    [segments] + if segments == [""] then [] else SegmentCursors(ParentSegments(segments))
  }

  /** The whole lookup by string visits the same places as the one by segments. */
  lemma {:induction false} CursorsBySegments(cursor: string)
    ensures var walk := SegmentCursors(Split(cursor, '/'));
            |Cursors(cursor)| == |walk| && forall i | 0 <= i < |walk| :: Split(Cursors(cursor)[i], '/') == walk[i]
    decreases |cursor|
  {
    var segments := Split(cursor, '/');
    JoinSplit(cursor, '/');
    if cursor != "" {
      assert segments != [""];
      ParentCursorBySegments(cursor);
      CursorsBySegments(ParentCursor(cursor));
      assert Cursors(cursor) == [cursor] + Cursors(ParentCursor(cursor));
      assert SegmentCursors(segments) == [segments] + SegmentCursors(ParentSegments(segments));
    }
  }

  lemma OuterParentBySegments(cursor: string, parts: seq<string>)
    requires cursor != "" && parts == Split(cursor, '/')
    requires LastIndexOf(cursor, NESTED_MARKER) < 0
    ensures Split(ParentCursor(cursor), '/') ==
            if |parts| == 1 || parts[0] == MODULES then [""] else parts[..|parts| - 1]
  {
    if StartsWith(cursor, MARKER) {
      TopLevelSegments(cursor);
    } else {
      ModulesFirst(cursor);
      if LastIndexOf(cursor, "/") < 0 { SingleSegment(cursor); } else { LastSegment(cursor); }
    }
  }

  lemma TopLevelSegments(s: string)
    requires StartsWith(s, MARKER)
    ensures Split(s, '/')[0] == MODULES
  {
    var y := s[|MARKER|..];
    SplitHead(MODULES, y, '/');
    assert s == MODULES + ['/'] + y;
  }

  lemma SplitHead(head: string, rest: string, c: char)
    requires c !in head
    ensures Split(head + [c] + rest, c) == [head] + Split(rest, c)
  {
    SplitConcat(head, rest, c);
    SplitPlain(head, c);
  }

  lemma ModulesFirst(s: string)
    ensures |Split(s, '/')| > 1 && Split(s, '/')[0] == MODULES ==> StartsWith(s, MARKER)
  {
    var parts := Split(s, '/');
    JoinSplit(s, '/');
    if |parts| > 1 && parts[0] == MODULES {
      assert s == MODULES + ['/'] + Join(parts[1..], ['/']);
      assert MODULES + ['/'] == MARKER;
    }
  }

  lemma SlashOccurs(s: string)
    ensures (forall i :: !OccursAt(s, "/", i)) <==> '/' !in s
  {
    forall i | 0 <= i < |s| ensures OccursAt(s, "/", i) <==> s[i] == '/' {
      assert s[i..i + 1] == [s[i]];
    }
  }

  lemma SingleSegment(s: string)
    requires LastIndexOf(s, "/") < 0
    ensures Split(s, '/') == [s]
  {
    SlashOccurs(s);
    SplitPlain(s, '/');
  }

  /** The last slash cuts off the last segment. */
  lemma LastSegment(s: string)
    ensures var at := LastIndexOf(s, "/");
            at >= 0 ==> |Split(s, '/')| > 1 && Split(s[..at], '/') == Split(s, '/')[..|Split(s, '/')| - 1]
  {
    var at := LastIndexOf(s, "/");
    if at >= 0 {
      var x, y := s[..at], s[at + 1..];
      assert s[at..at + 1] == "/";
      assert s == x + ['/'] + y;
      SplitConcat(x, y, '/');
      NoSlashAfterLast(s, at);
      SplitPlain(y, '/');
    }
  }

  lemma NoSlashAfterLast(s: string, at: nat)
    requires at == LastIndexOf(s, "/")
    ensures '/' !in s[at + 1..]
  {
    forall i | at < i < |s| ensures s[i] != '/' {
      assert !OccursAt(s, "/", i);
      assert s[i..i + 1] == [s[i]];
    }
  }

  // ----- the package name of a path

  /** The name of the package installed at a path; none when `packageNameFromLockPath` throws. */
  function PackageNameFromLockPath(path: string): Option<string> {
    var marker := LastIndexOf(path, MARKER);
    if marker < 0 then None
    else
      var parts := Split(path[marker + |MARKER|..], '/');
      if StartsWith(parts[0], "@") then
        if |parts| != 2 || parts[1] == "" then None else Some(parts[0] + "/" + parts[1])
      else if |parts| != 1 || parts[0] == "" then None
      else Some(parts[0])
  }

  /** `name`, or `@scope/name`. */
  predicate WellFormedName(name: string) {
    var parts := Split(name, '/');
    if StartsWith(parts[0], "@") then |parts| == 2 && parts[1] != "" else |parts| == 1 && parts[0] != ""
  }

  ghost predicate Mentions(s: string, p: string) {
    exists i :: OccursAt(s, p, i)
  }

  /** A parsed name is the text after the last marker, and that text is then a well-formed name. */
  lemma ParsedNameIsSuffix(path: string)
    ensures var marker := LastIndexOf(path, MARKER);
            PackageNameFromLockPath(path) ==
            if marker >= 0 && WellFormedName(path[marker + |MARKER|..])
            then Some(path[marker + |MARKER|..]) else None
  {
    var marker := LastIndexOf(path, MARKER);
    if marker >= 0 {
      var rest := path[marker + |MARKER|..];
      var parts := Split(rest, '/');
      JoinSplit(rest, '/');
      if |parts| == 2 { assert parts == [parts[0]] + parts[1..]; assert parts[1..] == [parts[1]]; }
    }
  }

  lemma OccurrenceChar(s: string, p: string, i: nat, n: nat)
    requires n < |p| && i + n < |s|
    ensures OccursAt(s, p, i) ==> s[i + n] == p[n]
  {
    if OccursAt(s, p, i) { assert s[i..i + |p|][n] == s[i + n]; }
  }

  /** The marker ends in the only slash it has, so two occurrences never overlap. */
  lemma MarkersDoNotOverlap(s: string, i: nat, j: nat)
    requires OccursAt(s, MARKER, i) && i < j < i + |MARKER|
    ensures !OccursAt(s, MARKER, j)
  {
    OccurrenceChar(s, MARKER, i, |MARKER| - 1);
    OccurrenceChar(s, MARKER, j, i + |MARKER| - 1 - j);
  }

  /** Occurrences inside a suffix are the late occurrences of the whole. */
  lemma OccursInSuffix(s: string, p: string, start: nat, i: nat)
    requires start <= |s|
    ensures OccursAt(s, p, start + i) <==> OccursAt(s[start..], p, i)
  {
    if start + i + |p| <= |s| {
      assert s[start..][i..i + |p|] == s[start + i..start + i + |p|];
    }
  }

  lemma LastMarkerOfCandidate(cursor: string, name: string)
    ensures var path := Candidate(cursor, name);
            |path| - |name| - |MARKER| <= LastIndexOf(path, MARKER) &&
            (LastIndexOf(path, MARKER) == |path| - |name| - |MARKER| <==> !Mentions(name, MARKER))
  {
    var path := Candidate(cursor, name);
    var start := |path| - |name|;
    assert path[start..] == name;
    assert path[start - |MARKER|..start] == MARKER;
    assert OccursAt(path, MARKER, start - |MARKER|);
    forall j | start - |MARKER| < j < start ensures !OccursAt(path, MARKER, j) {
      MarkersDoNotOverlap(path, start - |MARKER|, j);
    }
    forall i: nat ensures OccursAt(path, MARKER, start + i) <==> OccursAt(name, MARKER, i) {
      OccursInSuffix(path, MARKER, start, i);
    }
    var last := LastIndexOf(path, MARKER);
    if last >= start { assert OccursAt(name, MARKER, last - start); }
    if i :| OccursAt(name, MARKER, i) { assert OccursAt(path, MARKER, start + i); }
  }

  /** The name read back from a resolved path is the dependency name, exactly for these names. */
  lemma NameReadBackExact(cursor: string, name: string)
    ensures PackageNameFromLockPath(Candidate(cursor, name)) == Some(name) <==>
            WellFormedName(name) && !Mentions(name, MARKER)
  {
    var path := Candidate(cursor, name);
    ParsedNameIsSuffix(path);
    LastMarkerOfCandidate(cursor, name);
    assert path[|path| - |name|..] == name;
  }

  /** Among well-formed names only those whose scope ends in `node_modules` contain the marker. */
  lemma WellFormedNameMentionsMarker(name: string)
    requires WellFormedName(name)
    ensures Mentions(name, MARKER) <==> '/' in name && EndsWith(Split(name, '/')[0], MODULES)
  {
    var parts := Split(name, '/');
    JoinSplit(name, '/');
    SplitPieces(name, '/');
    if |parts| == 1 {
      assert name == parts[0] && parts[0] in parts;
      forall i ensures !OccursAt(name, MARKER, i) {
        if 0 <= i <= |name| - |MARKER| { OccurrenceChar(name, MARKER, i, |MARKER| - 1); }
      }
    } else {
      var a, b := parts[0], parts[1];
      assert parts == [a] + parts[1..] && parts[1..] == [b];
      assert Join([b], ['/']) == b;
      assert name == a + ['/'] + b;
      assert a in parts && b in parts;
      assert name[|a|] == '/';
      ScopeMarker(name, a, b);
    }
  }

  lemma ScopeMarker(name: string, a: string, b: string)
    requires name == a + ['/'] + b && '/' !in a && '/' !in b
    ensures Mentions(name, MARKER) <==> EndsWith(a, MODULES)
  {
    if i :| OccursAt(name, MARKER, i) {
      OccurrenceChar(name, MARKER, i, |MARKER| - 1);
      assert forall k | 0 <= k < |name| && name[k] == '/' :: k == |a|;
      assert name[i..i + |MARKER|][..|MODULES|] == a[i..];
    }
    if EndsWith(a, MODULES) {
      var i := |a| - |MODULES|;
      assert name[i..i + |MARKER|] == a[i..] + ['/'];
      assert MODULES + ['/'] == MARKER;
      assert OccursAt(name, MARKER, i);
    }
  }

  lemma SplitScoped(scope: string, name: string)
    requires '/' !in scope && '/' !in name
    ensures Split(scope + ['/'] + name, '/') == [scope, name]
  {
    SplitConcat(scope, name, '/');
    SplitPlain(scope, '/');
    SplitPlain(name, '/');
  }

  /** A well-formed scoped name that is not read back: the scope hides as a `node_modules` directory. */
  lemma ScopeEndingInModulesIsMisread()
    ensures var name := "@node_modules" + ['/'] + "x";
            WellFormedName(name) && PackageNameFromLockPath(Candidate("", name)) != Some(name)
  {
    var scope := "@node_modules";
    var name := scope + ['/'] + "x";
    SplitScoped(scope, "x");
    assert scope[1..] == MODULES;
    ScopeMarker(name, scope, "x");
    NameReadBackExact("", name);
  }
}
